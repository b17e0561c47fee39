/**
 When the feed parser hands over exactly what the feed says: for each offer element, in document order, its
 identification, feed_id and last_modified followed by its children, with every image after the first one
 taken out and nothing else changed.
 */
module FeedExact {
  import opened Bson
  import opened Feed

  // ---------- what is wanted ----------

  /** The element's own text, in however many chunks it is reported; what is not reported is no part of the content. */
  function TextWanted(c: Content): string {
    match c
    case End => ""
    case Chars(t, rest) => t + TextWanted(rest)
    case Elem(_, _, _, _, rest) => TextWanted(rest)
  }

  /** The children, without the images that come after the first (`seen`: it has come already). */
  function KidsWanted(c: Content, seen: bool): seq<Tree> {
    match c
    case End => []
    case Chars(_, rest) => KidsWanted(rest, seen)
    case Elem(name, _, _, body, rest) =>
      if name == "image" && seen then KidsWanted(rest, true)
      else [Tree(name, TextWanted(body), KidsWanted(body, seen || name == "image"))]
           + KidsWanted(rest, SeenAfter(seen, name, body))
  }

  /** The index of the first attribute called internal-id, or their number. */
  function FirstId(attrs: seq<Attr>): (k: nat)
    ensures k <= |attrs| && forall j | 0 <= j < k :: attrs[j].name != "internal-id"
    ensures k < |attrs| ==> attrs[k].name == "internal-id"
  {
    if attrs == [] || attrs[0].name == "internal-id" then 0 else 1 + FirstId(attrs[1..])
  }

  /** Identification, feed id and time, and then the children. */
  function OfferWanted(feedId: string, offer: Content): Tree
    requires offer.Elem?
  {
    var k := FirstId(offer.attrs);
    Tree("offer", "", (if k < |offer.attrs| then [Tree("internal-id", offer.attrs[k].value, [])] else [])
                      + [Tree("feed_id", feedId, []), Tree("last_modified", offer.now, [])]
                      + KidsWanted(offer.body, false))
  }

  /** One tree for each outermost offer element. */
  function FeedWanted(feedId: string, c: Content): seq<Tree> {
    match c
    case End => []
    case Chars(_, rest) => FeedWanted(feedId, rest)
    case Elem(name, _, _, body, rest) =>
      (if name == "offer" then [OfferWanted(feedId, c)] else FeedWanted(feedId, body)) + FeedWanted(feedId, rest)
  }

  // ---------- when it is what comes out ----------

  /** The elements in the content other than images, at any depth. */
  function Others(c: Content): nat {
    match c
    case End => 0
    case Chars(_, rest) => Others(rest)
    case Elem(name, _, _, body, rest) => (if name == "image" then 0 else 1) + Others(body) + Others(rest)
  }

  /** No image that is to be taken out has an element other than images inside. */
  predicate DroppedBare(c: Content, seen: bool) {
    match c
    case End => true
    case Chars(_, rest) => DroppedBare(rest, seen)
    case Elem(name, _, _, body, rest) =>
      if name == "image" && seen then Others(body) == 0 && DroppedBare(rest, true)
      else DroppedBare(body, seen || name == "image") && DroppedBare(rest, SeenAfter(seen, name, body))
  }

  predicate HasChunk(c: Content) {
    match c
    case End => false
    case Chars(_, _) => true
    case Elem(_, _, _, _, rest) => HasChunk(rest)
  }

  /** Each chunk of the element's own text but the last is empty. */
  predicate AllButLastEmpty(c: Content) {
    match c
    case End => true
    case Chars(t, rest) => (HasChunk(rest) ==> t == "") && AllButLastEmpty(rest)
    case Elem(_, _, _, _, rest) => AllButLastEmpty(rest)
  }

  /** The last text reported while this element is the innermost one that is not a dropped image. */
  function LastReported(c: Content, seen: bool): Option<string> {
    match c
    case End => None
    case Chars(t, rest) => if LastReported(rest, seen).Some? then LastReported(rest, seen) else Some(t)
    case Elem(name, _, _, body, rest) =>
      if name == "image" && seen then
        if LastReported(rest, true).Some? then LastReported(rest, true) else LastReported(body, true)
      else LastReported(rest, SeenAfter(seen, name, body))
  }

  /** The last text in dropped images that come behind the last chunk of the element's own. */
  function TrailingDropped(c: Content, seen: bool): Option<string> {
    match c
    case End => None
    case Chars(_, rest) => TrailingDropped(rest, seen)
    case Elem(name, _, _, body, rest) =>
      if name == "image" && seen then
        if TrailingDropped(rest, true).Some? || HasChunk(rest) then TrailingDropped(rest, true)
        else LastReported(body, true)
      else TrailingDropped(rest, SeenAfter(seen, name, body))
  }

  /**
   The element's own text comes last and in one piece: no dropped image has text behind it and each own chunk
   before the last is empty; or the last text behind it happens to be the same.
   */
  predicate EndsWhole(c: Content, seen: bool) {
    match TrailingDropped(c, seen)
    case Some(t) => t == TextWanted(c)
    case None => AllButLastEmpty(c)
  }

  /** So it is in every element that stays. */
  predicate AllEndWhole(c: Content, seen: bool) {
    match c
    case End => true
    case Chars(_, rest) => AllEndWhole(rest, seen)
    case Elem(name, _, _, body, rest) =>
      if name == "image" && seen then AllEndWhole(rest, true)
      else EndsWhole(body, seen) && AllEndWhole(body, seen) && AllEndWhole(rest, SeenAfter(seen, name, body))
  }

  /** What an offer's content has to be like. */
  predicate Clean(body: Content) {
    FirstImageFlat(body) && DroppedBare(body, false) && AllEndWhole(body, false)
  }

  predicate NoNestedOffer(c: Content) {
    match c
    case End => true
    case Chars(_, rest) => NoNestedOffer(rest)
    case Elem(name, _, _, body, rest) =>
      (if name == "offer" then !HasOffer(body) else NoNestedOffer(body)) && NoNestedOffer(rest)
  }

  predicate AllClean(c: Content) {
    match c
    case End => true
    case Chars(_, rest) => AllClean(rest)
    case Elem(name, _, _, body, rest) =>
      (if name == "offer" then Clean(body) else AllClean(body)) && AllClean(rest)
  }

  /** The shape that the feed format gives images: leaves directly under the offer (`top`). */
  predicate ImagesAreLeaves(c: Content, top: bool) {
    match c
    case End => true
    case Chars(_, rest) => ImagesAreLeaves(rest, top)
    case Elem(name, _, _, body, rest) =>
      && (if name == "image" then top && !HasImage(body) && Others(body) == 0 else ImagesAreLeaves(body, false))
      && ImagesAreLeaves(rest, top)
  }

  /** Every element reports its text in one chunk, empty ones before it apart. */
  predicate WholeTexts(c: Content) {
    match c
    case End => true
    case Chars(_, rest) => WholeTexts(rest)
    case Elem(_, _, _, body, rest) => AllButLastEmpty(body) && WholeTexts(body) && WholeTexts(rest)
  }

  // ---------- the text of one element ----------

  /** The last chunk of the element's own. */
  function OwnLast(c: Content): Option<string> {
    match c
    case End => None
    case Chars(t, rest) => if HasChunk(rest) then OwnLast(rest) else Some(t)
    case Elem(_, _, _, _, rest) => OwnLast(rest)
  }

  function OrElse(first: Option<string>, second: string): string {
    if first.Some? then first.value else second
  }

  lemma {:induction false} OwnLastIsPart(c: Content)
    ensures OwnLast(c).Some? <==> HasChunk(c)
    ensures |OrElse(OwnLast(c), "")| <= |TextWanted(c)|
    ensures OrElse(OwnLast(c), "") == TextWanted(c) <==> AllButLastEmpty(c)
  {
    match c
    case End =>
    case Chars(t, rest) =>
      OwnLastIsPart(rest);
      if !HasChunk(rest) {
        assert OwnLast(rest) == None;
        NoChunkNoText(rest);
        assert t + "" == t;
      } else if t == "" {
        assert "" + TextWanted(rest) == TextWanted(rest);
      } else {
        assert |TextWanted(c)| == |t| + |TextWanted(rest)|;
      }
    case Elem(_, _, _, _, rest) => OwnLastIsPart(rest);
  }

  lemma {:induction false} NoChunkNoText(c: Content)
    requires !HasChunk(c)
    ensures TextWanted(c) == "" && AllButLastEmpty(c)
  {
    match c
    case End =>
    case Elem(_, _, _, _, rest) => NoChunkNoText(rest);
  }

  /** The handlers keep the text that is reported last. */
  lemma {:induction false} KeptIsLast(c: Content, text: string, seen: bool)
    ensures TextKept(c, text, seen) == OrElse(LastReported(c, seen), text)
  {
    match c
    case End =>
    case Chars(t, rest) => KeptIsLast(rest, t, seen);
    case Elem(name, _, _, body, rest) =>
      if name == "image" && seen {
        KeptIsLast(body, text, true);
        KeptIsLast(rest, TextKept(body, text, true), true);
      } else {
        KeptIsLast(rest, text, SeenAfter(seen, name, body));
      }
  }

  lemma {:induction false} LastIsTrailing(c: Content, seen: bool)
    ensures LastReported(c, seen) == if TrailingDropped(c, seen).Some? then TrailingDropped(c, seen) else OwnLast(c)
  {
    OwnLastIsPart(c);
    match c
    case End =>
    case Chars(_, rest) =>
      OwnLastIsPart(rest);
      LastIsTrailing(rest, seen);
    case Elem(name, _, _, body, rest) =>
      OwnLastIsPart(rest);
      LastIsTrailing(rest, if name == "image" && seen then true else SeenAfter(seen, name, body));
  }

  /** The handlers leave an element with its own text if and only if that text comes last and in one piece. */
  lemma {:induction false} TextExact(c: Content, seen: bool)
    ensures TextKept(c, "", seen) == TextWanted(c) <==> EndsWhole(c, seen)
  {
    KeptIsLast(c, "", seen);
    LastIsTrailing(c, seen);
    OwnLastIsPart(c);
  }

  // ---------- counting nodes ----------

  /** The nodes that are images (or that are not), the node itself included. */
  function Count(t: Tree, images: bool): nat {
    (if (t.name == "image") == images then 1 else 0) + CountAll(t.kids, images)
  }

  function CountAll(ts: seq<Tree>, images: bool): nat {
    if ts == [] then 0 else Count(ts[0], images) + CountAll(ts[1..], images)
  }

  lemma {:induction false} CountConcat(a: seq<Tree>, b: seq<Tree>, images: bool)
    ensures CountAll(a + b, images) == CountAll(a, images) + CountAll(b, images)
  {
    if a == [] {
      assert a + b == b;
    } else {
      CountConcat(a[1..], b, images);
      assert (a + b)[1..] == a[1..] + b;
    }
  }

  lemma {:induction false} CountTop(open: seq<Frame>, f: Frame, images: bool)
    requires open != []
    ensures CountAll(open + [f], images) == CountAll(open, images) + Count(f, images)
    ensures CountAll(WithTop(open, f), images) + Count(Top(open), images) == CountAll(open, images) + Count(f, images)
  {
    var n := |open|;
    CountConcat(open, [f], images);
    CountConcat(open[..n - 1], [f], images);
    CountConcat(open[..n - 1], [open[n - 1]], images);
    assert open == open[..n - 1] + [open[n - 1]];
  }

  /** Folding a node into its parent loses none. */
  lemma {:induction false} CountPopped(open: seq<Frame>, images: bool)
    requires |open| > 1
    ensures CountAll(Popped(open), images) == CountAll(open, images)
  {
    var n := |open|;
    var parent := open[n - 2].(kids := open[n - 2].kids + [open[n - 1]]);
    assert open == open[..n - 2] + [open[n - 2], open[n - 1]];
    CountConcat(open[..n - 2], [open[n - 2], open[n - 1]], images);
    CountConcat([open[n - 2]], [open[n - 1]], images);
    assert [open[n - 2], open[n - 1]] == [open[n - 2]] + [open[n - 1]];
    CountConcat(open[..n - 2], [parent], images);
    CountConcat(open[n - 2].kids, [open[n - 1]], images);
  }

  lemma {:induction false} CountCollapse(open: seq<Frame>, images: bool)
    requires open != []
    ensures Count(Collapse(open), images) == CountAll(open, images)
    decreases |open|
  {
    if |open| == 1 {
      assert open == [open[0]];
    } else {
      CountPopped(open, images);
      CountCollapse(Popped(open), images);
    }
  }

  /**
   What holds of any content inside an offer, however its images are nested: popping never gets above the
   node that was current, each element that is not an image adds a node, and so does the first image, and
   the image inside it.
   */
  ghost predicate Grown(st: State, st': State, c: Content) {
    && st.open != [] && |st'.open| >= |st.open|
    && st'.root == st.root && st'.delivered == st.delivered
    && st'.hasImage == (st.hasImage || HasImage(c))
    && CountAll(st'.open, false) == CountAll(st.open, false) + Others(c)
    && CountAll(st'.open, true) >= CountAll(st.open, true)
                                   + (if st.hasImage || !HasImage(c) then 0 else if FirstImageFlat(c) then 1 else 2)
  }

  lemma {:induction false} ContentGrows(st: State, feedId: string, c: Content)
    requires st.open != [] && !HasOffer(c)
    ensures After(st, feedId, c).Some? && Grown(st, After(st, feedId, c).value, c)
    decreases c
  {
    match c
    case End =>
    case Chars(text, rest) =>
      AfterChars(st, feedId, c);
      var next := OnCharacters(st, text);
      forall images
        ensures CountAll(next.open, images) == CountAll(st.open, images)
      {
        CountTop(st.open, Top(st.open).(data := text), images);
      }
      ContentGrows(next, feedId, rest);
    case Elem(name, attrs, now, body, rest) =>
      AfterElem(st, feedId, c);
      var started := OnStart(st, feedId, name, attrs, now);
      ContentGrows(started, feedId, body);
      var inner := After(started, feedId, body).value;
      var next := OnStop(inner, name);
      ElementGrows(st, feedId, c, started, inner, next);
      ContentGrows(next, feedId, rest);
      GrownTwice(st, next, After(next, feedId, rest).value, c);
  }

  /** One element with everything inside it. */
  ghost predicate GrownByElement(st: State, next: State, c: Content)
    requires c.Elem?
  {
    && |next.open| >= |st.open| > 0
    && next.root == st.root && next.delivered == st.delivered
    && next.hasImage == SeenAfter(st.hasImage, c.name, c.body)
    && CountAll(next.open, false) == CountAll(st.open, false) + (if c.name == "image" then 0 else 1) + Others(c.body)
    && CountAll(next.open, true) >= CountAll(st.open, true)
         + (if st.hasImage || !(c.name == "image" || HasImage(c.body)) then 0
            else if c.name == "image" then (if HasImage(c.body) then 2 else 1)
            else if FirstImageFlat(c.body) then 1 else 2)
  }

  lemma {:induction false} ElementGrows(st: State, feedId: string, c: Content, started: State, inner: State,
                                        next: State)
    requires st.open != [] && c.Elem? && c.name != "offer"
    requires started == OnStart(st, feedId, c.name, c.attrs, c.now)
    requires Grown(started, inner, c.body) && next == OnStop(inner, c.name)
    ensures GrownByElement(st, next, c)
  {
    forall images
      ensures CountAll(st.open + [Leaf(c.name, "")], images)
           == CountAll(st.open, images) + (if (c.name == "image") == images then 1 else 0)
    {
      CountTop(st.open, Leaf(c.name, ""), images);
    }
    if |inner.open| > 1 {
      CountPopped(inner.open, true);
      CountPopped(inner.open, false);
    }
  }

  lemma {:induction false} GrownTwice(st: State, mid: State, st': State, c: Content)
    requires c.Elem? && GrownByElement(st, mid, c) && Grown(mid, st', c.rest)
    ensures Grown(st, st', c)
  {
  }

  // ---------- what is wanted, counted ----------

  lemma {:induction false} ImagesWanted(c: Content, seen: bool)
    ensures CountAll(KidsWanted(c, seen), true) == if !seen && HasImage(c) then 1 else 0
  {
    match c
    case End =>
    case Chars(_, rest) => ImagesWanted(rest, seen);
    case Elem(name, _, _, body, rest) =>
      if name == "image" && seen {
        ImagesWanted(rest, true);
      } else {
        ImagesWanted(body, seen || name == "image");
        ImagesWanted(rest, SeenAfter(seen, name, body));
      }
  }

  /** Something is missing from what is wanted exactly when an image to be taken out is not bare. */
  lemma {:induction false} OthersWanted(c: Content, seen: bool)
    ensures CountAll(KidsWanted(c, seen), false) <= Others(c)
    ensures CountAll(KidsWanted(c, seen), false) == Others(c) <==> DroppedBare(c, seen)
  {
    match c
    case End =>
    case Chars(_, rest) => OthersWanted(rest, seen);
    case Elem(name, _, _, body, rest) =>
      if name == "image" && seen {
        OthersWanted(rest, true);
      } else {
        OthersWanted(body, seen || name == "image");
        OthersWanted(rest, SeenAfter(seen, name, body));
      }
  }

  // ---------- one offer ----------

  /** The parser right after the start tag of an offer. */
  function Opened(feedId: string, offer: Content, delivered: seq<Tree>): State
    requires offer.Elem?
  {
    State([OfferRoot(feedId, offer.attrs, offer.now)], None, false, delivered)
  }

  /** The tree that is handed over at the end tag. */
  ghost function OfferDelivered(feedId: string, offer: Content): Tree
    requires offer.Elem? && !HasOffer(offer.body)
  {
    ContentGrows(Opened(feedId, offer, []), feedId, offer.body);
    Collapse(After(Opened(feedId, offer, []), feedId, offer.body).value.open)
  }

  lemma {:induction false} NoImagesNoMatter(c: Content)
    requires !HasImage(c)
    ensures KidsWanted(c, true) == KidsWanted(c, false)
    ensures DroppedBare(c, true) && DroppedBare(c, false)
  {
    match c
    case End =>
    case Chars(_, rest) => NoImagesNoMatter(rest);
    case Elem(_, _, _, body, rest) => NoImagesNoMatter(body); NoImagesNoMatter(rest);
  }

  lemma {:induction false} NothingButImages(c: Content)
    requires Others(c) == 0
    ensures KidsKept(c, true) == []
  {
    match c
    case End =>
    case Chars(_, rest) => NothingButImages(rest);
    case Elem(_, _, _, body, rest) => NothingButImages(body); NothingButImages(rest);
  }

  lemma {:induction false} SameSplit<T>(x: T, y: T, a: seq<T>, b: seq<T>)
    ensures [x] + a == [y] + b <==> x == y && a == b
  {
    if [x] + a == [y] + b {
      assert ([x] + a)[0] == ([y] + b)[0];
      assert ([x] + a)[1..] == a && ([y] + b)[1..] == b;
    }
  }

  /** With the images in order, the children are the wanted ones exactly when the texts are. */
  lemma {:induction false} SameKids(c: Content, seen: bool)
    requires (seen || FirstImageFlat(c)) && DroppedBare(c, seen)
    ensures KidsKept(c, seen) == KidsWanted(c, seen) <==> AllEndWhole(c, seen)
  {
    match c
    case End =>
    case Chars(_, rest) => SameKids(rest, seen);
    case Elem(name, _, _, body, rest) =>
      if name == "image" && seen {
        NothingButImages(body);
        SameKids(rest, true);
        assert [] + KidsKept(rest, true) == KidsKept(rest, true);
      } else {
        if !HasImage(body) {
          NoImageIsFlat(body);
          NoImagesNoMatter(body);
        }
        TextExact(body, seen);
        SameKids(body, seen);
        SameKids(rest, SeenAfter(seen, name, body));
        SameSplit(Tree(name, TextKept(body, "", seen), KidsKept(body, seen)),
                  Tree(name, TextWanted(body), KidsWanted(body, seen || name == "image")),
                  KidsKept(rest, SeenAfter(seen, name, body)),
                  KidsWanted(rest, SeenAfter(seen, name, body)));
      }
  }

  lemma {:induction false} SameTail<T>(h: seq<T>, a: seq<T>, b: seq<T>)
    ensures h + a == h + b <==> a == b
  {
    if h + a == h + b {
      assert (h + a)[|h|..] == a && (h + b)[|h|..] == b;
    }
  }

  lemma {:induction false} InternalIdIsFirst(attrs: seq<Attr>)
    ensures InternalId(attrs)
         == if FirstId(attrs) < |attrs| then [Tree("internal-id", attrs[FirstId(attrs)].value, [])] else []
  {
    if attrs == [] || attrs[0].name == "internal-id" {
    } else {
      InternalIdIsFirst(attrs[1..]);
    }
  }

  lemma {:induction false} WantedFromRoot(feedId: string, offer: Content)
    requires offer.Elem?
    ensures var root := OfferRoot(feedId, offer.attrs, offer.now);
      root.name == "offer" && OfferWanted(feedId, offer) == root.(kids := root.kids + KidsWanted(offer.body, false))
  {
    InternalIdIsFirst(offer.attrs);
  }

  /** Whatever comes inside an offer, the root keeps the children it has. */
  lemma {:induction false} FillKeepsRoot(open: seq<Frame>, c: Content, seen: bool)
    requires open != [] && open[0].name == "offer"
    ensures var root := Fill(open, c, seen)[0];
      root.name == "offer" && root.data == open[0].data && open[0].kids <= root.kids
    decreases c
  {
    match c
    case End =>
    case Chars(t, rest) =>
      FillKeepsRoot(if Top(open).name == "offer" then open else WithTop(open, Top(open).(data := t)), rest, seen);
    case Elem(name, _, _, body, rest) =>
      if name == "image" && seen {
        FillKeepsRoot(open, body, true);
        FillKeepsRoot(Fill(open, body, true), rest, true);
      } else {
        var inner := Fill(open + [Leaf(name, "")], body, seen);
        FillKeepsRoot(open + [Leaf(name, "")], body, seen);
        FillKeepsRoot(if name == "image" && HasImage(body) then inner else Popped(inner), rest,
                      SeenAfter(seen, name, body));
      }
  }

  lemma {:induction false} CollapseKeepsRoot(open: seq<Frame>)
    requires open != []
    ensures var root := Collapse(open);
      root.name == open[0].name && root.data == open[0].data && open[0].kids <= root.kids
    decreases |open|
  {
    if |open| == 1 {
    } else {
      CollapseKeepsRoot(Popped(open));
    }
  }

  /**
   Whatever is in an offer, its tree begins with the first internal-id attribute, if there is one, the feed's id and
   the time of its start tag.
   */
  lemma {:induction false} FirstChildren(feedId: string, offer: Content)
    requires offer.Elem? && !HasOffer(offer.body)
    ensures var t, attrs := OfferDelivered(feedId, offer), offer.attrs;
      var feed, time := Tree("feed_id", feedId, []), Tree("last_modified", offer.now, []);
      && t.name == "offer" && t.data == ""
      && (forall k | 0 <= k < |attrs| && attrs[k].name == "internal-id"
                     && (forall j | 0 <= j < k :: attrs[j].name != "internal-id") ::
            [Tree("internal-id", attrs[k].value, []), feed, time] <= t.kids)
      && ((forall k | 0 <= k < |attrs| :: attrs[k].name != "internal-id") ==> [feed, time] <= t.kids)
  {
    var st := Opened(feedId, offer, []);
    ContentFills(st, feedId, offer.body);
    FillKeepsRoot(st.open, offer.body, false);
    CollapseKeepsRoot(Fill(st.open, offer.body, false));
    InternalIdIsFirst(offer.attrs);
    var root := OfferRoot(feedId, offer.attrs, offer.now);
    assert root.kids <= OfferDelivered(feedId, offer).kids;
    forall k | 0 <= k < |offer.attrs| && offer.attrs[k].name == "internal-id"
               && (forall j | 0 <= j < k :: offer.attrs[j].name != "internal-id")
      ensures root.kids == [Tree("internal-id", offer.attrs[k].value, []),
                            Tree("feed_id", feedId, []), Tree("last_modified", offer.now, [])]
    {
      assert k == FirstId(offer.attrs);
    }
  }

  /** With the first image flat, an offer comes out as the recursion over its content says. */
  lemma {:induction false} FlatOffer(feedId: string, offer: Content)
    requires offer.Elem? && !HasOffer(offer.body) && FirstImageFlat(offer.body)
    ensures OfferDelivered(feedId, offer) == Filled(OfferRoot(feedId, offer.attrs, offer.now), offer.body, false)
  {
    var st := Opened(feedId, offer, []);
    ContentFills(st, feedId, offer.body);
    FlatFills(st.open, offer.body, false);
  }

  /** An offer comes out as wanted if and only if its content is clean. */
  lemma {:induction false} OfferExact(feedId: string, offer: Content)
    requires offer.Elem? && !HasOffer(offer.body)
    ensures OfferDelivered(feedId, offer) == OfferWanted(feedId, offer) <==> Clean(offer.body)
  {
    var c, root := offer.body, OfferRoot(feedId, offer.attrs, offer.now);
    WantedFromRoot(feedId, offer);
    if FirstImageFlat(c) {
      FlatOffer(feedId, offer);
      SameTail(root.kids, KidsKept(c, false), KidsWanted(c, false));
    }
    if Clean(c) {
      SameKids(c, false);
    } else if FirstImageFlat(c) && DroppedBare(c, false) {
      SameKids(c, false);
    } else {
      MissesCount(feedId, offer);
    }
  }

  /** Nested images, or elements in an image to be taken out, show in the number of nodes. */
  lemma {:induction false} MissesCount(feedId: string, offer: Content)
    requires offer.Elem? && !HasOffer(offer.body)
    requires !(FirstImageFlat(offer.body) && DroppedBare(offer.body, false))
    ensures exists images ::
              Count(OfferDelivered(feedId, offer), images) > Count(OfferWanted(feedId, offer), images)
  {
    var st, c := Opened(feedId, offer, []), offer.body;
    var root := st.open[0];
    WantedFromRoot(feedId, offer);
    ContentGrows(st, feedId, c);
    var open := After(st, feedId, c).value.open;
    assert st.open == [root] && st.open[1..] == [];
    forall images
      ensures Count(OfferDelivered(feedId, offer), images) == CountAll(open, images)
      ensures Count(OfferWanted(feedId, offer), images) == Count(root, images) + CountAll(KidsWanted(c, false), images)
    {
      CountCollapse(open, images);
      CountConcat(root.kids, KidsWanted(c, false), images);
    }
    ImagesWanted(c, false);
    OthersWanted(c, false);
    if !FirstImageFlat(c) {
      FlatOrImage(c);
      assert Count(OfferDelivered(feedId, offer), true) > Count(OfferWanted(feedId, offer), true);
    } else {
      assert Count(OfferDelivered(feedId, offer), false) > Count(OfferWanted(feedId, offer), false);
    }
  }

  lemma {:induction false} FlatOrImage(c: Content)
    ensures FirstImageFlat(c) || HasImage(c)
  {
    if !HasImage(c) {
      NoImageIsFlat(c);
    }
  }

  // ---------- the whole feed ----------

  function OfferCount(c: Content): nat {
    match c
    case End => 0
    case Chars(_, rest) => OfferCount(rest)
    case Elem(name, _, _, body, rest) => (if name == "offer" then 1 else 0) + OfferCount(body) + OfferCount(rest)
  }

  /** However offers are nested, each offer element leads to one callback, and never without a tree to hand over. */
  lemma {:induction false} OneCallbackEach(st: State, feedId: string, c: Content)
    ensures After(st, feedId, c).Some?
    ensures var st' := After(st, feedId, c).value;
      && |st'.delivered| == |st.delivered| + OfferCount(c)
      && (WholeTree(st).Some? ==> WholeTree(st').Some?)
    decreases c
  {
    match c
    case End =>
    case Chars(text, rest) =>
      AfterChars(st, feedId, c);
      OneCallbackEach(OnCharacters(st, text), feedId, rest);
    case Elem(name, attrs, now, body, rest) =>
      AfterElem(st, feedId, c);
      var started := OnStart(st, feedId, name, attrs, now);
      OneCallbackEach(started, feedId, body);
      var inner := After(started, feedId, body).value;
      OneCallbackEach(OnStop(inner, name), feedId, rest);
  }

  /** The trees handed over for a feed without nested offers. */
  ghost function FeedDelivered(feedId: string, c: Content): seq<Tree>
    requires NoNestedOffer(c)
  {
    match c
    case End => []
    case Chars(_, rest) => FeedDelivered(feedId, rest)
    case Elem(name, _, _, body, rest) =>
      (if name == "offer" then [OfferDelivered(feedId, c)] else FeedDelivered(feedId, body))
      + FeedDelivered(feedId, rest)
  }

  ghost predicate Outside(st: State) {
    st.open == [] && !st.hasImage
  }

  /** One offer element between others. */
  lemma {:induction false} OfferIsDelivered(st: State, feedId: string, c: Content)
    requires Outside(st) && c.Elem? && c.name == "offer" && !HasOffer(c.body)
    ensures exists st' :: (
              && Outside(st') && st'.delivered == st.delivered + [OfferDelivered(feedId, c)]
              && After(st, feedId, c) == After(st', feedId, c.rest))
  {
    hide After, Run, Events;
    var first, later := Opened(feedId, c, []), Opened(feedId, c, st.delivered);
    AfterElem(st, feedId, c);
    ContentGrows(first, feedId, c.body);
    ContentGrows(later, feedId, c.body);
    DeliveredIsCarried(first, feedId, c.body, st.delivered);
    assert OnStart(st, feedId, c.name, c.attrs, c.now) == later;
    var st' := OnStop(After(later, feedId, c.body).value, c.name);
    assert st'.delivered == st.delivered + [OfferDelivered(feedId, c)];
    assert Outside(st');
  }

  /** Between offers nothing is left over from one to the next: each is built as if it were the first. */
  lemma {:induction false} OffersAreIndependent(st: State, feedId: string, c: Content)
    requires Outside(st) && NoNestedOffer(c)
    ensures After(st, feedId, c).Some?
    ensures var st' := After(st, feedId, c).value;
      Outside(st') && st'.delivered == st.delivered + FeedDelivered(feedId, c)
    decreases c
  {
    match c
    case End =>
    case Chars(text, rest) =>
      AfterChars(st, feedId, c);
      OffersAreIndependent(st, feedId, rest);
    case Elem(name, attrs, now, body, rest) =>
      hide After, Run, Events;
      var next;
      if name == "offer" {
        OfferIsDelivered(st, feedId, c);
        next :| Outside(next) && next.delivered == st.delivered + [OfferDelivered(feedId, c)]
          && After(st, feedId, c) == After(next, feedId, rest);
      } else {
        AfterElem(st, feedId, c);
        OffersAreIndependent(st, feedId, body);
        next := After(st, feedId, body).value;
      }
      OffersAreIndependent(next, feedId, rest);
      var these := if name == "offer" then [OfferDelivered(feedId, c)] else FeedDelivered(feedId, body);
      assert st.delivered + these + FeedDelivered(feedId, rest) == st.delivered + (these + FeedDelivered(feedId, rest));
  }

  /** What was delivered earlier has no influence on what is built. */
  lemma {:induction false} DeliveredIsCarried(st: State, feedId: string, c: Content, before: seq<Tree>)
    requires st.delivered == [] && After(st, feedId, c).Some?
    ensures var st' := After(st, feedId, c).value;
      After(st.(delivered := before), feedId, c) == Some(st'.(delivered := before + st'.delivered))
  {
    assert before + [] == before;
    CarriedOverRun(st, feedId, Events(c), before);
  }

  lemma {:induction false} CarriedOverRun(st: State, feedId: string, events: seq<Event>, before: seq<Tree>)
    requires Run(st, feedId, events).Some?
    ensures var st' := Run(st, feedId, events).value;
      Run(st.(delivered := before + st.delivered), feedId, events) == Some(st'.(delivered := before + st'.delivered))
    decreases |events|
  {
    if events == [] {
    } else {
      var next := Feed.Step(st, feedId, events[0]).value;
      CarriedOverRun(next, feedId, events[1..], before);
      if next.delivered != st.delivered {
        assert before + st.delivered + [next.delivered[|st.delivered|]] == before + next.delivered;
      }
    }
  }

  lemma {:induction false} WantedLength(feedId: string, c: Content)
    ensures |FeedWanted(feedId, c)| <= OfferCount(c)
    ensures |FeedWanted(feedId, c)| == OfferCount(c) <==> NoNestedOffer(c)
    ensures OfferCount(c) == 0 <==> !HasOffer(c)
  {
    match c
    case End =>
    case Chars(_, rest) => WantedLength(feedId, rest);
    case Elem(_, _, _, body, rest) => WantedLength(feedId, body); WantedLength(feedId, rest);
  }

  lemma {:induction false} SameParts<T>(a: seq<T>, b: seq<T>, x: seq<T>, y: seq<T>)
    requires |a| == |b|
    ensures a + x == b + y <==> a == b && x == y
  {
    if a + x == b + y {
      assert (a + x)[..|a|] == a && (b + y)[..|b|] == b;
      assert (a + x)[|a|..] == x && (b + y)[|b|..] == y;
    }
  }

  lemma {:induction false} SameFeeds(feedId: string, c: Content)
    requires NoNestedOffer(c)
    ensures |FeedDelivered(feedId, c)| == |FeedWanted(feedId, c)|
    ensures FeedDelivered(feedId, c) == FeedWanted(feedId, c) <==> AllClean(c)
  {
    match c
    case End =>
    case Chars(_, rest) => SameFeeds(feedId, rest);
    case Elem(name, _, _, body, rest) =>
      SameFeeds(feedId, rest);
      var later, wantedLater := FeedDelivered(feedId, rest), FeedWanted(feedId, rest);
      if name == "offer" {
        OfferExact(feedId, c);
        SameSplit(OfferDelivered(feedId, c), OfferWanted(feedId, c), later, wantedLater);
      } else {
        SameFeeds(feedId, body);
        SameParts(FeedDelivered(feedId, body), FeedWanted(feedId, body), later, wantedLater);
      }
  }

  /**
   For every feed: the parser hands over the wanted trees, in order, if and only if no offer is inside an
   offer and each offer's content is clean.
   */
  lemma {:induction false} FeedExactly(feedId: string, c: Content)
    ensures After(IDLE, feedId, c).Some?
    ensures After(IDLE, feedId, c).value.delivered == FeedWanted(feedId, c) <==> NoNestedOffer(c) && AllClean(c)
  {
    OneCallbackEach(IDLE, feedId, c);
    WantedLength(feedId, c);
    if NoNestedOffer(c) {
      OffersAreIndependent(IDLE, feedId, c);
      SameFeeds(feedId, c);
      assert [] + FeedDelivered(feedId, c) == FeedDelivered(feedId, c);
    }
  }

  /** Images as the feed format has them, leaves directly under the offer, are clean if texts come in one piece. */
  lemma {:induction false} LeafImagesAreClean(c: Content, top: bool, seen: bool)
    requires ImagesAreLeaves(c, top) && WholeTexts(c)
    ensures (!top ==> !HasImage(c)) && FirstImageFlat(c) && DroppedBare(c, seen) && AllEndWhole(c, seen)
  {
    match c
    case End =>
    case Chars(_, rest) => LeafImagesAreClean(rest, top, seen);
    case Elem(name, _, _, body, rest) =>
      LeafImagesAreClean(rest, top, SeenAfter(seen, name, body));
      if name == "image" {
        NoImagesNoMatter(body);
        NoImagesWhole(body, seen);
      } else {
        LeafImagesAreClean(body, false, seen);
      }
      NothingDropped(body, seen);
  }

  lemma {:induction false} NothingDropped(c: Content, seen: bool)
    requires !HasImage(c)
    ensures TrailingDropped(c, seen) == None
  {
    match c
    case End =>
    case Chars(_, rest) => NothingDropped(rest, seen);
    case Elem(_, _, _, _, rest) => NothingDropped(rest, seen);
  }

  lemma {:induction false} NoImagesWhole(c: Content, seen: bool)
    requires !HasImage(c) && WholeTexts(c)
    ensures AllEndWhole(c, seen)
  {
    match c
    case End =>
    case Chars(_, rest) => NoImagesWhole(rest, seen);
    case Elem(_, _, _, body, rest) =>
      NoImagesWhole(body, seen);
      NoImagesWhole(rest, seen);
      NothingDropped(body, seen);
  }

  // ---------- feeds that do not come out as wanted ----------

  function Empty(name: string, rest: Content): Content {
    Elem(name, [], "", End, rest)
  }

  function Around(name: string, body: Content, rest: Content): Content {
    Elem(name, [], "", body, rest)
  }

  lemma {:induction false} PoppedTwice(root: Frame, f: Frame, g: Frame)
    requires f.kids == []
    ensures [root, f] + [f] == [root, f, f] && Popped([root, f, f]) == [root, f.(kids := [f])]
    ensures [root, f.(kids := [f])] + [g] == [root, f.(kids := [f]), g]
    ensures Popped([root, f.(kids := [f]), g]) == [root, f.(kids := [f, g])]
    ensures Popped([root, f.(kids := [f, g])]) == [root.(kids := root.kids + [f.(kids := [f, g])])]
  {
    assert f.kids + [f] == [f];
    assert [f] + [g] == [f, g];
    var a, b := [root, f, f], [root, f.(kids := [f]), g];
    assert a[..1] == b[..1] == [root];
  }

  /** An image in the first image: the outer one is never left, and gets the rooms; and the inner one stays in. */
  lemma {:induction false} ImageInImage(feedId: string)
    ensures var offer := Around("offer", Around("image", Empty("image", End), Empty("rooms", End)), End);
      var root := OfferRoot(feedId, [], "");
      && OfferWanted(feedId, offer) == root.(kids := root.kids + [Leaf("image", ""), Leaf("rooms", "")])
      && OfferDelivered(feedId, offer)
         == root.(kids := root.kids + [Tree("image", "", [Leaf("image", ""), Leaf("rooms", "")])])
  {
    var inner, rooms := Empty("image", End), Empty("rooms", End);
    var outer := Around("image", inner, rooms);
    var offer := Around("offer", outer, End);
    var root := OfferRoot(feedId, [], "");
    var image, room := Leaf("image", ""), Leaf("rooms", "");
    var st := Opened(feedId, offer, []);
    var one := State([root, image], None, false, []);
    var two := State([root, image.(kids := [image])], None, true, []);
    var three := State([root, image.(kids := [image, room])], None, true, []);
    AfterElem(st, feedId, outer);
    AfterElem(one, feedId, inner);
    AfterElem(two, feedId, rooms);
    PoppedTwice(root, image, room);
    assert OnStart(one, feedId, "image", [], "").open == [root, image, image];
    assert After(one, feedId, inner) == Some(two);
    assert OnStart(two, feedId, "rooms", [], "").open == [root, image.(kids := [image]), room];
    assert After(two, feedId, rooms) == Some(three);
    assert OnStart(st, feedId, "image", [], "") == one;
    assert OnStop(two, "image") == two;
    assert After(st, feedId, outer) == Some(three);
    assert Collapse(three.open) == root.(kids := root.kids + [image.(kids := [image, room])]);
    assert KidsWanted(inner, true) == [] && KidsWanted(rooms, true) == [room];
    assert KidsWanted(outer, false) == [image, room];
  }

  /** An element in a later image moves up into the offer. */
  lemma {:induction false} ElementInDroppedImage(feedId: string)
    ensures var offer := Around("offer", Empty("image", Around("image", Empty("url", End), End)), End);
      var root := OfferRoot(feedId, [], "");
      && OfferWanted(feedId, offer) == root.(kids := root.kids + [Leaf("image", "")])
      && OfferDelivered(feedId, offer) == root.(kids := root.kids + [Leaf("image", ""), Leaf("url", "")])
  {
    var url := Empty("url", End);
    FlatOffer(feedId, Around("offer", Empty("image", Around("image", url, End)), End));
    assert KidsKept(url, true) == [Leaf("url", "")];
    assert KidsKept(Around("image", url, End), true) == [Leaf("url", "")];
  }

  /** The text of a later image replaces that of the element it is in. */
  lemma {:induction false} TextInDroppedImage(feedId: string)
    ensures var plan := Chars("a", Empty("image", Around("image", Chars("b", End), End)));
      var offer := Around("offer", Around("plan", plan, End), End);
      var root := OfferRoot(feedId, [], "");
      && OfferWanted(feedId, offer) == root.(kids := root.kids + [Tree("plan", "a", [Leaf("image", "")])])
      && OfferDelivered(feedId, offer) == root.(kids := root.kids + [Tree("plan", "b", [Leaf("image", "")])])
  {
    var dropped := Around("image", Chars("b", End), End);
    var plan := Chars("a", Empty("image", dropped));
    FlatOffer(feedId, Around("offer", Around("plan", plan, End), End));
    assert TextKept(dropped, "a", true) == TextKept(End, TextKept(Chars("b", End), "a", true), true) == "b";
    assert TextKept(plan, "", false) == "b" && TextWanted(plan) == "a";
    assert KidsKept(dropped, true) == [];
    assert KidsKept(plan, false) == [Leaf("image", "")] == KidsWanted(plan, false);
  }

  /** Of a text that is reported in two chunks only the second is left. */
  lemma {:induction false} TextInTwoChunks(feedId: string)
    ensures var offer := Around("offer", Around("description", Chars("a", Chars("b", End)), End), End);
      var root := OfferRoot(feedId, [], "");
      && OfferWanted(feedId, offer) == root.(kids := root.kids + [Leaf("description", "ab")])
      && OfferDelivered(feedId, offer) == root.(kids := root.kids + [Leaf("description", "b")])
  {
    var text := Chars("a", Chars("b", End));
    FlatOffer(feedId, Around("offer", Around("description", text, End), End));
    assert TextKept(text, "", false) == "b" && TextWanted(text) == "ab";
    assert KidsKept(Around("description", text, End), false) == [Leaf("description", "b")];
  }

  /** An offer in an offer: two callbacks for one outermost offer, and both get the inner one. */
  lemma {:induction false} OfferInOffer(feedId: string)
    ensures var c := Around("offer", Empty("offer", End), End);
      var inner := OfferRoot(feedId, [], "");
      && After(IDLE, feedId, c).Some? && After(IDLE, feedId, c).value.delivered == [inner, inner]
      && FeedWanted(feedId, c) == [inner.(kids := inner.kids + [Leaf("offer", "")])]
  {
    var inner := Empty("offer", End);
    var c := Around("offer", inner, End);
    var root := OfferRoot(feedId, [], "");
    AfterElem(IDLE, feedId, c);
    AfterElem(State([root], None, false, []), feedId, inner);
    assert KidsWanted(inner, false) == [Leaf("offer", "")];
    assert FeedWanted(feedId, c) == [OfferWanted(feedId, c)];
  }
}
