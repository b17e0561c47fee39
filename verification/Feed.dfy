/**
 The feed parser on values. XML content is given as a tree, the SAX parser turns it into events, and `Step`
 is what the event handlers of feed/parser.cpp do to their state. The offers that come out are compared
 with a definition that walks the XML content directly.
 */
module Feed {
  import opened Bson

  datatype Attr = Attr(name: string, value: string)

  /**
   The content of an element, its pieces from left to right. A text may be reported in several chunks. Each
   element carries the time that the clock shows at its start tag.
   */
  datatype Content =
    | End
    | Chars(text: string, rest: Content)
    | Elem(name: string, attrs: seq<Attr>, now: string, body: Content, rest: Content)

  datatype Event =
    | Start(name: string, attrs: seq<Attr>, now: string)
    | Stop(name: string)
    | Characters(text: string)

  function Events(c: Content): seq<Event> {
    match c
    case End => []
    case Chars(text, rest) => [Characters(text)] + Events(rest)
    case Elem(name, attrs, now, body, rest) =>
      [Start(name, attrs, now)] + Events(body) + [Stop(name)] + Events(rest)
  }

  /** An offer_node with everything below it. */
  datatype Tree = Tree(name: string, data: string, kids: seq<Tree>)

  /** A node that is still open, with the children it has so far. */
  type Frame = Tree

  /**
   m_offer_root and m_current_offer_node: while a node is current, `open` is the path from the root to it and
   holds the whole tree; without a current node, `root` is the tree that m_offer_root still points to.
   */
  datatype State = State(open: seq<Frame>, root: Option<Tree>, hasImage: bool, delivered: seq<Tree>)

  const IDLE := State([], None, false, [])

  function Leaf(name: string, data: string): Tree {
    Tree(name, data, [])
  }

  /** The first attribute called internal-id, as the child it becomes. */
  function InternalId(attrs: seq<Attr>): seq<Tree> {
    if attrs == [] then []
    else if attrs[0].name == "internal-id" then [Leaf("internal-id", attrs[0].value)]
    else InternalId(attrs[1..])
  }

  function OfferRoot(feedId: string, attrs: seq<Attr>, now: string): Frame {
    Tree("offer", "", InternalId(attrs) + [Leaf("feed_id", feedId), Leaf("last_modified", now)])
  }

  /** The path with its last node folded into the one above. */
  function Popped(open: seq<Frame>): seq<Frame>
    requires |open| > 1
  {
    var n := |open|;
    open[..n - 2] + [open[n - 2].(kids := open[n - 2].kids + [open[n - 1]])]
  }

  /** The tree that an open path amounts to. */
  function Collapse(open: seq<Frame>): Tree
    requires open != []
    decreases |open|
  {
    if |open| == 1 then open[0] else Collapse(Popped(open))
  }

  function Top(open: seq<Frame>): Frame
    requires open != []
  {
    open[|open| - 1]
  }

  function WithTop(open: seq<Frame>, f: Frame): seq<Frame>
    requires open != []
  {
    open[..|open| - 1] + [f]
  }

  /** m_current_offer_node becomes the parent. */
  function Pop(st: State): State
    requires st.open != []
  {
    if |st.open| == 1 then st.(open := [], root := Some(st.open[0])) else st.(open := Popped(st.open))
  }

  function WholeTree(st: State): Option<Tree> {
    if st.open == [] then st.root else Some(Collapse(st.open))
  }

  function OnStart(st: State, feedId: string, name: string, attrs: seq<Attr>, now: string): State {
    if name == "offer" then
      st.(open := [OfferRoot(feedId, attrs, now)], root := None)
    else if st.open == [] || (name == "image" && st.hasImage) then
      st
    else
      st.(open := st.open + [Leaf(name, "")])
  }

  /** At the end of an offer there has to be a root to hand over. */
  predicate CanStop(st: State, name: string) {
    name == "offer" ==> WholeTree(st).Some?
  }

  function OnStop(st: State, name: string): State
    requires CanStop(st, name)
  {
    if name == "offer" then
      var tree := WholeTree(st).value;
      State([], Some(tree), false, st.delivered + [tree])
    else if st.open == [] then
      st
    else if name == "image" then
      if st.hasImage then st else Pop(st.(hasImage := true))
    else
      Pop(st)
  }

  /** A chunk replaces the text that the current node had; the root keeps none. */
  function OnCharacters(st: State, text: string): State {
    if st.open == [] || Top(st.open).name == "offer" then
      st
    else
      st.(open := WithTop(st.open, Top(st.open).(data := text)))
  }

  function Step(st: State, feedId: string, e: Event): Option<State> {
    match e
    case Start(name, attrs, now) => Some(OnStart(st, feedId, name, attrs, now))
    case Stop(name) => if CanStop(st, name) then Some(OnStop(st, name)) else None
    case Characters(text) => Some(OnCharacters(st, text))
  }

  function Run(st: State, feedId: string, events: seq<Event>): Option<State>
    decreases |events|
  {
    if events == [] then
      Some(st)
    else
      match Step(st, feedId, events[0])
      case None => None
      case Some(next) => Run(next, feedId, events[1..])
  }

  lemma {:induction false} RunConcat(st: State, feedId: string, a: seq<Event>, b: seq<Event>)
    ensures Run(st, feedId, a + b) ==
            match Run(st, feedId, a) { case None => None case Some(mid) => Run(mid, feedId, b) }
    decreases |a|
  {
    if a == [] {
      assert a + b == b;
    } else {
      assert (a + b)[1..] == a[1..] + b;
      match Step(st, feedId, a[0])
      case None =>
      case Some(next) => RunConcat(next, feedId, a[1..], b);
    }
  }

  /** What has been handed over stays so. */
  lemma {:induction false} RunExtends(st: State, feedId: string, events: seq<Event>)
    requires Run(st, feedId, events).Some?
    ensures st.delivered <= Run(st, feedId, events).value.delivered
    decreases |events|
  {
    if events == [] {
    } else {
      RunExtends(Step(st, feedId, events[0]).value, feedId, events[1..]);
    }
  }

  /** The parser after some content. */
  ghost function After(st: State, feedId: string, c: Content): Option<State> {
    Run(st, feedId, Events(c))
  }

  lemma {:induction false} AfterChars(st: State, feedId: string, c: Content)
    requires c.Chars?
    ensures After(st, feedId, c) == After(OnCharacters(st, c.text), feedId, c.rest)
  {
    assert Events(c)[1..] == Events(c.rest);
  }

  lemma {:induction false} AfterElem(st: State, feedId: string, c: Content)
    requires c.Elem?
    ensures After(st, feedId, c) ==
            match After(OnStart(st, feedId, c.name, c.attrs, c.now), feedId, c.body)
            case None => None
            case Some(inner) => if CanStop(inner, c.name) then After(OnStop(inner, c.name), feedId, c.rest) else None
  {
    var start, stop := [Start(c.name, c.attrs, c.now)], [Stop(c.name)];
    var body, rest := Events(c.body), Events(c.rest);
    assert Events(c) == start + (body + (stop + rest));
    RunConcat(st, feedId, start, body + (stop + rest));
    assert start[1..] == [];
    var st' := OnStart(st, feedId, c.name, c.attrs, c.now);
    assert Run(st, feedId, start) == Some(st');
    RunConcat(st', feedId, body, stop + rest);
    match Run(st', feedId, body)
    case None =>
    case Some(inner) =>
      assert (stop + rest)[1..] == rest;
  }

  // ---------- what the handlers make of an offer's content ----------

  predicate HasOffer(c: Content) {
    match c
    case End => false
    case Chars(_, rest) => HasOffer(rest)
    case Elem(name, _, _, body, rest) => name == "offer" || HasOffer(body) || HasOffer(rest)
  }

  predicate HasImage(c: Content) {
    match c
    case End => false
    case Chars(_, rest) => HasImage(rest)
    case Elem(name, _, _, body, rest) => name == "image" || HasImage(body) || HasImage(rest)
  }

  /** The first image of the content, in document order, has no image inside. */
  predicate FirstImageFlat(c: Content) {
    match c
    case End => true
    case Chars(_, rest) => FirstImageFlat(rest)
    case Elem(name, _, _, body, rest) =>
      if name == "image" then !HasImage(body)
      else if HasImage(body) then FirstImageFlat(body)
      else FirstImageFlat(rest)
  }

  lemma {:induction false} NoImageIsFlat(c: Content)
    requires !HasImage(c)
    ensures FirstImageFlat(c)
  {
    match c
    case End =>
    case Chars(_, rest) => NoImageIsFlat(rest);
    case Elem(_, _, _, _, rest) => NoImageIsFlat(rest);
  }

  /** Whether an image has ended after this element, if none had before (`seen`). */
  predicate SeenAfter(seen: bool, name: string, body: Content) {
    seen || name == "image" || HasImage(body)
  }

  /**
   The path after content `c`: a chunk replaces the text of the last node, an element that is not a dropped image
   becomes a node and is folded into its parent at its end, unless it is an image with an image inside.
   */
  function Fill(open: seq<Frame>, c: Content, seen: bool): (r: seq<Frame>)
    requires open != []
    ensures |r| >= |open|
    decreases c
  {
    match c
    case End => open
    case Chars(t, rest) =>
      Fill(if Top(open).name == "offer" then open else WithTop(open, Top(open).(data := t)), rest, seen)
    case Elem(name, _, _, body, rest) =>
      if name == "image" && seen then Fill(Fill(open, body, true), rest, true)
      else
        var inner := Fill(open + [Leaf(name, "")], body, seen);
        Fill(if name == "image" && HasImage(body) then inner else Popped(inner), rest, SeenAfter(seen, name, body))
  }

  /** Inside an offer, content without an offer does to the path what the recursion says, however images are nested. */
  lemma {:induction false} ContentFills(st: State, feedId: string, c: Content)
    requires st.open != [] && !HasOffer(c)
    ensures After(st, feedId, c) ==
            Some(st.(open := Fill(st.open, c, st.hasImage), hasImage := st.hasImage || HasImage(c)))
    decreases c
  {
    match c
    case End =>
    case Chars(text, rest) =>
      AfterChars(st, feedId, c);
      ContentFills(OnCharacters(st, text), feedId, rest);
    case Elem(name, attrs, now, body, rest) =>
      hide After, Run, Events;
      AfterElem(st, feedId, c);
      var started := OnStart(st, feedId, name, attrs, now);
      ContentFills(started, feedId, body);
      ContentFills(OnStop(After(started, feedId, body).value, name), feedId, rest);
  }

  // ---------- the same without the path, if the first image is flat ----------

  /** The text of a node with content `c`: the last chunk, those inside dropped images included. */
  function TextKept(c: Content, text: string, seen: bool): string {
    match c
    case End => text
    case Chars(t, rest) => TextKept(rest, t, seen)
    case Elem(name, _, _, body, rest) =>
      if name == "image" && seen then TextKept(rest, TextKept(body, text, true), true)
      else TextKept(rest, text, SeenAfter(seen, name, body))
  }

  /** The children for content `c`; what is inside a dropped image stays and moves up. */
  function KidsKept(c: Content, seen: bool): seq<Tree> {
    match c
    case End => []
    case Chars(_, rest) => KidsKept(rest, seen)
    case Elem(name, _, _, body, rest) =>
      if name == "image" && seen then KidsKept(body, true) + KidsKept(rest, true)
      else [Tree(name, TextKept(body, "", seen), KidsKept(body, seen))] + KidsKept(rest, SeenAfter(seen, name, body))
  }

  function Filled(f: Frame, c: Content, seen: bool): Frame {
    Tree(f.name, if f.name == "offer" then f.data else TextKept(c, f.data, seen), f.kids + KidsKept(c, seen))
  }

  /** Filling a node with a dropped image's content and then with the rest. */
  lemma {:induction false} FilledPastDropped(f: Frame, c: Content)
    requires c.Elem? && c.name == "image"
    ensures Filled(Filled(f, c.body, true), c.rest, true) == Filled(f, c, true)
  {
    var moved, more := KidsKept(c.body, true), KidsKept(c.rest, true);
    assert f.kids + moved + more == f.kids + (moved + more);
  }

  /** Adding an element that is kept, and then filling with the rest. */
  lemma {:induction false} FilledPastKept(f: Frame, c: Content, seen: bool, node: Tree)
    requires c.Elem? && !(c.name == "image" && seen)
    requires node == Tree(c.name, TextKept(c.body, "", seen), KidsKept(c.body, seen))
    ensures Filled(f.(kids := f.kids + [node]), c.rest, SeenAfter(seen, c.name, c.body)) == Filled(f, c, seen)
  {
    var more := KidsKept(c.rest, SeenAfter(seen, c.name, c.body));
    assert f.kids + [node] + more == f.kids + ([node] + more);
  }

  lemma {:induction false} TopReplaced(open: seq<Frame>, f: Frame, g: Frame)
    requires open != []
    ensures Top(WithTop(open, f)) == f && WithTop(WithTop(open, f), g) == WithTop(open, g)
    ensures WithTop(open + [f], g) == open + [g]
    ensures Popped(open + [g]) == WithTop(open, Top(open).(kids := Top(open).kids + [g]))
  {
  }

  /** Unless the first image has another inside, content fills the current node and leaves it current. */
  lemma {:induction false} FlatFills(open: seq<Frame>, c: Content, seen: bool)
    requires open != [] && !HasOffer(c) && (seen || FirstImageFlat(c))
    ensures Fill(open, c, seen) == WithTop(open, Filled(Top(open), c, seen))
    decreases c
  {
    var f := Top(open);
    match c
    case End =>
      assert Filled(f, c, seen) == f && WithTop(open, f) == open;
    case Chars(t, rest) =>
      var g := if f.name == "offer" then f else f.(data := t);
      TopReplaced(open, g, Filled(g, rest, seen));
      assert WithTop(open, f) == open;
      FlatFills(WithTop(open, g), rest, seen);
    case Elem(name, _, _, body, rest) =>
      if name == "image" && seen {
        var g := Filled(f, body, true);
        FlatFills(open, body, true);
        TopReplaced(open, g, Filled(g, rest, true));
        FlatFills(WithTop(open, g), rest, true);
        FilledPastDropped(f, c);
      } else {
        FlatElementFills(open, c, seen);
      }
  }

  lemma {:induction false} FlatElementFills(open: seq<Frame>, c: Content, seen: bool)
    requires open != [] && !HasOffer(c) && (seen || FirstImageFlat(c))
    requires c.Elem? && !(c.name == "image" && seen)
    ensures Fill(open, c, seen) == WithTop(open, Filled(Top(open), c, seen))
    decreases c, 0
  {
    hide Fill, KidsKept, TextKept;
    if !HasImage(c.body) {
      NoImageIsFlat(c.body);
    }
    var f, leaf := Top(open), Leaf(c.name, "");
    var node := Tree(c.name, TextKept(c.body, "", seen), KidsKept(c.body, seen));
    var g, seen' := f.(kids := f.kids + [node]), SeenAfter(seen, c.name, c.body);
    assert Fill(open + [leaf], c.body, seen) == open + [node] by {
      FlatFills(open + [leaf], c.body, seen);
      TopReplaced(open, leaf, node);
      LeafFilled(c, seen);
    }
    KeptElementFolds(open, c, seen, node);
    hide Filled;
    FlatFills(WithTop(open, g), c.rest, seen');
    TopReplaced(open, g, Filled(f, c, seen));
    FilledPastKept(f, c, seen, node);
  }

  lemma {:induction false} LeafFilled(c: Content, seen: bool)
    requires c.Elem? && c.name != "offer"
    ensures Filled(Leaf(c.name, ""), c.body, seen)
         == Tree(c.name, TextKept(c.body, "", seen), KidsKept(c.body, seen))
  {
  }

  lemma {:induction false} KeptElementFolds(open: seq<Frame>, c: Content, seen: bool, node: Tree)
    requires open != [] && c.Elem? && !(c.name == "image" && (seen || HasImage(c.body)))
    requires Fill(open + [Leaf(c.name, "")], c.body, seen) == open + [node]
    ensures Fill(open, c, seen)
         == Fill(WithTop(open, Top(open).(kids := Top(open).kids + [node])), c.rest, SeenAfter(seen, c.name, c.body))
  {
    TopReplaced(open, node, node);
  }
}
