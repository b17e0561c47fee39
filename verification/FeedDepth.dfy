/**
 How deep the current node lies: m_current_offer_node follows the open tags, leaving out the images that are dropped.
 */
module FeedDepth {
  import opened Bson
  import opened Feed
  import opened FeedExact

  /** A start tag inside the offer that has no end tag yet; a dropped image has no node. */
  datatype Tag = Tag(name: string, kept: bool)

  function Kept(tags: seq<Tag>): nat {
    if tags == [] then 0 else Kept(tags[..|tags| - 1]) + if tags[|tags| - 1].kept then 1 else 0
  }

  predicate KeptImage(tag: Tag) {
    tag.kept && tag.name == "image"
  }

  /** Before the first image has ended at most one image is open, and none is kept afterwards. */
  ghost predicate OneImage(st: State, tags: seq<Tag>) {
    && (forall i, j | 0 <= i < j < |tags| :: !(KeptImage(tags[i]) && KeptImage(tags[j])))
    && (st.hasImage ==> forall i | 0 <= i < |tags| :: !KeptImage(tags[i]))
  }

  /**
   The path has at least the root and one node for each open tag that is not a dropped image; and no others if
   the first image is to be `flat`.
   */
  ghost predicate Tracked(st: State, tags: seq<Tag>, flat: bool) {
    && |st.open| >= 1 + Kept(tags)
    && (forall i | 0 <= i < |tags| && !tags[i].kept :: tags[i].name == "image" && st.hasImage)
    && (flat ==> |st.open| == 1 + Kept(tags) && OneImage(st, tags))
  }

  /**
   Tags inside an offer match and there is no offer among them; if it is to be `flat`, the first image has none
   inside.
   */
  ghost predicate InOrder(st: State, tags: seq<Tag>, e: Event, flat: bool) {
    match e
    case Start(name, _, _) =>
      name != "offer" && (flat && name == "image" && !st.hasImage ==> forall i | 0 <= i < |tags| :: !KeptImage(tags[i]))
    case Stop(name) => name != "offer" && tags != [] && tags[|tags| - 1].name == name
    case Characters(_) => true
  }

  function TagsAfter(st: State, tags: seq<Tag>, e: Event): seq<Tag> {
    match e
    case Start(name, _, _) => tags + [Tag(name, !(name == "image" && st.hasImage))]
    case Stop(_) => if tags == [] then [] else tags[..|tags| - 1]
    case Characters(_) => tags
  }

  lemma {:induction false} StepIsTracked(st: State, feedId: string, tags: seq<Tag>, e: Event, flat: bool)
    requires Tracked(st, tags, flat) && InOrder(st, tags, e, flat)
    ensures Feed.Step(st, feedId, e).Some? && Tracked(Feed.Step(st, feedId, e).value, TagsAfter(st, tags, e), flat)
  {
    var tags' := TagsAfter(st, tags, e);
    if e.Start? {
      assert tags'[..|tags'| - 1] == tags;
    }
  }

  ghost predicate AllInOrder(st: State, feedId: string, tags: seq<Tag>, events: seq<Event>, flat: bool)
    decreases |events|
  {
    events == [] ||
    (InOrder(st, tags, events[0], flat) &&
     match Feed.Step(st, feedId, events[0])
     case None => false
     case Some(next) => AllInOrder(next, feedId, TagsAfter(st, tags, events[0]), events[1..], flat))
  }

  ghost function OpenTags(st: State, feedId: string, tags: seq<Tag>, events: seq<Event>): seq<Tag>
    decreases |events|
  {
    if events == [] then tags
    else
      match Feed.Step(st, feedId, events[0])
      case None => tags
      case Some(next) => OpenTags(next, feedId, TagsAfter(st, tags, events[0]), events[1..])
  }

  /**
   At every point inside an offer the path from the root to the current node has one node more than there are
   open tags other than dropped images, or even more if images are nested; so there always is a current node until
   the offer ends.
   */
  lemma {:induction false} PathFollowsTags(st: State, feedId: string, tags: seq<Tag>, events: seq<Event>, flat: bool)
    requires Tracked(st, tags, flat) && AllInOrder(st, feedId, tags, events, flat)
    ensures Run(st, feedId, events).Some?
    ensures Tracked(Run(st, feedId, events).value, OpenTags(st, feedId, tags, events), flat)
    decreases |events|
  {
    if events == [] {
    } else {
      var next, tags' := Feed.Step(st, feedId, events[0]).value, TagsAfter(st, tags, events[0]);
      StepIsTracked(st, feedId, tags, events[0], flat);
      PathFollowsTags(next, feedId, tags', events[1..], flat);
    }
  }

  lemma {:induction false} InOrderConcat(st: State, feedId: string, tags: seq<Tag>, a: seq<Event>, b: seq<Event>,
                                         flat: bool)
    requires AllInOrder(st, feedId, tags, a, flat) && Run(st, feedId, a).Some?
    requires AllInOrder(Run(st, feedId, a).value, feedId, OpenTags(st, feedId, tags, a), b, flat)
    ensures AllInOrder(st, feedId, tags, a + b, flat)
    ensures OpenTags(st, feedId, tags, a + b)
         == OpenTags(Run(st, feedId, a).value, feedId, OpenTags(st, feedId, tags, a), b)
    decreases |a|
  {
    if a == [] {
      assert a + b == b;
    } else {
      assert (a + b)[1..] == a[1..] + b;
      InOrderConcat(Feed.Step(st, feedId, a[0]).value, feedId, TagsAfter(st, tags, a[0]), a[1..], b, flat);
    }
  }

  lemma {:induction false} InOrderPrefix(st: State, feedId: string, tags: seq<Tag>, events: seq<Event>, k: nat,
                                         flat: bool)
    requires k <= |events| && AllInOrder(st, feedId, tags, events, flat)
    ensures AllInOrder(st, feedId, tags, events[..k], flat)
    decreases k
  {
    if k == 0 {
    } else {
      assert events[..k][1..] == events[1..][..k - 1];
      var next, tags' := Feed.Step(st, feedId, events[0]).value, TagsAfter(st, tags, events[0]);
      InOrderPrefix(next, feedId, tags', events[1..], k - 1, flat);
    }
  }

  lemma {:induction false} OneInOrder(st: State, feedId: string, tags: seq<Tag>, e: Event, flat: bool)
    requires InOrder(st, tags, e, flat) && Feed.Step(st, feedId, e).Some?
    ensures AllInOrder(st, feedId, tags, [e], flat) && Run(st, feedId, [e]) == Feed.Step(st, feedId, e)
    ensures OpenTags(st, feedId, tags, [e]) == TagsAfter(st, tags, e)
  {
    assert [e][1..] == [];
  }

  /** Whether the open tags leave room for the images of `c`: none before the first has ended, if that one is open. */
  ghost predicate RoomFor(st: State, tags: seq<Tag>, c: Content) {
    st.hasImage || (FirstImageFlat(c) && (HasImage(c) ==> forall i | 0 <= i < |tags| :: !KeptImage(tags[i])))
  }

  /** The events of an offer's content are in order, and close every tag that they open. */
  lemma {:induction false} ContentIsInOrder(st: State, feedId: string, tags: seq<Tag>, c: Content, flat: bool)
    requires st.open != [] && !HasOffer(c) && (flat ==> RoomFor(st, tags, c))
    ensures AllInOrder(st, feedId, tags, Events(c), flat) && OpenTags(st, feedId, tags, Events(c)) == tags
    decreases c
  {
    match c
    case End =>
    case Chars(text, rest) =>
      assert Events(c)[1..] == Events(rest);
      ContentIsInOrder(OnCharacters(st, text), feedId, tags, rest, flat);
    case Elem(name, attrs, now, body, rest) =>
      hide AllInOrder, OpenTags, Run, Events;
      if !HasImage(body) {
        NoImageIsFlat(body);
      }
      var inside := OnStart(st, feedId, name, attrs, now);
      ContentIsInOrder(inside, feedId, TagsAfter(st, tags, Start(name, attrs, now)), body, flat);
      ElementLeavesOpen(st, feedId, c);
      ContentIsInOrder(OnStop(After(inside, feedId, body).value, name), feedId, tags, rest, flat);
      ElementIsInOrder(st, feedId, tags, c, flat);
  }

  /** An element is in order if its start tag, its content and what follows it are. */
  lemma {:induction false} ElementIsInOrder(st: State, feedId: string, tags: seq<Tag>, c: Content, flat: bool)
    requires st.open != [] && c.Elem? && !HasOffer(c)
    requires InOrder(st, tags, Start(c.name, c.attrs, c.now), flat)
    requires var start := Start(c.name, c.attrs, c.now);
      var inside, tags' := OnStart(st, feedId, c.name, c.attrs, c.now), TagsAfter(st, tags, start);
      && AllInOrder(inside, feedId, tags', Events(c.body), flat)
      && OpenTags(inside, feedId, tags', Events(c.body)) == tags'
      && After(inside, feedId, c.body).Some?
      && var next := OnStop(After(inside, feedId, c.body).value, c.name);
         AllInOrder(next, feedId, tags, Events(c.rest), flat) && OpenTags(next, feedId, tags, Events(c.rest)) == tags
    ensures AllInOrder(st, feedId, tags, Events(c), flat) && OpenTags(st, feedId, tags, Events(c)) == tags
  {
    var start, stop := Start(c.name, c.attrs, c.now), Stop(c.name);
    var inside, tags' := OnStart(st, feedId, c.name, c.attrs, c.now), TagsAfter(st, tags, start);
    var body, rest := Events(c.body), Events(c.rest);
    var end := After(inside, feedId, c.body).value;
    assert Events(c) == [start] + (body + ([stop] + rest));
    assert TagsAfter(end, tags', stop) == tags;
    OneInOrder(st, feedId, tags, start, flat);
    OneInOrder(end, feedId, tags', stop, flat);
    hide AllInOrder, OpenTags, Run, Events;
    InOrderConcat(end, feedId, tags', [stop], rest, flat);
    InOrderConcat(inside, feedId, tags', body, [stop] + rest, flat);
    InOrderConcat(st, feedId, tags, [start], body + ([stop] + rest), flat);
  }

  lemma {:induction false} ElementLeavesOpen(st: State, feedId: string, c: Content)
    requires st.open != [] && c.Elem? && !HasOffer(c)
    ensures var inside := OnStart(st, feedId, c.name, c.attrs, c.now);
      && After(inside, feedId, c.body).Some?
      && OnStop(After(inside, feedId, c.body).value, c.name).open != []
      && OnStop(After(inside, feedId, c.body).value, c.name).hasImage == SeenAfter(st.hasImage, c.name, c.body)
  {
    var inside := OnStart(st, feedId, c.name, c.attrs, c.now);
    ContentGrows(inside, feedId, c.body);
    var end := After(inside, feedId, c.body).value;
    ElementGrows(st, feedId, c, inside, end, OnStop(end, c.name));
  }

  /**
   Inside every offer, after any number `k` of events: there is a current node, and it lies at least one deeper
   than there are open tags other than dropped images; exactly one deeper if the first image has none inside.
   */
  lemma {:induction false} DepthInsideOffer(feedId: string, offer: Content, k: nat)
    requires offer.Elem? && !HasOffer(offer.body) && k <= |Events(offer.body)|
    ensures var st, events := Opened(feedId, offer, []), Events(offer.body)[..k];
      && Run(st, feedId, events).Some?
      && var depth, tags := |Run(st, feedId, events).value.open|, Kept(OpenTags(st, feedId, [], events));
         depth >= 1 + tags && (FirstImageFlat(offer.body) ==> depth == 1 + tags)
  {
    var st, flat := Opened(feedId, offer, []), FirstImageFlat(offer.body);
    ContentIsInOrder(st, feedId, [], offer.body, flat);
    InOrderPrefix(st, feedId, [], Events(offer.body), k, flat);
    PathFollowsTags(st, feedId, [], Events(offer.body)[..k], flat);
  }
}
