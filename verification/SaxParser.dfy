/**
 feed/parser.cpp on the heap: the event handlers update the node pointers and grow the tree in place. They are
 proved to do to the heap what Feed.Step does to a state.
 */
module SaxParser {
  import opened Bson
  import opened Feed
  import opened FeedExact
  import opened FeedDocument
  import opened OfferNodes
  import opened OfferDocument
  import opened OfferParsers

  /** What some nodes are called and hold. */
  ghost function TextsOf(nodes: seq<OfferNode>): seq<(string, string)>
    reads nodes
  {
    seq(|nodes|, i requires 0 <= i < |nodes| reads nodes => (nodes[i].name, nodes[i].data))
  }

  class Parser {
    var offerRoot: OfferNode?
    var current: OfferNode?
    var hasImage: bool
    const feedId: string
    /** The callback is bound to this object's parse. */
    const sink: OfferParser

    /** The nodes from the root to the current one, and those that are complete. */
    ghost var path: seq<OfferNode>
    ghost var done: set<OfferNode>

    ghost function Nodes(): set<OfferNode>
      reads this`path, this`done
    {
      done + set n | n in path
    }

    /**
     The node at depth `i` of the path holds the frame: finished children, and below them the next node of the path.
     */
    ghost predicate Holds(i: int, f: Frame)
      requires 0 <= i < |path|
      reads this`path, this`done, path, done
    {
      var n, k := path[i], |f.kids|;
      && n.name == f.name && n.data == f.data && n !in done
      && n.parent == (if i == 0 then null else path[i - 1])
      && |n.children| == k + (if i + 1 < |path| then 1 else 0)
      && ChildrenOf(n, n.children[..k], f.kids, done)
      && (i + 1 < |path| ==> n.children[k] == path[i + 1])
    }

    /** The strong links from the root and the weak links back to it form the tree that `open` stands for. */
    ghost predicate Spine(open: seq<Frame>)
      reads this`path, this`done, path, done
    {
      && |path| == |open|
      && (forall i, j | 0 <= i < j < |path| :: path[i] != path[j])
      && (forall i {:trigger Holds(i, open[i])} | 0 <= i < |path| :: Holds(i, open[i]))
      && AllDone(done)
    }

    ghost predicate Represents(st: State)
      reads this, path, done
    {
      && Spine(st.open) && hasImage == st.hasImage
      && (if st.open != [] then
            current == path[|path| - 1] && offerRoot == path[0]
          else
            && current == null
            && match st.root
               case None => offerRoot == null
               case Some(t) =>
                 offerRoot != null && offerRoot in done && offerRoot.tree == t && offerRoot.parent == null)
    }

    constructor (feedId: string, sink: OfferParser)
      ensures this.feedId == feedId && this.sink == sink
      ensures Represents(IDLE) && Nodes() == {}
    {
      this.feedId, this.sink := feedId, sink;
      offerRoot, current, hasImage := null, null, false;
      path, done := [], {};
    }

    /** add_offer_child. */
    method AddOfferChild(name: string, data: string, ghost f: Frame)
      requires Spine([f]) && offerRoot == path[0]
      modifies this`done, offerRoot`children
      ensures Spine([f.(kids := f.kids + [Leaf(name, data)])])
      ensures fresh(done - old(done)) && old(done) <= done
    {
      hide AllDone, ChildrenOf;
      assert Holds(0, [f][0]);
      ghost var cs, before := offerRoot.children, done;
      assert cs[..|f.kids|] == cs;
      var child := new OfferNode(name, data);
      offerRoot.AddChild(child);
      assert AllDone(before) && ChildrenOf(offerRoot, cs, f.kids, before);
      NoChildren(child, before);
      OneMoreDone(child, before);
      done := before + {child};
      MoreDone(offerRoot, cs, f.kids, before, done);
      OneMoreChild(offerRoot, cs, f.kids, done, child);
      ghost var g := f.(kids := f.kids + [Leaf(name, data)]);
      assert offerRoot.children[..|g.kids|] == offerRoot.children;
      assert Holds(0, [g][0]);
    }

    static lemma {:induction false} NoChildren(n: OfferNode, done: set<OfferNode>)
      ensures ChildrenOf(n, [], [], done)
    {
    }

    /** The start tag of an offer: a new root takes the place of whatever there was. */
    method StartOffer(attrs: seq<Attr>, now: string)
      modifies this`offerRoot, this`current, this`path, this`done
      ensures Spine([OfferRoot(feedId, attrs, now)])
      ensures current == offerRoot == path[0]
      ensures fresh(Nodes())
    {
      hide AllDone, ChildrenOf, Holds, Spine, InternalId;
      offerRoot := new OfferNode("offer", "");
      path, done := [offerRoot], {};
      RootAlone();
      AddIdentification(attrs);
      ghost var f := Tree("offer", "", InternalId(attrs));
      AddOfferChild("feed_id", feedId, f);
      f := f.(kids := f.kids + [Leaf("feed_id", feedId)]);
      AddOfferChild("last_modified", now, f);
      f := f.(kids := f.kids + [Leaf("last_modified", now)]);
      assert f.kids == InternalId(attrs) + [Leaf("feed_id", feedId), Leaf("last_modified", now)];
      current := offerRoot;
    }

    /** The internal-id attribute becomes the first child, if there is one. */
    method AddIdentification(attrs: seq<Attr>)
      requires Spine([Leaf("offer", "")]) && offerRoot == path[0]
      modifies this`done, offerRoot`children
      ensures Spine([Tree("offer", "", InternalId(attrs))])
      ensures fresh(done - old(done)) && old(done) <= done
    {
      hide AllDone, ChildrenOf, Holds, Spine, InternalId;
      var i := FindInternalId(attrs);
      if i != |attrs| {
        AddOfferChild(attrs[i].name, attrs[i].value, Leaf("offer", ""));
        assert [] + [Leaf("internal-id", attrs[i].value)] == InternalId(attrs);
      }
    }

    /** The children that an offer has from the start, as names and texts. */
    ghost function FirstTexts(attrs: seq<Attr>, now: string): seq<(string, string)> {
      var k := FirstId(attrs);
      (if k < |attrs| then [("internal-id", attrs[k].value)] else [])
      + [("feed_id", feedId), ("last_modified", now)]
    }

    lemma {:induction false} StartTexts(attrs: seq<Attr>, now: string)
      requires Spine([OfferRoot(feedId, attrs, now)])
      ensures TextsOf(path[0].children) == FirstTexts(attrs, now)
    {
      var f := OfferRoot(feedId, attrs, now);
      assert Holds(0, [f][0]);
      var cs := path[0].children;
      assert cs[..|f.kids|] == cs;
      InternalIdIsFirst(attrs);
    }

    lemma {:induction false} RootAlone()
      requires |path| == 1 && done == {}
      requires path[0].parent == null && path[0].children == [] && path[0].name == "offer" && path[0].data == ""
      ensures Spine([Leaf("offer", "")])
    {
      assert Holds(0, [Leaf("offer", "")][0]);
    }

    /** The search for the internal-id attribute. */
    static method FindInternalId(attrs: seq<Attr>) returns (i: nat)
      ensures i <= |attrs|
      ensures i == FirstId(attrs)
      ensures InternalId(attrs) == if i == |attrs| then [] else [Leaf("internal-id", attrs[i].value)]
      ensures i < |attrs| ==> attrs[i].name == "internal-id"
    {
      i := 0;
      assert attrs[0..] == attrs;
      while i < |attrs| && attrs[i].name != "internal-id"
        invariant i <= |attrs| && InternalId(attrs) == InternalId(attrs[i..])
        invariant forall j | 0 <= j < i :: attrs[j].name != "internal-id"
      {
        assert attrs[i..][1..] == attrs[i + 1..];
        i := i + 1;
      }
    }

    /** A new node under the current one becomes current. */
    method Descend(name: string, ghost open: seq<Frame>)
      requires Spine(open) && open != [] && current == path[|path| - 1]
      modifies this`current, this`path, current`children
      ensures Spine(open + [Leaf(name, "")]) && current == path[|path| - 1]
      ensures path[0] == old(path[0]) && done == old(done) && fresh(Nodes() - old(Nodes()))
    {
      hide AllDone, ChildrenOf;
      ghost var was, top, f := path, path[|path| - 1], open[|open| - 1];
      assert Holds(|was| - 1, open[|was| - 1]);
      assert forall i | 0 <= i < |was| :: Holds(i, open[i]);
      ghost var cs := top.children;
      assert cs[..|f.kids|] == cs;
      var node := new OfferNode(name, "");
      current.AddChild(node);
      current := node;
      path := was + [node];
      ghost var open' := open + [Leaf(name, "")];
      NoChildren(node, done);
      forall i | 0 <= i < |path|
        ensures Holds(i, open'[i])
      {
        if i < |was| - 1 {
          assert path[i] == was[i] && path[i + 1] == was[i + 1] && path[i] != top;
          assert old(Holds(i, open[i]));
        } else if i == |was| - 1 {
          assert path[i] == top && top.children[..|f.kids|] == cs;
        }
      }
    }

    /** The last node of the path is complete; the path now ends at the node above. Only ghost state changes. */
    ghost method CompleteTop(open: seq<Frame>)
      requires Spine(open) && |open| > 1
      modifies this`path, this`done, {path[|path| - 1]}`tree
      ensures Spine(Popped(open)) && path == old(path)[..|open| - 1]
      ensures Nodes() == old(Nodes())
    {
      hide AllDone, ChildrenOf;
      var n, was := |open|, path;
      var node, up, f, g := was[n - 1], was[n - 2], open[n - 1], open[n - 2];
      assert Holds(n - 1, open[n - 1]) && Holds(n - 2, open[n - 2]);
      assert forall i | 0 <= i < n :: Holds(i, open[i]);
      assert node.children[..|f.kids|] == node.children;
      node.tree := f;
      var before := done;
      assert AllDone(before) && ChildrenOf(node, node.children, f.kids, before);
      OneMoreDone(node, before);
      done := before + {node};
      path := was[..n - 1];
      var open' := Popped(open);
      forall i | 0 <= i < n - 1
        ensures Holds(i, open'[i])
      {
        assert old(Holds(i, open[i])) && path[i] == was[i] && was[i] != node;
        if i < n - 2 {
          assert path[i + 1] == was[i + 1];
          MoreDone(path[i], path[i].children[..|open[i].kids|], open[i].kids, before, done);
        } else {
          var cs := up.children[..|g.kids|];
          assert up.children == cs + [node];
          ChildrenAreDone(up, cs, g.kids, before);
          MoreDone(up, cs, g.kids, before, done);
          OneMoreChild(up, cs, g.kids, done, node);
          assert up.children[..|open'[i].kids|] == cs + [node];
        }
      }
      assert (set x | x in was) == (set x | x in path) + {node};
    }

    static lemma {:induction false} ChildrenAreDone(n: OfferNode, cs: seq<OfferNode>, kids: seq<Tree>,
                                                    done: set<OfferNode>)
      requires ChildrenOf(n, cs, kids, done)
      ensures forall c | c in cs :: c in done
    {
    }

    /** The root is all that is left of the path, and is complete too. */
    ghost method CompleteRoot(open: seq<Frame>)
      requires Spine(open) && |open| == 1
      modifies this`path, this`done, {path[0]}`tree
      ensures Spine([]) && old(path[0]) in done && old(path[0]).tree == open[0] && old(path[0]).parent == null
      ensures Nodes() == old(Nodes())
    {
      hide AllDone, ChildrenOf;
      var node, f, before := path[0], open[0], done;
      assert Holds(0, open[0]);
      assert node.children[..|f.kids|] == node.children;
      node.tree := f;
      assert AllDone(before) && ChildrenOf(node, node.children, f.kids, before);
      OneMoreDone(node, before);
      assert (set x | x in path) == {node};
      done, path := before + {node}, [];
    }

    /** The whole path is complete. */
    ghost method CompleteAll(open: seq<Frame>)
      requires Spine(open) && open != []
      modifies this`path, this`done, Nodes()`tree
      ensures Spine([]) && old(path[0]) in done && old(path[0]).tree == Collapse(open) && old(path[0]).parent == null
      ensures Nodes() == old(Nodes())
      decreases |open|
    {
      if |open| == 1 {
        CompleteRoot(open);
      } else {
        CompleteTop(open);
        CompleteAll(Popped(open));
      }
    }

    /** The current node is complete and its parent becomes current. */
    method Ascend(ghost st: State)
      requires Represents(st) && st.open != []
      modifies this`current, this`path, this`done, Nodes()`tree
      ensures Represents(Pop(st)) && Nodes() == old(Nodes())
    {
      ghost var n := |path|;
      assert Holds(n - 1, st.open[n - 1]);
      current := current.parent;
      if n == 1 {
        CompleteRoot(st.open);
      } else {
        CompleteTop(st.open);
      }
    }

    method OnStartElement(name: string, attrs: seq<Attr>, now: string, ghost st: State)
      requires Represents(st)
      modifies this, Nodes()`children
      ensures Represents(OnStart(st, feedId, name, attrs, now)) && fresh(Nodes() - old(Nodes()))
      ensures name == "offer" ==>
        offerRoot != null && current == offerRoot && TextsOf(offerRoot.children) == FirstTexts(attrs, now)
    {
      if name == "offer" {
        StartOffer(attrs, now);
        StartTexts(attrs, now);
      } else if current != null {
        if name == "image" && hasImage { return; }
        Descend(name, st.open);
      }
    }

    /** The end tag of an offer: the callback gets the root, and no node is current any more. */
    method FinishOffer(ghost st: State)
      requires Represents(st) && WholeTree(st).Some?
      modifies this, Nodes()`tree, sink
      ensures Represents(OnStop(st, "offer")) && Nodes() == old(Nodes())
      ensures sink.collection == old(sink.collection) + Stored(WholeTree(st).value, sink.opts, sink.works)
    {
      hide AllDone, ChildrenOf, Collapse, Stored, Holds;
      if st.open != [] {
        CompleteAll(st.open);
      }
      sink.Parse(offerRoot, done);
      current := null;
      hasImage := false;
    }

    method OnEndElement(name: string, ghost st: State)
      requires Represents(st) && CanStop(st, name)
      modifies this, Nodes()`tree, sink
      ensures Represents(OnStop(st, name)) && Nodes() == old(Nodes())
      ensures sink.collection == old(sink.collection) +
                if name == "offer" then Stored(WholeTree(st).value, sink.opts, sink.works) else []
    {
      if name == "offer" {
        FinishOffer(st);
      } else if current != null {
        if name == "image" {
          if hasImage { return; }
          hasImage := true;
          Ascend(st.(hasImage := true));
        } else {
          Ascend(st);
        }
      }
    }

    method OnText(text: string, ghost st: State)
      requires Represents(st)
      modifies Nodes()`data
      ensures Represents(OnCharacters(st, text))
    {
      assert st.open != [] ==> Holds(|path| - 1, st.open[|path| - 1]);
      if current != null && current.name != "offer" {
        hide AllDone, ChildrenOf;
        ghost var n, open := |path|, st.open;
        assert forall i | 0 <= i < n :: Holds(i, open[i]);
        assert Holds(n - 1, open[n - 1]);
        current.data := text;
        ghost var open' := OnCharacters(st, text).open;
        forall i | 0 <= i < n
          ensures Holds(i, open'[i])
        {
          assert old(Holds(i, open[i]));
        }
      }
    }

    /** What the SAX parser does: one handler call for each event. */
    method Handle(e: Event, ghost st: State)
      requires Represents(st) && Feed.Step(st, feedId, e).Some?
      modifies this, Nodes(), sink
      ensures Represents(Feed.Step(st, feedId, e).value) && fresh(Nodes() - old(Nodes()))
      ensures var next := Feed.Step(st, feedId, e).value;
        sink.collection == old(sink.collection) + StoredAll(next.delivered[|st.delivered|..], sink.opts, sink.works)
    {
      hide Represents, Stored, Collapse;
      match e {
        case Start(name, attrs, now) => OnStartElement(name, attrs, now, st);
        case Stop(name) => OnEndElement(name, st);
        case Characters(text) => OnText(text, st);
      }
      ghost var next := Feed.Step(st, feedId, e).value;
      OneDelivery(st, e, next);
    }

    lemma {:induction false} OneDelivery(st: State, e: Event, next: State)
      requires Feed.Step(st, feedId, e) == Some(next)
      ensures next.delivered[|st.delivered|..] == if e == Stop("offer") then [WholeTree(st).value] else []
      ensures forall t: Tree :: StoredAll([t], sink.opts, sink.works) == Stored(t, sink.opts, sink.works)
      ensures StoredAll([], sink.opts, sink.works) == []
    {
      forall t: Tree
        ensures StoredAll([t], sink.opts, sink.works) == Stored(t, sink.opts, sink.works)
      {
        assert [t][1..] == [];
        assert Stored(t, sink.opts, sink.works) + [] == Stored(t, sink.opts, sink.works);
      }
    }

    /**
     All events of a feed: the heap follows the states, and the collection gets what the callbacks store, in order.
     */
    method HandleAll(events: seq<Event>, ghost st: State)
      requires Represents(st) && Run(st, feedId, events).Some?
      modifies this, Nodes(), sink
      ensures Represents(Run(st, feedId, events).value) && fresh(Nodes() - old(Nodes()))
      ensures var end := Run(st, feedId, events).value;
        && |end.delivered| >= |st.delivered|
        && sink.collection == old(sink.collection) + StoredAll(end.delivered[|st.delivered|..], sink.opts, sink.works)
      decreases |events|
    {
      hide Represents, Stored;
      if events == [] {
        assert st.delivered[|st.delivered|..] == [];
      } else {
        hide StoredAll;
        ghost var next := Feed.Step(st, feedId, events[0]).value;
        ghost var first := sink.collection;
        Handle(events[0], st);
        ghost var second := sink.collection;
        HandleAll(events[1..], next);
        RunExtends(next, feedId, events[1..]);
        ghost var end := Run(st, feedId, events).value;
        RunExtends(st, feedId, [events[0]]);
        StoredInTurn(first, second, sink.collection, st.delivered, next.delivered, end.delivered);
      }
    }

    lemma {:induction false} StoredInTurn(first: seq<seq<Field>>, second: seq<seq<Field>>, third: seq<seq<Field>>,
                                          a: seq<Tree>, b: seq<Tree>, c: seq<Tree>)
      requires a <= b <= c
      requires second == first + StoredAll(b[|a|..], sink.opts, sink.works)
      requires third == second + StoredAll(c[|b|..], sink.opts, sink.works)
      ensures third == first + StoredAll(c[|a|..], sink.opts, sink.works)
    {
      hide StoredAll;
      var x, y := b[|a|..], c[|b|..];
      assert c[|a|..] == x + y;
      StoredConcat(x, y, sink.opts, sink.works);
    }

    /**
     A whole feed. The collection receives, in document order, the documents of what the callback gets; each offer
     handed over amounts to what it should if and only if no offer is nested and each is right for the options; and
     in that case the collection receives exactly the documents of the wanted offers.
     */
    method ParseFeed(c: Content)
      requires Represents(IDLE)
      modifies this, Nodes(), sink
      ensures After(IDLE, feedId, c).Some? && Represents(After(IDLE, feedId, c).value)
      ensures var delivered := After(IDLE, feedId, c).value.delivered;
        && sink.collection == old(sink.collection) + StoredAll(delivered, sink.opts, sink.works)
        && (NoNestedOffer(c) && AllRight(c, sink.opts) <==>
            DocumentsOf(delivered, sink.opts) == DocumentsOf(FeedWanted(feedId, c), sink.opts))
      ensures NoNestedOffer(c) && AllRight(c, sink.opts) ==>
        sink.collection == old(sink.collection) + StoredAll(FeedWanted(feedId, c), sink.opts, sink.works)
    {
      hide Represents, StoredAll;
      DocumentsExactly(feedId, c, sink.opts);
      HandleAll(Events(c), IDLE);
      ghost var delivered := After(IDLE, feedId, c).value.delivered;
      assert delivered[0..] == delivered;
      if NoNestedOffer(c) && AllRight(c, sink.opts) {
        SameDocumentsSameStored(delivered, FeedWanted(feedId, c), sink.opts, sink.works);
      }
    }
  }
}
