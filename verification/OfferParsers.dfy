/** feed/offer_parser.cpp on the heap: the walk over offer_nodes, and the parser object that stores the documents. */
module OfferParsers {
  import opened Bson
  import opened Feed
  import opened OfferNodes
  import opened OfferDocument
  import opened StreamContext

  /** uint64_t, the type of the counter. */
  newtype uint64 = x: int | 0 <= x < 0x1_0000_0000_0000_0000

  ghost function ParentName(n: OfferNode): Option<string>
    reads n, if n.parent == null then {} else {n.parent}
  {
    if n.parent == null then None else Some(n.parent.name)
  }

  /** doc_stream << name << v */
  method AddValue(core: Core, name: string, v: Value)
    modifies core
    ensures core.log == old(core.log) + [Key(name), Append(v)]
  {
    var ctx := Shift(core, DOCUMENT, Text(name));
    match v {
      case Utf8(s) => ctx := Shift(core, ctx, Text(s));
      case _ => ctx := Shift(core, ctx, Plain(v));
    }
  }

  /**
   try_add: the two operands of the second `<<` are not ordered, so either the conversion comes first, and nothing is
   added if it fails, or appending the key does, and the key is left behind.
   */
  method TryAddInt(core: Core, name: string, data: string, casts: Casts, keyFirst: bool) returns (done: bool)
    modifies core
    ensures done == casts.asInt(data).Some?
    ensures core.log == old(core.log) + if done then [Key(name), Append(Int32(casts.asInt(data).value))]
                                        else if keyFirst then [Key(name)] else []
  {
    var ctx;
    if keyFirst {
      ctx := Shift(core, DOCUMENT, Text(name));
    }
    match casts.asInt(data) {
      case Some(i) =>
        if !keyFirst {
          ctx := Shift(core, DOCUMENT, Text(name));
        }
        ctx := Shift(core, ctx, Plain(Int32(i)));
        done := true;
      case None =>
        done := false;
    }
  }

  method TryAddDouble(core: Core, name: string, data: string, casts: Casts, keyFirst: bool) returns (done: bool)
    modifies core
    ensures done == casts.asDouble(data).Some?
    ensures core.log == old(core.log) + if done then [Key(name), Append(Double(casts.asDouble(data).value))]
                                        else if keyFirst then [Key(name)] else []
  {
    var ctx;
    if keyFirst {
      ctx := Shift(core, DOCUMENT, Text(name));
    }
    match casts.asDouble(data) {
      case Some(d) =>
        if !keyFirst {
          ctx := Shift(core, DOCUMENT, Text(name));
        }
        ctx := Shift(core, ctx, Plain(Double(d)));
        done := true;
      case None =>
        done := false;
    }
  }

  /** A leaf. */
  method AddLeaf(core: Core, name: string, data: string, casts: Casts, keyFirst: bool)
    modifies core
    ensures core.log == old(core.log) + LeafCalls(name, data, casts, keyFirst)
  {
    var done := TryAddInt(core, name, data, casts, keyFirst);
    if done { return; }
    done := TryAddDouble(core, name, data, casts, keyFirst);
    if done { return; }
    if data == "true" {
      AddValue(core, name, Bool(true));
    } else if data == "false" {
      AddValue(core, name, Bool(false));
    } else {
      AddValue(core, name, Utf8(data));
    }
  }

  /** The walk over the children from the `i`-th on continues what the first ones made of it. */
  ghost predicate SoFar(ts: seq<Tree>, i: nat, parent: Option<string>, opts: Options, log: seq<CoreOp>) {
    i <= |ts| &&
    WalkAll(ts, parent, opts) ==
      match WalkAll(ts[i..], parent, opts)
      case Ok(more) => Ok(log + more)
      case Rejected(what) => Rejected(what)
  }

  lemma {:induction false} NothingYet(ts: seq<Tree>, parent: Option<string>, opts: Options)
    ensures SoFar(ts, 0, parent, opts, [])
  {
    assert ts[0..] == ts;
    match WalkAll(ts, parent, opts)
    case Rejected(_) =>
    case Ok(more) => assert [] + more == more;
  }

  lemma {:induction false} OneMore(ts: seq<Tree>, i: nat, parent: Option<string>, opts: Options, log: seq<CoreOp>)
    requires SoFar(ts, i, parent, opts, log) && i < |ts|
    ensures match Walk(ts[i], parent, opts)
            case Ok(next) => SoFar(ts, i + 1, parent, opts, log + next)
            case Rejected(what) => WalkAll(ts, parent, opts) == Rejected(what)
  {
    assert ts[i..][0] == ts[i] && ts[i..][1..] == ts[i + 1..];
    match Walk(ts[i], parent, opts)
    case Rejected(_) =>
    case Ok(next) =>
      match WalkAll(ts[i + 1..], parent, opts)
      case Rejected(_) =>
      case Ok(more) => assert log + (next + more) == log + next + more;
  }

  /**
   parse_offer, for the order of operands with which a leaf can work at all: the conversion first. The contexts that
   the stream returns are dropped, every `<<` starts from the root stream again.
   A throw leaves the stream with whatever has been added so far.
   */
  method ParseOffer(node: OfferNode, core: Core, opts: Options, ghost done: set<OfferNode>)
    returns (thrown: Option<string>)
    requires AllDone(done) && node in done
    modifies core
    ensures match Walk(node.tree, ParentName(node), opts)
            case Ok(log) => thrown == None && core.log == old(core.log) + log
            case Rejected(what) => thrown == Some(what)
    decreases node.tree
  {
    var name := Renamed(node.name);
    if opts.onlySales && node.name == "type" && node.data != SALE {
      return Some("invalid type: " + node.data);
    }
    if opts.onlyFlats && node.name == "category" && node.data != FLAT &&
       node.parent != null && node.parent.name == "offer" {
      return Some("invalid category: " + node.data);
    }
    if node.children != [] {
      thrown := ParseNested(node, core, opts, done);
      return;
    }
    AddLeaf(core, name, node.data, opts.casts, false);
    thrown := None;
  }

  /** A node with children: a subdocument around them, unless it is an offer. */
  method ParseNested(node: OfferNode, core: Core, opts: Options, ghost done: set<OfferNode>)
    returns (thrown: Option<string>)
    requires AllDone(done) && node in done
    modifies core
    ensures match WalkAll(node.tree.kids, Some(node.name), opts)
            case Ok(inner) =>
              && thrown == None
              && core.log == old(core.log) + if node.name == "offer" then inner
                                             else [Key(Renamed(node.name)), OpenDocument] + inner + [CloseDocument]
            case Rejected(what) => thrown == Some(what)
    decreases node.tree, 1
  {
    ghost var before := core.log;
    if node.name != "offer" {
      var ctx := Shift(core, DOCUMENT, Text(Renamed(node.name)));
      ctx := Shift(core, ctx, OpenDoc);
      assert core.log == before + [Key(Renamed(node.name)), OpenDocument];
    }
    thrown := ParseChildren(node, core, opts, done);
    if thrown.Some? {
      return;
    }
    if node.name != "offer" {
      var ctx := Shift(core, DOCUMENT, CloseDoc);
    }
  }

  /** The loop over the children. */
  method ParseChildren(node: OfferNode, core: Core, opts: Options, ghost done: set<OfferNode>)
    returns (thrown: Option<string>)
    requires AllDone(done) && node in done
    modifies core
    ensures match WalkAll(node.tree.kids, Some(node.name), opts)
            case Ok(log) => thrown == None && core.log == old(core.log) + log
            case Rejected(what) => thrown == Some(what)
    decreases node.tree, 0
  {
    ghost var kids, log := node.tree.kids, [];
    NothingYet(kids, Some(node.name), opts);
    thrown := None;
    var i := 0;
    while i < |node.children|
      invariant 0 <= i <= |kids| && thrown == None
      invariant core.log == old(core.log) + log && SoFar(kids, i, Some(node.name), opts, log)
    {
      var child := node.children[i];
      OneMore(kids, i, Some(node.name), opts, log);
      assert kids[i] < node.tree;
      thrown := ParseOffer(child, core, opts, done);
      if thrown.Some? {
        return;
      }
      log := log + Walk(kids[i], Some(node.name), opts).value;
      i := i + 1;
    }
    assert kids[i..] == [];
  }

  /** bson_from_offer. */
  method FromOffer(offer: OfferNode, opts: Options, ghost done: set<OfferNode>) returns (r: Result<Option<seq<Field>>>)
    requires AllDone(done) && offer in done && offer.parent == null
    ensures r == BsonFromOffer(offer.tree, opts)
  {
    var core := new Core();
    var thrown := ParseOffer(offer, core, opts, done);
    ghost var walk := Walk(offer.tree, None, opts);
    assert walk.Ok? ==> [] + walk.value == walk.value;
    match thrown {
      case Some(what) => r := Rejected(what);
      case None => r := Ok(Extract(core.log));
    }
  }

  /** The documents that one offer adds to the collection: one if it is acceptable and the insert works, else none. */
  ghost function Stored(t: Tree, opts: Options, works: seq<Field> -> bool): seq<seq<Field>> {
    match DocumentOf(t, opts)
    case Some(doc) => if works(doc) then [doc] else []
    case None => []
  }

  ghost function StoredAll(ts: seq<Tree>, opts: Options, works: seq<Field> -> bool): seq<seq<Field>> {
    if ts == [] then [] else Stored(ts[0], opts, works) + StoredAll(ts[1..], opts, works)
  }

  lemma {:induction false} StoredConcat(a: seq<Tree>, b: seq<Tree>, opts: Options, works: seq<Field> -> bool)
    ensures StoredAll(a + b, opts, works) == StoredAll(a, opts, works) + StoredAll(b, opts, works)
  {
    if a == [] {
      assert a + b == b;
    } else {
      StoredConcat(a[1..], b, opts, works);
      assert (a + b)[1..] == a[1..] + b;
      hide StoredAll, Stored;
      var x, y, z := Stored(a[0], opts, works), StoredAll(a[1..], opts, works), StoredAll(b, opts, works);
      assert x + (y + z) == (x + y) + z;
    }
  }

  /** Offers that amount to the same leave the same documents. */
  lemma {:induction false} SameDocumentsSameStored(a: seq<Tree>, b: seq<Tree>, opts: Options, works: seq<Field> -> bool)
    requires DocumentsOf(a, opts) == DocumentsOf(b, opts)
    ensures StoredAll(a, opts, works) == StoredAll(b, opts, works)
  {
    assert |DocumentsOf(a, opts)| == |a| && |DocumentsOf(b, opts)| == |b|;
    if a == [] {
      assert b == [];
    } else {
      assert DocumentsOf(a, opts)[0] == DocumentOf(a[0], opts) && DocumentsOf(b, opts)[0] == DocumentOf(b[0], opts);
      assert DocumentsOf(a[1..], opts) == DocumentsOf(a, opts)[1..];
      assert DocumentsOf(b[1..], opts) == DocumentsOf(b, opts)[1..];
      SameDocumentsSameStored(a[1..], b[1..], opts, works);
    }
  }

  class OfferParser {
    var count: uint64
    var collection: seq<seq<Field>>
    const opts: Options
    /** Whether insert_one of a document succeeds. */
    const works: seq<Field> -> bool

    constructor (opts: Options, works: seq<Field> -> bool)
      ensures count == 0 && collection == [] && this.opts == opts && this.works == works
    {
      this.count, this.collection, this.opts, this.works := 0, [], opts, works;
    }

    /** One call of `parse`; an exception on the way, from the filter or from the insert, leaves both fields alone. */
    method Parse(offer: OfferNode, ghost done: set<OfferNode>)
      requires AllDone(done) && offer in done && offer.parent == null
      modifies this
      ensures if Acceptable(offer.tree, None, opts) && works(FieldsOf(offer.tree, opts.casts))
              then collection == old(collection) + [FieldsOf(offer.tree, opts.casts)]
                   && count as int == (old(count) as int + 1) % 0x1_0000_0000_0000_0000
              else collection == old(collection) && count == old(count)
      ensures collection == old(collection) + Stored(offer.tree, opts, works)
    {
      BsonFromOfferExactly(offer.tree, opts);
      var r := FromOffer(offer, opts, done);
      match r {
        case Rejected(_) =>
        case Ok(None) =>
        case Ok(Some(doc)) =>
          if works(doc) {
            collection := collection + [doc];
            count := if count == 0xFFFF_FFFF_FFFF_FFFF then 0 else count + 1;
          }
      }
    }
  }
}
