/** parse_offer and bson_from_offer on trees: the filter, the calls on the stream, and the document they build. */
module OfferDocument {
  import opened Bson
  import opened Feed

  datatype Result<+T> = Ok(value: T) | Rejected(what: string)

  const SALE := "продажа"
  const FLAT := "квартира"

  /** boost::lexical_cast to int and to double, as far as it succeeds; a double is its bit pattern. */
  datatype Casts = Casts(asInt: string -> Option<int>, asDouble: string -> Option<int>)

  /** What the walk needs to know: the conversions and which filters are on. */
  datatype Options = Options(casts: Casts, onlySales: bool, onlyFlats: bool)

  function Renamed(name: string): string {
    if name == "" then "" else [if name[0] == '-' then '_' else name[0]] + Renamed(name[1..])
  }

  /** The value for a leaf's text: int, else double, else bool, else the text. */
  function ScalarOf(data: string, casts: Casts): Value {
    match casts.asInt(data)
    case Some(i) => Int32(i)
    case None =>
      match casts.asDouble(data)
      case Some(d) => Double(d)
      case None => if data == "true" then Bool(true) else if data == "false" then Bool(false) else Utf8(data)
  }

  /**
   The calls for a leaf. Which comes first in try_add, appending the key or the conversion, is left to the
   compiler; with `keyFirst` a failed conversion has already appended its key.
   */
  function LeafCalls(name: string, data: string, casts: Casts, keyFirst: bool): seq<CoreOp> {
    (if keyFirst && casts.asInt(data).None? then [Key(name)] else [])
    + (if keyFirst && casts.asInt(data).None? && casts.asDouble(data).None? then [Key(name)] else [])
    + [Key(name), Append(ScalarOf(data, casts))]
  }

  predicate WrongType(name: string, data: string, opts: Options) {
    opts.onlySales && name == "type" && data != SALE
  }

  /** `parent` is the name of the parent node, if there is one. */
  predicate WrongCategory(name: string, data: string, parent: Option<string>, opts: Options) {
    opts.onlyFlats && name == "category" && data != FLAT && parent == Some("offer")
  }

  /** The calls that parse_offer makes on the stream, or the message of what it throws. */
  function Walk(t: Tree, parent: Option<string>, opts: Options): Result<seq<CoreOp>> {
    var name := Renamed(t.name);
    if WrongType(t.name, t.data, opts) then
      Rejected("invalid type: " + t.data)
    else if WrongCategory(t.name, t.data, parent, opts) then
      Rejected("invalid category: " + t.data)
    else if t.kids != [] then
      match WalkAll(t.kids, Some(t.name), opts)
      case Rejected(what) => Rejected(what)
      case Ok(inner) => Ok(if t.name == "offer" then inner else [Key(name), OpenDocument] + inner + [CloseDocument])
    else
      Ok([Key(name), Append(ScalarOf(t.data, opts.casts))])
  }

  function WalkAll(ts: seq<Tree>, parent: Option<string>, opts: Options): Result<seq<CoreOp>> {
    if ts == [] then
      Ok([])
    else
      match Walk(ts[0], parent, opts)
      case Rejected(what) => Rejected(what)
      case Ok(first) =>
        match WalkAll(ts[1..], parent, opts)
        case Rejected(what) => Rejected(what)
        case Ok(more) => Ok(first + more)
  }

  /** bson_from_offer: the stream is thrown away if the walk throws. */
  function BsonFromOffer(t: Tree, opts: Options): Result<Option<seq<Field>>> {
    match Walk(t, None, opts)
    case Rejected(what) => Rejected(what)
    case Ok(log) => Ok(Extract(log))
  }

  // ---------- the document that is meant ----------

  /** A node with children is a subdocument, except for an offer, whose fields are spread out; a leaf is a value. */
  function FieldsOf(t: Tree, casts: Casts): seq<Field> {
    if t.kids == [] then [Field(Renamed(t.name), Scalar(ScalarOf(t.data, casts)))]
    else if t.name == "offer" then FieldsOfAll(t.kids, casts)
    else [Field(Renamed(t.name), Document(FieldsOfAll(t.kids, casts)))]
  }

  function FieldsOfAll(ts: seq<Tree>, casts: Casts): seq<Field> {
    if ts == [] then [] else FieldsOf(ts[0], casts) + FieldsOfAll(ts[1..], casts)
  }

  /** The node that the child numbers in `path` lead to from `t`. */
  function NodeAt(t: Tree, path: seq<nat>): Option<Tree>
    decreases |path|
  {
    if path == [] then Some(t)
    else if path[0] < |t.kids| then NodeAt(t.kids[path[0]], path[1..])
    else None
  }

  /** The name of the parent of that node; at the end of an empty path it is `outer`. */
  function ParentAt(t: Tree, path: seq<nat>, outer: Option<string>): Option<string>
    decreases |path|
  {
    if path == [] then outer
    else if path[0] < |t.kids| then ParentAt(t.kids[path[0]], path[1..], Some(t.name))
    else None
  }

  /**
   The filters as they are meant: no node at any depth of the wrong type, none right under an offer of the wrong
   category.
   */
  ghost predicate Acceptable(t: Tree, outer: Option<string>, opts: Options) {
    forall path :: NodeAt(t, path).Some? ==>
      var n := NodeAt(t, path).value;
      !WrongType(n.name, n.data, opts) && !WrongCategory(n.name, n.data, ParentAt(t, path, outer), opts)
  }

  ghost predicate AllAcceptable(ts: seq<Tree>, outer: Option<string>, opts: Options) {
    forall i | 0 <= i < |ts| :: Acceptable(ts[i], outer, opts)
  }

  lemma {:induction false} AcceptableParts(t: Tree, outer: Option<string>, opts: Options)
    ensures Acceptable(t, outer, opts) <==>
            !WrongType(t.name, t.data, opts) && !WrongCategory(t.name, t.data, outer, opts)
            && AllAcceptable(t.kids, Some(t.name), opts)
  {
    if Acceptable(t, outer, opts) {
      assert NodeAt(t, []) == Some(t);
      forall i | 0 <= i < |t.kids|
        ensures Acceptable(t.kids[i], Some(t.name), opts)
      {
        forall path | NodeAt(t.kids[i], path).Some?
          ensures var n := NodeAt(t.kids[i], path).value;
            && !WrongType(n.name, n.data, opts)
            && !WrongCategory(n.name, n.data, ParentAt(t.kids[i], path, Some(t.name)), opts)
        {
          assert ([i] + path)[1..] == path;
          assert NodeAt(t, [i] + path) == NodeAt(t.kids[i], path);
        }
      }
    }
    if && !WrongType(t.name, t.data, opts) && !WrongCategory(t.name, t.data, outer, opts)
       && AllAcceptable(t.kids, Some(t.name), opts)
    {
      forall path | NodeAt(t, path).Some?
        ensures var n := NodeAt(t, path).value;
          !WrongType(n.name, n.data, opts) && !WrongCategory(n.name, n.data, ParentAt(t, path, outer), opts)
      {
        if path != [] {
          assert Acceptable(t.kids[path[0]], Some(t.name), opts);
        }
      }
    }
  }

  /** The walk goes through if and only if no node at any depth is filtered out. */
  lemma {:induction false} WalkIffAcceptable(t: Tree, outer: Option<string>, opts: Options)
    ensures Walk(t, outer, opts).Ok? <==> Acceptable(t, outer, opts)
    decreases t, 1
  {
    AcceptableParts(t, outer, opts);
    WalkAllIffAcceptable(t.kids, Some(t.name), opts);
  }

  lemma {:induction false} AllAcceptableParts(ts: seq<Tree>, outer: Option<string>, opts: Options)
    requires ts != []
    ensures AllAcceptable(ts, outer, opts) <==> Acceptable(ts[0], outer, opts) && AllAcceptable(ts[1..], outer, opts)
  {
    assert forall i | 0 <= i < |ts[1..]| :: ts[1..][i] == ts[i + 1];
    if Acceptable(ts[0], outer, opts) && AllAcceptable(ts[1..], outer, opts) {
      forall i | 0 <= i < |ts|
        ensures Acceptable(ts[i], outer, opts)
      {
        if i > 0 { assert ts[i] == ts[1..][i - 1]; }
      }
    }
  }

  lemma {:induction false} WalkAllIffAcceptable(ts: seq<Tree>, outer: Option<string>, opts: Options)
    ensures WalkAll(ts, outer, opts).Ok? <==> AllAcceptable(ts, outer, opts)
    decreases ts, 0
  {
    if ts == [] {
      assert AllAcceptable(ts, outer, opts);
    } else {
      WalkIffAcceptable(ts[0], outer, opts);
      WalkAllIffAcceptable(ts[1..], outer, opts);
      AllAcceptableParts(ts, outer, opts);
    }
  }

  // ---------- the filters on an offer whose root alone is called offer ----------

  /** No node at any depth is called offer. */
  predicate NoOffers(ts: seq<Tree>) {
    ts == [] || (ts[0].name != "offer" && NoOffers(ts[0].kids) && NoOffers(ts[1..]))
  }

  /** Every `type` node at any depth says sale. */
  predicate SalesOnly(ts: seq<Tree>) {
    ts == [] || ((ts[0].name == "type" ==> ts[0].data == SALE) && SalesOnly(ts[0].kids) && SalesOnly(ts[1..]))
  }

  /** Every `category` node among these says flat. */
  predicate FlatsOnly(ts: seq<Tree>) {
    forall i | 0 <= i < |ts| && ts[i].name == "category" :: ts[i].data == FLAT
  }

  lemma {:induction false} FlatsOnlyParts(ts: seq<Tree>)
    requires ts != []
    ensures FlatsOnly(ts) <==> (ts[0].name == "category" ==> ts[0].data == FLAT) && FlatsOnly(ts[1..])
  {
    assert forall i | 0 <= i < |ts[1..]| :: ts[1..][i] == ts[i + 1];
    if (ts[0].name == "category" ==> ts[0].data == FLAT) && FlatsOnly(ts[1..]) {
      forall i | 0 <= i < |ts| && ts[i].name == "category"
        ensures ts[i].data == FLAT
      {
        if i > 0 { assert ts[i] == ts[1..][i - 1]; }
      }
    }
  }

  lemma {:induction false} FiltersBelow(ts: seq<Tree>, outer: Option<string>, opts: Options)
    requires NoOffers(ts)
    ensures AllAcceptable(ts, outer, opts) <==>
            (opts.onlySales ==> SalesOnly(ts)) && (opts.onlyFlats && outer == Some("offer") ==> FlatsOnly(ts))
  {
    if ts == [] {
      assert AllAcceptable(ts, outer, opts);
    } else {
      AcceptableParts(ts[0], outer, opts);
      AllAcceptableParts(ts, outer, opts);
      FlatsOnlyParts(ts);
      FiltersBelow(ts[0].kids, Some(ts[0].name), opts);
      FiltersBelow(ts[1..], outer, opts);
    }
  }

  /** The type filter looks at every depth, the category filter only directly below the root. */
  lemma {:induction false} OfferFilters(t: Tree, opts: Options)
    requires t.name == "offer" && NoOffers(t.kids)
    ensures Acceptable(t, None, opts) <==>
            (opts.onlySales ==> SalesOnly(t.kids)) && (opts.onlyFlats ==> FlatsOnly(t.kids))
  {
    AcceptableParts(t, None, opts);
    FiltersBelow(t.kids, Some("offer"), opts);
  }

  /** A document that is open on top of others, with nothing pending. */
  predicate AtKey(stack: Stack) {
    stack != [] && stack[|stack| - 1].Doc? && stack[|stack| - 1].pending.None?
  }

  function WithFields(stack: Stack, fields: seq<Field>): Stack
    requires AtKey(stack)
  {
    stack[..|stack| - 1] + [Doc(stack[|stack| - 1].fields + fields, None)]
  }

  lemma {:induction false} WithNoFields(stack: Stack)
    requires AtKey(stack)
    ensures WithFields(stack, []) == stack
  {
    assert stack[|stack| - 1].fields + [] == stack[|stack| - 1].fields;
  }

  lemma {:induction false} WithMoreFields(stack: Stack, a: seq<Field>, b: seq<Field>)
    requires AtKey(stack)
    ensures AtKey(WithFields(stack, a))
    ensures WithFields(WithFields(stack, a), b) == WithFields(stack, a + b)
  {
    var was := stack[|stack| - 1].fields;
    assert was + a + b == was + (a + b);
  }

  lemma {:induction false} ReplayTwo(stack: Stack, a: CoreOp, b: CoreOp)
    requires Bson.Step(stack, a).Some?
    ensures Replay(stack, [a, b]) == Bson.Step(Bson.Step(stack, a).value, b)
  {
    var mid := Bson.Step(stack, a).value;
    assert [a, b][1..] == [b] && [b][1..] == [];
    assert Replay(mid, [b]) == Bson.Step(mid, b);
  }

  lemma {:induction false} ReplayValue(stack: Stack, k: string, v: Value)
    requires AtKey(stack)
    ensures Replay(stack, [Key(k), Append(v)]) == Some(WithFields(stack, [Field(k, Scalar(v))]))
  {
    ReplayTwo(stack, Key(k), Append(v));
    var keyed := Bson.Step(stack, Key(k)).value;
    assert keyed[..|keyed| - 1] == stack[..|stack| - 1];
  }

  lemma {:induction false} TwoKeysAreMisuse(stack: Stack, k: string, more: seq<CoreOp>)
    requires AtKey(stack)
    ensures Replay(stack, [Key(k), Key(k)] + more) == None
  {
    ReplayTwo(stack, Key(k), Key(k));
    ReplayConcat(stack, [Key(k), Key(k)], more);
  }

  /**
   A leaf adds its field exactly when the conversion comes first or the text is an int; otherwise its key is appended
   more than once, and no calls that follow can make a document of that.
   */
  lemma {:induction false} LeafExact(stack: Stack, name: string, data: string, casts: Casts, keyFirst: bool,
                                     more: seq<CoreOp>)
    requires AtKey(stack)
    ensures var calls := LeafCalls(name, data, casts, keyFirst);
      if !keyFirst || casts.asInt(data).Some?
      then Replay(stack, calls) == Some(WithFields(stack, [Field(name, Scalar(ScalarOf(data, casts)))]))
      else Replay(stack, calls + more) == None
  {
    var value := [Append(ScalarOf(data, casts))];
    var calls := LeafCalls(name, data, casts, keyFirst);
    if !keyFirst || casts.asInt(data).Some? {
      assert calls == [Key(name), Append(ScalarOf(data, casts))];
      ReplayValue(stack, name, ScalarOf(data, casts));
    } else if casts.asDouble(data).Some? {
      assert calls + more == [Key(name), Key(name)] + (value + more);
      TwoKeysAreMisuse(stack, name, value + more);
    } else {
      assert calls + more == [Key(name), Key(name)] + ([Key(name)] + value + more);
      TwoKeysAreMisuse(stack, name, [Key(name)] + value + more);
    }
  }

  /** Closing a subdocument puts it into the document around it. */
  lemma {:induction false} ReplayClosing(stack: Stack, k: string, fields: seq<Field>)
    requires AtKey(stack)
    ensures Replay(Keyed(stack, k) + [Doc(fields, None)], [CloseDocument])
         == Some(WithFields(stack, [Field(k, Document(fields))]))
  {
    var filled := Keyed(stack, k) + [Doc(fields, None)];
    assert filled[..|filled| - 1] == Keyed(stack, k);
    assert Keyed(stack, k)[..|stack| - 1] == stack[..|stack| - 1];
    assert [CloseDocument][1..] == [];
  }

  function Keyed(stack: Stack, k: string): Stack
    requires AtKey(stack)
  {
    stack[..|stack| - 1] + [Doc(stack[|stack| - 1].fields, Some(k))]
  }

  lemma {:induction false} ReplayOpening(stack: Stack, k: string)
    requires AtKey(stack)
    ensures Replay(stack, [Key(k), OpenDocument]) == Some(Keyed(stack, k) + [Doc([], None)])
  {
    ReplayTwo(stack, Key(k), OpenDocument);
  }

  /** A subdocument whose inner calls add the fields `fields` to whatever document is open. */
  lemma {:induction false} ReplaySubdocument(stack: Stack, k: string, inner: seq<CoreOp>, fields: seq<Field>)
    requires AtKey(stack)
    requires forall st | AtKey(st) :: Replay(st, inner) == Some(WithFields(st, fields))
    ensures Replay(stack, [Key(k), OpenDocument] + inner + [CloseDocument])
         == Some(WithFields(stack, [Field(k, Document(fields))]))
  {
    hide Replay, Keyed;
    var sub := Keyed(stack, k) + [Doc([], None)];
    assert WithFields(sub, fields) == Keyed(stack, k) + [Doc(fields, None)] by {
      assert [] + fields == fields;
    }
    ReplayOpening(stack, k);
    ReplayClosing(stack, k, fields);
    ReplayConcat(stack, [Key(k), OpenDocument], inner);
    ReplayConcat(stack, [Key(k), OpenDocument] + inner, [CloseDocument]);
  }

  /**
   Although every call goes to the root stream, whose type does not keep track of nesting, the calls are
   balanced: wherever a key may come they add exactly the fields of the node, at any depth.
   */
  lemma {:induction false} WalkBuildsFields(t: Tree, outer: Option<string>, opts: Options, stack: Stack)
    requires Walk(t, outer, opts).Ok? && AtKey(stack)
    ensures Replay(stack, Walk(t, outer, opts).value) == Some(WithFields(stack, FieldsOf(t, opts.casts)))
    decreases t, 1
  {
    if t.kids == [] {
      ReplayValue(stack, Renamed(t.name), ScalarOf(t.data, opts.casts));
    } else {
      var inner, fields := WalkAll(t.kids, Some(t.name), opts).value, FieldsOfAll(t.kids, opts.casts);
      forall st | AtKey(st)
        ensures Replay(st, inner) == Some(WithFields(st, fields))
      {
        WalkAllBuildsFields(t.kids, Some(t.name), opts, st);
      }
      if t.name != "offer" {
        ReplaySubdocument(stack, Renamed(t.name), inner, fields);
      }
    }
  }

  lemma {:induction false} WalkAllBuildsFields(ts: seq<Tree>, outer: Option<string>, opts: Options, stack: Stack)
    requires WalkAll(ts, outer, opts).Ok? && AtKey(stack)
    ensures Replay(stack, WalkAll(ts, outer, opts).value) == Some(WithFields(stack, FieldsOfAll(ts, opts.casts)))
    decreases ts, 0
  {
    if ts == [] {
      WithNoFields(stack);
    } else {
      var first, more := Walk(ts[0], outer, opts).value, WalkAll(ts[1..], outer, opts).value;
      var a, b := FieldsOf(ts[0], opts.casts), FieldsOfAll(ts[1..], opts.casts);
      WalkBuildsFields(ts[0], outer, opts, stack);
      WithMoreFields(stack, a, b);
      WalkAllBuildsFields(ts[1..], outer, opts, WithFields(stack, a));
      ReplayConcat(stack, first, more);
    }
  }

  /** bson_from_offer yields the meant document for an acceptable offer and rejects every other. */
  lemma {:induction false} BsonFromOfferExactly(t: Tree, opts: Options)
    ensures if Acceptable(t, None, opts)
            then BsonFromOffer(t, opts) == Ok(Some(FieldsOf(t, opts.casts)))
            else BsonFromOffer(t, opts).Rejected?
  {
    WalkIffAcceptable(t, None, opts);
    if Acceptable(t, None, opts) {
      WalkBuildsFields(t, None, opts, EMPTY_DOCUMENT);
      assert [] + FieldsOf(t, opts.casts) == FieldsOf(t, opts.casts);
    }
  }

  /** What an offer amounts to: its document, or nothing if it is rejected. */
  ghost function DocumentOf(t: Tree, opts: Options): Option<seq<Field>> {
    if Acceptable(t, None, opts) then Some(FieldsOf(t, opts.casts)) else None
  }

  ghost function DocumentsOf(ts: seq<Tree>, opts: Options): seq<Option<seq<Field>>> {
    seq(|ts|, i requires 0 <= i < |ts| => DocumentOf(ts[i], opts))
  }

  lemma {:induction false} DocumentsConcat(a: seq<Tree>, b: seq<Tree>, opts: Options)
    ensures DocumentsOf(a + b, opts) == DocumentsOf(a, opts) + DocumentsOf(b, opts)
  {
  }
}
