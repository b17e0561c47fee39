/**
 What bson_from_offer does, said outright: which key and which value stands at each place of the document, which
 node makes it throw, and with which message.
 */
module OfferFields {
  import opened Bson
  import opened Feed
  import opened OfferDocument

  // ---------- keys ----------

  /** The name with `_` for each `-`. */
  lemma {:induction false} RenamedExactly(name: string)
    ensures |Renamed(name)| == |name|
    ensures forall i | 0 <= i < |name| :: Renamed(name)[i] == if name[i] == '-' then '_' else name[i]
  {
    if name == "" {
    } else {
      RenamedExactly(name[1..]);
      forall i | 0 <= i < |name|
        ensures Renamed(name)[i] == if name[i] == '-' then '_' else name[i]
      {
        if i > 0 {
          assert Renamed(name)[i] == Renamed(name[1..])[i - 1] && name[i] == name[1..][i - 1];
        }
      }
    }
  }

  /** The keys of a document and of its subdocuments. */
  function KeysOf(fields: seq<Field>): set<string> {
    if fields == [] then {}
    else
      {fields[0].key}
      + (if fields[0].value.Document? then KeysOf(fields[0].value.fields) else {})
      + KeysOf(fields[1..])
  }

  lemma {:induction false} KeysConcat(a: seq<Field>, b: seq<Field>)
    ensures KeysOf(a + b) == KeysOf(a) + KeysOf(b)
  {
    if a == [] {
      assert a + b == b;
    } else {
      KeysConcat(a[1..], b);
      assert (a + b)[1..] == a[1..] + b;
    }
  }

  lemma {:induction false} KeysOfOne(f: Field)
    ensures KeysOf([f]) == {f.key} + if f.value.Document? then KeysOf(f.value.fields) else {}
  {
    assert [f][1..] == [];
  }

  /** No key has a dash in it, at any depth, whatever the tree. */
  lemma {:induction false} NoDashes(t: Tree, casts: Casts)
    ensures forall key | key in KeysOf(FieldsOf(t, casts)) :: '-' !in key
    decreases t, 1
  {
    RenamedExactly(t.name);
    NoDashesBelow(t.kids, casts);
    if t.kids == [] || t.name != "offer" {
      KeysOfOne(FieldsOf(t, casts)[0]);
    }
  }

  lemma {:induction false} NoDashesBelow(ts: seq<Tree>, casts: Casts)
    ensures forall key | key in KeysOf(FieldsOfAll(ts, casts)) :: '-' !in key
    decreases ts, 0
  {
    if ts == [] {
    } else {
      NoDashes(ts[0], casts);
      NoDashesBelow(ts[1..], casts);
      KeysConcat(FieldsOf(ts[0], casts), FieldsOfAll(ts[1..], casts));
    }
  }

  // ---------- values ----------

  /**
   An int if the text can be read as one, else a double if it can be read as that, else a truth value for the two
   words, else the text itself.
   */
  ghost predicate Converts(data: string, casts: Casts, v: Value) {
    && (forall i :: v == Int32(i) <==> casts.asInt(data) == Some(i))
    && (forall d :: v == Double(d) <==> casts.asInt(data) == None && casts.asDouble(data) == Some(d))
    && (v == Bool(true) <==> casts.asInt(data) == None && casts.asDouble(data) == None && data == "true")
    && (v == Bool(false) <==> casts.asInt(data) == None && casts.asDouble(data) == None && data == "false")
    && (forall s :: v == Utf8(s) <==>
          casts.asInt(data) == None && casts.asDouble(data) == None && data != "true" && data != "false" && s == data)
  }

  /** There is one such value only. */
  lemma {:induction false} ConvertsToOne(data: string, casts: Casts, v: Value, w: Value)
    requires Converts(data, casts, v) && Converts(data, casts, w)
    ensures v == w
  {
  }

  /** The calls for a leaf put one field at the end of the open document: the key, and what the text converts to. */
  lemma {:induction false} LeafHolds(stack: Stack, name: string, data: string, casts: Casts)
    requires AtKey(stack)
    ensures var below, open := stack[..|stack| - 1], stack[|stack| - 1].fields;
      exists v :: Converts(data, casts, v)
               && Replay(stack, LeafCalls(name, data, casts, false))
                  == Some(below + [Doc(open + [Field(name, Scalar(v))], None)])
  {
    LeafExact(stack, name, data, casts, false, []);
    assert Converts(data, casts, ScalarOf(data, casts));
  }

  // ---------- the document, place by place ----------

  /** The field that the numbers in `path` lead to, through subdocuments. */
  function FieldAt(fields: seq<Field>, path: seq<nat>): Option<Field>
    decreases |path|
  {
    if path == [] || path[0] >= |fields| then None
    else if |path| == 1 then Some(fields[path[0]])
    else
      match fields[path[0]].value
      case Document(inner) => FieldAt(inner, path[1..])
      case _ => None
  }

  /** The field that belongs to a node: its key is the name without dashes, and children make it a subdocument. */
  ghost predicate FieldFor(n: Tree, f: Field, casts: Casts) {
    && |f.key| == |n.name|
    && (forall i | 0 <= i < |n.name| :: f.key[i] == if n.name[i] == '-' then '_' else n.name[i])
    && (n.kids == [] ==> f.value.Scalar? && Converts(n.data, casts, f.value.value))
    && (n.kids != [] ==> f.value.Document? && |f.value.fields| == |n.kids|)
  }

  lemma {:induction false} OneFieldEach(ts: seq<Tree>, casts: Casts)
    requires NoOffers(ts)
    ensures |FieldsOfAll(ts, casts)| == |ts|
    ensures forall i | 0 <= i < |ts| :: ts[i].name != "offer" && NoOffers(ts[i].kids)
    ensures forall i | 0 <= i < |ts| :: FieldsOf(ts[i], casts) == [FieldsOfAll(ts, casts)[i]]
  {
    if ts == [] {
    } else {
      OneFieldEach(ts[1..], casts);
      assert |FieldsOf(ts[0], casts)| == 1;
      forall i | 0 <= i < |ts|
        ensures ts[i].name != "offer" && NoOffers(ts[i].kids)
        ensures FieldsOf(ts[i], casts) == [FieldsOfAll(ts, casts)[i]]
      {
        if i > 0 {
          assert ts[i] == ts[1..][i - 1];
        }
      }
    }
  }

  /** Below a root that alone is called offer, fields and nodes stand at the same places, and belong to each other. */
  lemma {:induction false} PlaceByPlace(t: Tree, path: seq<nat>, casts: Casts)
    requires NoOffers(t.kids) && path != []
    ensures FieldAt(FieldsOfAll(t.kids, casts), path).Some? <==> NodeAt(t, path).Some?
    ensures NodeAt(t, path).Some? ==>
              FieldFor(NodeAt(t, path).value, FieldAt(FieldsOfAll(t.kids, casts), path).value, casts)
    decreases |path|
  {
    var k, fields := path[0], FieldsOfAll(t.kids, casts);
    OneFieldEach(t.kids, casts);
    if k < |t.kids| {
      var n := t.kids[k];
      assert FieldsOf(n, casts) == [fields[k]];
      if |path| == 1 {
        assert NodeAt(t, path) == Some(n) by { assert path[1..] == []; }
        RenamedExactly(n.name);
        assert Converts(n.data, casts, ScalarOf(n.data, casts));
        OneFieldEach(n.kids, casts);
      } else if n.kids == [] {
        assert NodeAt(n, path[1..]) == None;
      } else {
        PlaceByPlace(n, path[1..], casts);
      }
    }
  }

  /** So it is with what bson_from_offer yields for an acceptable offer. */
  lemma {:induction false} DocumentPlaceByPlace(t: Tree, opts: Options)
    requires t.name == "offer" && t.kids != [] && NoOffers(t.kids) && Acceptable(t, None, opts)
    ensures BsonFromOffer(t, opts).Ok? && BsonFromOffer(t, opts).value.Some?
    ensures var fields := BsonFromOffer(t, opts).value.value;
      forall path: seq<nat> | path != [] ::
        && (FieldAt(fields, path).Some? <==> NodeAt(t, path).Some?)
        && (NodeAt(t, path).Some? ==> FieldFor(NodeAt(t, path).value, FieldAt(fields, path).value, opts.casts))
  {
    BsonFromOfferExactly(t, opts);
    forall path: seq<nat> | path != []
      ensures FieldAt(FieldsOfAll(t.kids, opts.casts), path).Some? <==> NodeAt(t, path).Some?
      ensures NodeAt(t, path).Some? ==>
                FieldFor(NodeAt(t, path).value, FieldAt(FieldsOfAll(t.kids, opts.casts), path).value, opts.casts)
    {
      PlaceByPlace(t, path, opts.casts);
    }
  }

  // ---------- the filters ----------

  /** The node at `path` is one to reject, and this is what the exception says. */
  ghost predicate Offends(t: Tree, outer: Option<string>, path: seq<nat>, opts: Options, what: string) {
    && NodeAt(t, path).Some?
    && var n := NodeAt(t, path).value;
       || (opts.onlySales && n.name == "type" && n.data != "продажа" && what == "invalid type: " + n.data)
       || (opts.onlyFlats && n.name == "category" && n.data != "квартира"
           && ParentAt(t, path, outer) == Some("offer") && what == "invalid category: " + n.data)
  }

  /** Document order: a node comes before what is below it, and children from left to right. */
  predicate Precedes(q: seq<nat>, p: seq<nat>)
    decreases |p|
  {
    p != [] && (q == [] || q[0] < p[0] || (q[0] == p[0] && Precedes(q[1..], p[1..])))
  }

  lemma {:induction false} AcceptableMeansNone(t: Tree, outer: Option<string>, opts: Options)
    ensures Acceptable(t, outer, opts) <==> forall path, what :: !Offends(t, outer, path, opts, what)
  {
    if !Acceptable(t, outer, opts) {
      var path :| NodeAt(t, path).Some? &&
                  var n := NodeAt(t, path).value;
                  || WrongType(n.name, n.data, opts)
                  || WrongCategory(n.name, n.data, ParentAt(t, path, outer), opts);
      var n := NodeAt(t, path).value;
      if WrongType(n.name, n.data, opts) {
        assert Offends(t, outer, path, opts, "invalid type: " + n.data);
      } else {
        assert Offends(t, outer, path, opts, "invalid category: " + n.data);
      }
    }
  }

  lemma {:induction false} OffendsBelow(t: Tree, outer: Option<string>, path: seq<nat>, opts: Options, what: string)
    requires path != [] && path[0] < |t.kids|
    ensures Offends(t, outer, path, opts, what) <==>
            Offends(t.kids[path[0]], Some(t.name), path[1..], opts, what)
  {
  }

  /** The walk throws exactly if some node offends, and then for the first one in document order. */
  lemma {:induction false} ThrowsForTheFirst(t: Tree, outer: Option<string>, opts: Options)
    ensures Walk(t, outer, opts).Ok? <==> forall path, what :: !Offends(t, outer, path, opts, what)
    ensures Walk(t, outer, opts).Rejected? ==>
              exists path ::
                && Offends(t, outer, path, opts, Walk(t, outer, opts).what)
                && forall q, w :: Precedes(q, path) ==> !Offends(t, outer, q, opts, w)
  {
    WalkIffAcceptable(t, outer, opts);
    AcceptableMeansNone(t, outer, opts);
    if Walk(t, outer, opts).Rejected? {
      var path := FirstOffence(t, outer, opts);
    }
  }

  lemma {:induction false} FirstOffence(t: Tree, outer: Option<string>, opts: Options) returns (path: seq<nat>)
    requires Walk(t, outer, opts).Rejected?
    ensures Offends(t, outer, path, opts, Walk(t, outer, opts).what)
    ensures forall q, w :: Precedes(q, path) ==> !Offends(t, outer, q, opts, w)
    decreases t, 1
  {
    if WrongType(t.name, t.data, opts) || WrongCategory(t.name, t.data, outer, opts) {
      path := [];
    } else {
      var i, p := FirstOffenceIn(t.kids, Some(t.name), opts);
      path := [i] + p;
      assert path[1..] == p;
      OffendsBelow(t, outer, path, opts, Walk(t, outer, opts).what);
      forall q, w | Precedes(q, path)
        ensures !Offends(t, outer, q, opts, w)
      {
        if q != [] {
          OffendsBelow(t, outer, q, opts, w);
          if q[0] < i {
            AcceptableMeansNone(t.kids[q[0]], Some(t.name), opts);
          }
        }
      }
    }
  }

  lemma {:induction false} FirstOffenceIn(ts: seq<Tree>, outer: Option<string>, opts: Options)
    returns (i: nat, path: seq<nat>)
    requires WalkAll(ts, outer, opts).Rejected?
    ensures i < |ts| && Offends(ts[i], outer, path, opts, WalkAll(ts, outer, opts).what)
    ensures forall q, w :: Precedes(q, path) ==> !Offends(ts[i], outer, q, opts, w)
    ensures forall j | 0 <= j < i :: Acceptable(ts[j], outer, opts)
    decreases ts, 0
  {
    if Walk(ts[0], outer, opts).Rejected? {
      i := 0;
      path := FirstOffence(ts[0], outer, opts);
    } else {
      WalkIffAcceptable(ts[0], outer, opts);
      i, path := FirstOffenceIn(ts[1..], outer, opts);
      var k := i;
      i := k + 1;
      assert forall j | 0 < j <= k + 1 :: ts[j] == ts[1..][j - 1];
    }
  }

  /** Every node at any depth with this name has this text. */
  ghost predicate AllSay(t: Tree, name: string, text: string) {
    forall path: seq<nat> | NodeAt(t, path).Some? ::
      NodeAt(t, path).value.name == name ==> NodeAt(t, path).value.data == text
  }

  /** Every child with this name has this text. */
  predicate ChildrenSay(t: Tree, name: string, text: string) {
    forall i | 0 <= i < |t.kids| && t.kids[i].name == name :: t.kids[i].data == text
  }

  /** With the words: what the filters ask of an offer whose root alone is called so. */
  lemma {:induction false} FilterWords(t: Tree, opts: Options)
    requires t.name == "offer" && NoOffers(t.kids)
    ensures Acceptable(t, None, opts) <==>
            && (opts.onlySales ==> AllSay(t, "type", "продажа"))
            && (opts.onlyFlats ==> ChildrenSay(t, "category", "квартира"))
  {
    OfferFilters(t, opts);
    TypesSay(t, opts.casts);
  }

  lemma {:induction false} TypesSay(t: Tree, casts: Casts)
    requires t.name == "offer" && NoOffers(t.kids)
    ensures SalesOnly(t.kids) <==> AllSay(t, "type", "продажа")
  {
    var sales := Options(casts, true, false);
    OfferFilters(t, sales);
    if SalesOnly(t.kids) {
      forall path: seq<nat> | NodeAt(t, path).Some?
        ensures NodeAt(t, path).value.name == "type" ==> NodeAt(t, path).value.data == "продажа"
      {
        assert !WrongType(NodeAt(t, path).value.name, NodeAt(t, path).value.data, sales);
      }
    } else {
      var path :| NodeAt(t, path).Some? && WrongType(NodeAt(t, path).value.name, NodeAt(t, path).value.data, sales);
      assert NodeAt(t, path).value.name == "type" && NodeAt(t, path).value.data != "продажа";
    }
  }
}
