/**
 When what an offer puts into the collection is what the feed says. Less is needed here than for the trees to
 come out as wanted: the text of a node with children goes nowhere, unless a filter looks at it.
 */
module FeedDocument {
  import opened Bson
  import opened Feed
  import opened FeedExact
  import opened OfferDocument

  // ---------- what is compared, in terms of the content ----------

  /** All the elements at this level are dropped images. */
  predicate Childless(c: Content, seen: bool) {
    match c
    case End => true
    case Chars(_, rest) => Childless(rest, seen)
    case Elem(name, _, _, _, rest) => name == "image" && seen && Childless(rest, true)
  }

  /** The text that an element is left with. */
  function LastText(c: Content, seen: bool): string {
    OrElse(LastReported(c, seen), "")
  }

  /** What is reported last converts to the same value as the whole text. */
  predicate SameValue(c: Content, seen: bool, casts: Casts) {
    EndsWhole(c, seen) || ScalarOf(LastText(c, seen), casts) == ScalarOf(TextWanted(c), casts)
  }

  /** So it does in every element that becomes a value. */
  predicate SameValues(c: Content, seen: bool, casts: Casts) {
    match c
    case End => true
    case Chars(_, rest) => SameValues(rest, seen, casts)
    case Elem(name, _, _, body, rest) =>
      if name == "image" && seen then SameValues(rest, true, casts)
      else
        && (Childless(body, seen) ==> SameValue(body, seen, casts))
        && SameValues(body, seen, casts)
        && SameValues(rest, SeenAfter(seen, name, body), casts)
  }

  /** Every element that becomes a value has its own text last and in one piece. */
  predicate ValuesWhole(c: Content, seen: bool) {
    match c
    case End => true
    case Chars(_, rest) => ValuesWhole(rest, seen)
    case Elem(name, _, _, body, rest) =>
      if name == "image" && seen then ValuesWhole(rest, true)
      else
        && (Childless(body, seen) ==> EndsWhole(body, seen))
        && ValuesWhole(body, seen)
        && ValuesWhole(rest, SeenAfter(seen, name, body))
  }

  /** Every `type` element that stays says sale. */
  predicate SalesWanted(c: Content, seen: bool) {
    match c
    case End => true
    case Chars(_, rest) => SalesWanted(rest, seen)
    case Elem(name, _, _, body, rest) =>
      if name == "image" && seen then SalesWanted(rest, true)
      else
        && (name == "type" ==> TextWanted(body) == SALE)
        && SalesWanted(body, seen || name == "image")
        && SalesWanted(rest, SeenAfter(seen, name, body))
  }

  /** What is reported last in each `type` element says sale, also inside dropped images. */
  predicate SalesReported(c: Content, seen: bool) {
    match c
    case End => true
    case Chars(_, rest) => SalesReported(rest, seen)
    case Elem(name, _, _, body, rest) =>
      if name == "image" && seen then SalesReported(body, true) && SalesReported(rest, true)
      else
        && (name == "type" ==> LastText(body, seen) == SALE)
        && SalesReported(body, seen)
        && SalesReported(rest, SeenAfter(seen, name, body))
  }

  /** Every `category` at this level says flat. */
  predicate FlatsWanted(c: Content) {
    match c
    case End => true
    case Chars(_, rest) => FlatsWanted(rest)
    case Elem(name, _, _, body, rest) => (name == "category" ==> TextWanted(body) == FLAT) && FlatsWanted(rest)
  }

  /** What is reported last in each `category` says flat, also directly inside dropped images. */
  predicate FlatsReported(c: Content, seen: bool) {
    match c
    case End => true
    case Chars(_, rest) => FlatsReported(rest, seen)
    case Elem(name, _, _, body, rest) =>
      if name == "image" && seen then FlatsReported(body, true) && FlatsReported(rest, true)
      else
        && (name == "category" ==> LastText(body, seen) == FLAT)
        && FlatsReported(rest, SeenAfter(seen, name, body))
  }

  /** The filters on the offer as the feed has it. */
  predicate PassesWanted(body: Content, opts: Options) {
    (opts.onlySales ==> SalesWanted(body, false)) && (opts.onlyFlats ==> FlatsWanted(body))
  }

  /** The filters on the texts that are reported last. */
  predicate PassesReported(body: Content, opts: Options) {
    (opts.onlySales ==> SalesReported(body, false)) && (opts.onlyFlats ==> FlatsReported(body, false))
  }

  // ---------- the filters however images are nested ----------

  /** Name and text of a node that is still open. */
  datatype Spot = Spot(name: string, text: string)

  /** A chunk replaces the text of the last one, but not of an offer. */
  function Heard(open: seq<Spot>, text: string): seq<Spot>
    requires open != []
  {
    var n := |open| - 1;
    if open[n].name == "offer" then open else open[..n] + [Spot(open[n].name, text)]
  }

  /** The nodes that are open after the content; an image with an image inside stays so. */
  function Spots(open: seq<Spot>, c: Content, seen: bool): (r: seq<Spot>)
    requires open != []
    ensures |r| >= |open|
    decreases c
  {
    match c
    case End => open
    case Chars(t, rest) => Spots(Heard(open, t), rest, seen)
    case Elem(name, _, _, body, rest) =>
      if name == "image" && seen then Spots(Spots(open, body, true), rest, true)
      else
        var inner := Spots(open + [Spot(name, "")], body, seen);
        Spots(if name == "image" && HasImage(body) then inner else inner[..|inner| - 1], rest,
              SeenAfter(seen, name, body))
  }

  /** The filters on the node at this depth, which has another above it. */
  predicate SpotPasses(open: seq<Spot>, i: nat, opts: Options)
    requires 0 < i < |open|
  {
    && !WrongType(open[i].name, open[i].text, opts)
    && !WrongCategory(open[i].name, open[i].text, Some(open[i - 1].name), opts)
  }

  /** The filters on each node that is left during the content, as it is then. */
  predicate LeftPass(open: seq<Spot>, c: Content, seen: bool, opts: Options)
    requires open != []
    decreases c
  {
    match c
    case End => true
    case Chars(t, rest) => LeftPass(Heard(open, t), rest, seen, opts)
    case Elem(name, _, _, body, rest) =>
      if name == "image" && seen then
        LeftPass(open, body, true, opts) && LeftPass(Spots(open, body, true), rest, true, opts)
      else
        var inner, n := Spots(open + [Spot(name, "")], body, seen), |Spots(open + [Spot(name, "")], body, seen)|;
        && LeftPass(open + [Spot(name, "")], body, seen, opts)
        && (if name == "image" && HasImage(body) then LeftPass(inner, rest, true, opts)
            else SpotPasses(inner, n - 1, opts) && LeftPass(inner[..n - 1], rest, SeenAfter(seen, name, body), opts))
  }

  /** The filters on what the texts have become when the offer ends, and some nodes may still be open. */
  predicate PassesInTheEnd(body: Content, opts: Options) {
    var root := [Spot("offer", "")];
    && LeftPass(root, body, false, opts)
    && forall i | 0 < i < |Spots(root, body, false)| :: SpotPasses(Spots(root, body, false), i, opts)
  }

  // ---------- the conditions ----------

  /** What an offer's content has to be like for its document to be right whatever the options are. */
  predicate Interchangeable(body: Content) {
    && FirstImageFlat(body) && DroppedBare(body, false) && ValuesWhole(body, false)
    && (SalesWanted(body, false) <==> SalesReported(body, false))
    && (FlatsWanted(body) <==> FlatsReported(body, false))
  }

  /** The same for given options; for an offer that is to be rejected only that matters. */
  predicate Right(body: Content, opts: Options) {
    if PassesWanted(body, opts) then
      && FirstImageFlat(body) && DroppedBare(body, false) && SameValues(body, false, opts.casts)
      && PassesReported(body, opts)
    else
      !PassesInTheEnd(body, opts)
  }

  // ---------- the filters ----------

  lemma {:induction false} NoOffersConcat(a: seq<Tree>, b: seq<Tree>)
    ensures NoOffers(a + b) <==> NoOffers(a) && NoOffers(b)
  {
    if a == [] {
      assert a + b == b;
    } else {
      NoOffersConcat(a[1..], b);
      assert (a + b)[1..] == a[1..] + b;
    }
  }

  lemma {:induction false} SalesConcat(a: seq<Tree>, b: seq<Tree>)
    ensures SalesOnly(a + b) <==> SalesOnly(a) && SalesOnly(b)
  {
    if a == [] {
      assert a + b == b;
    } else {
      SalesConcat(a[1..], b);
      assert (a + b)[1..] == a[1..] + b;
    }
  }

  lemma {:induction false} FlatsConcat(a: seq<Tree>, b: seq<Tree>)
    ensures FlatsOnly(a + b) <==> FlatsOnly(a) && FlatsOnly(b)
  {
    if a == [] {
      assert a + b == b;
    } else {
      FlatsConcat(a[1..], b);
      assert (a + b)[1..] == a[1..] + b;
      FlatsOnlyParts(a);
      FlatsOnlyParts(a + b);
    }
  }

  lemma {:induction false} WantedHasNoOffers(c: Content, seen: bool)
    requires !HasOffer(c)
    ensures NoOffers(KidsWanted(c, seen))
  {
    match c
    case End =>
    case Chars(_, rest) => WantedHasNoOffers(rest, seen);
    case Elem(name, _, _, body, rest) =>
      if name == "image" && seen {
        WantedHasNoOffers(rest, true);
      } else {
        WantedHasNoOffers(body, seen || name == "image");
        WantedHasNoOffers(rest, SeenAfter(seen, name, body));
      }
  }

  lemma {:induction false} WantedSales(c: Content, seen: bool)
    ensures SalesOnly(KidsWanted(c, seen)) <==> SalesWanted(c, seen)
  {
    match c
    case End =>
    case Chars(_, rest) => WantedSales(rest, seen);
    case Elem(name, _, _, body, rest) =>
      if name == "image" && seen {
        WantedSales(rest, true);
      } else {
        WantedSales(body, seen || name == "image");
        WantedSales(rest, SeenAfter(seen, name, body));
      }
  }

  lemma {:induction false} WantedFlats(c: Content, seen: bool)
    ensures FlatsOnly(KidsWanted(c, seen)) <==> FlatsWanted(c)
  {
    match c
    case End =>
    case Chars(_, rest) => WantedFlats(rest, seen);
    case Elem(name, _, _, body, rest) =>
      if name == "image" && seen {
        WantedFlats(rest, true);
      } else {
        WantedFlats(rest, SeenAfter(seen, name, body));
        FlatsOnlyParts(KidsWanted(c, seen));
      }
  }

  lemma {:induction false} KeptSales(c: Content, seen: bool)
    ensures SalesOnly(KidsKept(c, seen)) <==> SalesReported(c, seen)
  {
    match c
    case End =>
    case Chars(_, rest) => KeptSales(rest, seen);
    case Elem(name, _, _, body, rest) =>
      if name == "image" && seen {
        KeptSales(body, true);
        KeptSales(rest, true);
        SalesConcat(KidsKept(body, true), KidsKept(rest, true));
      } else {
        KeptIsLast(body, "", seen);
        KeptSales(body, seen);
        KeptSales(rest, SeenAfter(seen, name, body));
      }
  }

  lemma {:induction false} KeptFlats(c: Content, seen: bool)
    ensures FlatsOnly(KidsKept(c, seen)) <==> FlatsReported(c, seen)
  {
    match c
    case End =>
    case Chars(_, rest) => KeptFlats(rest, seen);
    case Elem(name, _, _, body, rest) =>
      if name == "image" && seen {
        KeptFlats(body, true);
        KeptFlats(rest, true);
        FlatsConcat(KidsKept(body, true), KidsKept(rest, true));
      } else {
        KeptIsLast(body, "", seen);
        KeptFlats(rest, SeenAfter(seen, name, body));
        FlatsOnlyParts(KidsKept(c, seen));
      }
  }

  // ---------- the trees that are handed over have one offer node, the root ----------

  predicate OffersAtRoot(open: seq<Frame>) {
    && open != [] && open[0].name == "offer"
    && (forall i | 0 < i < |open| :: open[i].name != "offer")
    && (forall i | 0 <= i < |open| :: NoOffers(open[i].kids))
  }

  lemma {:induction false} PoppedOffersAtRoot(open: seq<Frame>)
    requires OffersAtRoot(open) && |open| > 1
    ensures OffersAtRoot(Popped(open))
  {
    var n := |open|;
    NoOffersConcat(open[n - 2].kids, [open[n - 1]]);
    assert [open[n - 1]][1..] == [];
  }

  lemma {:induction false} CollapsedOffersAtRoot(open: seq<Frame>)
    requires OffersAtRoot(open)
    ensures Collapse(open).name == "offer" && NoOffers(Collapse(open).kids)
    decreases |open|
  {
    if |open| == 1 {
    } else {
      PoppedOffersAtRoot(open);
      CollapsedOffersAtRoot(Popped(open));
    }
  }

  predicate NotOfOffer(e: Event) {
    match e
    case Start(name, _, _) => name != "offer"
    case Stop(name) => name != "offer"
    case Characters(_) => true
  }

  lemma {:induction false} NoOfferNoEvent(c: Content)
    requires !HasOffer(c)
    ensures forall e | e in Events(c) :: NotOfOffer(e)
  {
    match c
    case End =>
    case Chars(_, rest) => NoOfferNoEvent(rest);
    case Elem(_, _, _, body, rest) => NoOfferNoEvent(body); NoOfferNoEvent(rest);
  }

  lemma {:induction false} StepKeepsOffersAtRoot(st: State, feedId: string, e: Event)
    requires st.open == [] || OffersAtRoot(st.open)
    requires NotOfOffer(e) && Feed.Step(st, feedId, e).Some?
    ensures var open := Feed.Step(st, feedId, e).value.open; open == [] || OffersAtRoot(open)
  {
    if |st.open| > 1 {
      PoppedOffersAtRoot(st.open);
    }
  }

  lemma {:induction false} RunKeepsOffersAtRoot(st: State, feedId: string, events: seq<Event>)
    requires st.open == [] || OffersAtRoot(st.open)
    requires (forall e | e in events :: NotOfOffer(e)) && Run(st, feedId, events).Some?
    ensures var open := Run(st, feedId, events).value.open; open == [] || OffersAtRoot(open)
    decreases |events|
  {
    if events == [] {
    } else {
      StepKeepsOffersAtRoot(st, feedId, events[0]);
      RunKeepsOffersAtRoot(Feed.Step(st, feedId, events[0]).value, feedId, events[1..]);
    }
  }

  lemma {:induction false} RootHasNoOffers(attrs: seq<Attr>, feedId: string, now: string)
    ensures NoOffers(OfferRoot(feedId, attrs, now).kids)
    ensures SalesOnly(OfferRoot(feedId, attrs, now).kids) && FlatsOnly(OfferRoot(feedId, attrs, now).kids)
  {
    var one, two := Leaf("feed_id", feedId), Leaf("last_modified", now);
    assert [one, two][1..] == [two] && [two][1..] == [];
    assert NoOffers([two]) && SalesOnly([two]);
    assert NoOffers([one, two]) && SalesOnly([one, two]);
    IdHasNoOffers(attrs);
    NoOffersConcat(InternalId(attrs), [one, two]);
    SalesConcat(InternalId(attrs), [one, two]);
  }

  lemma {:induction false} IdHasNoOffers(attrs: seq<Attr>)
    ensures NoOffers(InternalId(attrs)) && SalesOnly(InternalId(attrs)) && FlatsOnly(InternalId(attrs))
  {
    if attrs == [] {
    } else {
      var id := Leaf("internal-id", attrs[0].value);
      assert [id][1..] == [];
      assert NoOffers([id]) && SalesOnly([id]) && FlatsOnly([id]);
      if attrs[0].name != "internal-id" {
        IdHasNoOffers(attrs[1..]);
      }
    }
  }

  /** However its images are nested, the tree of an offer without inner offers has only its root called offer. */
  lemma {:induction false} DeliveredHasOneOffer(feedId: string, offer: Content)
    requires offer.Elem? && !HasOffer(offer.body)
    ensures var t := OfferDelivered(feedId, offer); t.name == "offer" && NoOffers(t.kids)
  {
    var st, c := Opened(feedId, offer, []), offer.body;
    RootHasNoOffers(offer.attrs, feedId, offer.now);
    ContentGrows(st, feedId, c);
    NoOfferNoEvent(c);
    RunKeepsOffersAtRoot(st, feedId, Events(c));
    CollapsedOffersAtRoot(After(st, feedId, c).value.open);
  }

  lemma {:induction false} WantedHasOneOffer(feedId: string, offer: Content)
    requires offer.Elem? && !HasOffer(offer.body)
    ensures var t := OfferWanted(feedId, offer); t.name == "offer" && NoOffers(t.kids)
  {
    var root := OfferRoot(feedId, offer.attrs, offer.now);
    WantedFromRoot(feedId, offer);
    RootHasNoOffers(offer.attrs, feedId, offer.now);
    WantedHasNoOffers(offer.body, false);
    NoOffersConcat(root.kids, KidsWanted(offer.body, false));
  }

  /**
   In the tree that is handed over, the filters look at the `type` nodes at every depth and at exactly the
   `category` nodes directly below the root.
   */
  lemma {:induction false} DeliveredIsFiltered(feedId: string, offer: Content, opts: Options)
    requires offer.Elem? && !HasOffer(offer.body)
    ensures var t := OfferDelivered(feedId, offer);
      Acceptable(t, None, opts) <==> (opts.onlySales ==> SalesOnly(t.kids)) && (opts.onlyFlats ==> FlatsOnly(t.kids))
  {
    DeliveredHasOneOffer(feedId, offer);
    OfferFilters(OfferDelivered(feedId, offer), opts);
  }

  lemma {:induction false} WantedPasses(feedId: string, offer: Content, opts: Options)
    requires offer.Elem? && !HasOffer(offer.body)
    ensures Acceptable(OfferWanted(feedId, offer), None, opts) <==> PassesWanted(offer.body, opts)
  {
    var root, kids := OfferRoot(feedId, offer.attrs, offer.now), KidsWanted(offer.body, false);
    WantedFromRoot(feedId, offer);
    RootHasNoOffers(offer.attrs, feedId, offer.now);
    WantedHasOneOffer(feedId, offer);
    OfferFilters(OfferWanted(feedId, offer), opts);
    SalesConcat(root.kids, kids);
    FlatsConcat(root.kids, kids);
    WantedSales(offer.body, false);
    WantedFlats(offer.body, false);
  }

  lemma {:induction false} DeliveredPasses(feedId: string, offer: Content, opts: Options)
    requires offer.Elem? && !HasOffer(offer.body) && FirstImageFlat(offer.body)
    ensures Acceptable(OfferDelivered(feedId, offer), None, opts) <==> PassesReported(offer.body, opts)
  {
    var root, kids := OfferRoot(feedId, offer.attrs, offer.now), KidsKept(offer.body, false);
    RootHasNoOffers(offer.attrs, feedId, offer.now);
    FlatOffer(feedId, offer);
    DeliveredIsFiltered(feedId, offer, opts);
    SalesConcat(root.kids, kids);
    FlatsConcat(root.kids, kids);
    KeptSales(offer.body, false);
    KeptFlats(offer.body, false);
  }

  // ---------- the filters on what the handlers leave, whatever the images ----------

  function SpotsOf(open: seq<Frame>): (r: seq<Spot>)
    ensures |r| == |open|
  {
    seq(|open|, i requires 0 <= i < |open| => Spot(open[i].name, open[i].data))
  }

  /** The filters on everything that is complete. */
  ghost predicate DonePass(open: seq<Frame>, opts: Options) {
    forall i | 0 <= i < |open| :: AllAcceptable(open[i].kids, Some(open[i].name), opts)
  }

  lemma {:induction false} OneMoreAcceptable(ts: seq<Tree>, t: Tree, outer: Option<string>, opts: Options)
    ensures AllAcceptable(ts + [t], outer, opts) <==> AllAcceptable(ts, outer, opts) && Acceptable(t, outer, opts)
  {
    var all := ts + [t];
    assert all[|ts|] == t && forall i | 0 <= i < |ts| :: all[i] == ts[i];
  }

  /** Folding the last node into the one above: it is looked at then. */
  lemma {:induction false} PoppedPass(open: seq<Frame>, opts: Options)
    requires |open| > 1
    ensures SpotsOf(Popped(open)) == SpotsOf(open)[..|open| - 1]
    ensures DonePass(Popped(open), opts) <==> DonePass(open, opts) && SpotPasses(SpotsOf(open), |open| - 1, opts)
  {
    hide Acceptable, AllAcceptable;
    var n := |open|;
    var up, t, less := open[n - 2], open[n - 1], Popped(open);
    OneMoreAcceptable(up.kids, t, Some(up.name), opts);
    AcceptableParts(t, Some(up.name), opts);
    assert less[n - 2].kids == up.kids + [t] && less[n - 2].name == up.name;
    assert forall i | 0 <= i < n - 2 :: less[i] == open[i];
    if DonePass(less, opts) {
      assert AllAcceptable(less[n - 2].kids, Some(less[n - 2].name), opts);
      forall i | 0 <= i < n
        ensures AllAcceptable(open[i].kids, Some(open[i].name), opts)
      {
        if i < n - 2 {
          assert AllAcceptable(less[i].kids, Some(less[i].name), opts);
        }
      }
    }
  }

  lemma {:induction false} LeafPass(open: seq<Frame>, name: string, opts: Options)
    ensures SpotsOf(open + [Leaf(name, "")]) == SpotsOf(open) + [Spot(name, "")]
    ensures DonePass(open + [Leaf(name, "")], opts) <==> DonePass(open, opts)
  {
    var more := open + [Leaf(name, "")];
    assert AllAcceptable([], Some(name), opts);
    assert forall i | 0 <= i < |open| :: more[i] == open[i];
  }

  lemma {:induction false} HeardPass(open: seq<Frame>, text: string, opts: Options)
    requires open != []
    ensures var heard := if Top(open).name == "offer" then open else WithTop(open, Top(open).(data := text));
      SpotsOf(heard) == Heard(SpotsOf(open), text) && (DonePass(heard, opts) <==> DonePass(open, opts))
  {
    var heard := WithTop(open, Top(open).(data := text));
    assert forall i | 0 <= i < |open| :: heard[i].kids == open[i].kids && heard[i].name == open[i].name;
  }

  /** The names and texts follow the path, and what is completed on the way is looked at. */
  lemma {:induction false} FillPass(open: seq<Frame>, c: Content, seen: bool, opts: Options)
    requires open != []
    ensures SpotsOf(Fill(open, c, seen)) == Spots(SpotsOf(open), c, seen)
    ensures DonePass(Fill(open, c, seen), opts) <==> DonePass(open, opts) && LeftPass(SpotsOf(open), c, seen, opts)
    decreases c
  {
    hide DonePass, SpotPasses, Popped, SpotsOf, Heard;
    match c
    case End =>
    case Chars(t, rest) =>
      HeardPass(open, t, opts);
      FillPass(if Top(open).name == "offer" then open else WithTop(open, Top(open).(data := t)), rest, seen, opts);
    case Elem(name, _, _, body, rest) =>
      if name == "image" && seen {
        FillPass(open, body, true, opts);
        FillPass(Fill(open, body, true), rest, true, opts);
      } else {
        KeptElementPass(open, c, seen, opts);
      }
  }

  lemma {:induction false} KeptElementPass(open: seq<Frame>, c: Content, seen: bool, opts: Options)
    requires open != [] && c.Elem? && !(c.name == "image" && seen)
    ensures SpotsOf(Fill(open, c, seen)) == Spots(SpotsOf(open), c, seen)
    ensures DonePass(Fill(open, c, seen), opts) <==> DonePass(open, opts) && LeftPass(SpotsOf(open), c, seen, opts)
    decreases c, 0
  {
    hide DonePass, SpotPasses, Popped, SpotsOf, Heard;
    var more := open + [Leaf(c.name, "")];
    var inner := Fill(more, c.body, seen);
    LeafPass(open, c.name, opts);
    FillPass(more, c.body, seen, opts);
    if c.name == "image" && HasImage(c.body) {
      FillPass(inner, c.rest, true, opts);
    } else {
      PoppedPass(inner, opts);
      FillPass(Popped(inner), c.rest, SeenAfter(seen, c.name, c.body), opts);
    }
  }

  /** When the offer ends, what is still open is looked at too. */
  lemma {:induction false} CollapsePass(open: seq<Frame>, opts: Options)
    requires open != []
    ensures AllAcceptable(Collapse(open).kids, Some(Collapse(open).name), opts) <==>
            DonePass(open, opts) && forall i | 0 < i < |open| :: SpotPasses(SpotsOf(open), i, opts)
    decreases |open|
  {
    hide AllAcceptable;
    if |open| == 1 {
    } else {
      var n := |open|;
      PoppedPass(open, opts);
      CollapsePass(Popped(open), opts);
      SpotsBelow(SpotsOf(open), n - 1, opts);
    }
  }

  lemma {:induction false} SpotsBelow(open: seq<Spot>, n: nat, opts: Options)
    requires 0 < n < |open|
    ensures forall i | 0 < i < n :: SpotPasses(open[..n], i, opts) <==> SpotPasses(open, i, opts)
  {
  }

  /** Of any offer without inner offers, the tree is accepted exactly when what each text has become passes. */
  lemma {:induction false} DeliveredPassesInTheEnd(feedId: string, offer: Content, opts: Options)
    requires offer.Elem? && !HasOffer(offer.body)
    ensures Acceptable(OfferDelivered(feedId, offer), None, opts) <==> PassesInTheEnd(offer.body, opts)
  {
    hide AllAcceptable, Acceptable, DonePass, Collapse, LeftPass, Fill;
    var st, body := Opened(feedId, offer, []), offer.body;
    var open := st.open;
    ContentFills(st, feedId, body);
    FillPass(open, body, false, opts);
    CollapsePass(Fill(open, body, false), opts);
    RootPasses(feedId, offer, opts);
    DeliveredHasOneOffer(feedId, offer);
    AcceptableParts(OfferDelivered(feedId, offer), None, opts);
  }

  lemma {:induction false} RootPasses(feedId: string, offer: Content, opts: Options)
    requires offer.Elem?
    ensures var open := [OfferRoot(feedId, offer.attrs, offer.now)];
      SpotsOf(open) == [Spot("offer", "")] && DonePass(open, opts)
  {
    RootHasNoOffers(offer.attrs, feedId, offer.now);
    FiltersBelow(OfferRoot(feedId, offer.attrs, offer.now).kids, Some("offer"), opts);
  }

  /** With the first image flat it is what is reported last that matters. */
  lemma {:induction false} FlatPasses(body: Content, opts: Options)
    requires !HasOffer(body) && FirstImageFlat(body)
    ensures PassesInTheEnd(body, opts) <==> PassesReported(body, opts)
  {
    DeliveredPasses("", Around("offer", body, End), opts);
    DeliveredPassesInTheEnd("", Around("offer", body, End), opts);
  }

  // ---------- the fields ----------

  lemma {:induction false} FieldsConcat(a: seq<Tree>, b: seq<Tree>, casts: Casts)
    ensures FieldsOfAll(a + b, casts) == FieldsOfAll(a, casts) + FieldsOfAll(b, casts)
  {
    if a == [] {
      assert a + b == b;
    } else {
      FieldsConcat(a[1..], b, casts);
      assert (a + b)[1..] == a[1..] + b;
      var x, y, z := FieldsOf(a[0], casts), FieldsOfAll(a[1..], casts), FieldsOfAll(b, casts);
      assert x + (y + z) == (x + y) + z;
    }
  }

  /** The fields of a document, its subdocuments included, that are called image (or that are not). */
  function CountFields(fields: seq<Field>, images: bool): nat {
    if fields == [] then 0
    else
      (if (fields[0].key == "image") == images then 1 else 0)
      + (if fields[0].value.Document? then CountFields(fields[0].value.fields, images) else 0)
      + CountFields(fields[1..], images)
  }

  /** Only a name without `-` can become one without `_`. */
  lemma {:induction false} RenamedBack(name: string, target: string)
    requires '_' !in target
    ensures Renamed(name) == target ==> name == target
  {
    if Renamed(name) != target || name == "" {
    } else {
      assert Renamed(name)[0] == target[0] && target[0] in target;
      assert Renamed(name)[1..] == Renamed(name[1..]);
      RenamedBack(name[1..], target[1..]);
      assert name == [name[0]] + name[1..] && target == [target[0]] + target[1..];
    }
  }

  lemma {:induction false} ImageStays(name: string)
    ensures Renamed(name) == "image" <==> name == "image"
  {
    RenamedBack(name, "image");
    if name == "image" {
      assert Renamed("e") == "e" by { assert Renamed("") == ""; }
      assert "ge"[1..] == "e" && "age"[1..] == "ge" && "mage"[1..] == "age" && "image"[1..] == "mage";
      assert Renamed("ge") == "ge";
      assert Renamed("age") == "age";
      assert Renamed("mage") == "mage";
    }
  }

  /** Each node below the root makes one field. */
  lemma {:induction false} FieldsCount(ts: seq<Tree>, casts: Casts, images: bool)
    requires NoOffers(ts)
    ensures CountFields(FieldsOfAll(ts, casts), images) == CountAll(ts, images)
  {
    if ts == [] {
    } else {
      var t, more := ts[0], FieldsOfAll(ts[1..], casts);
      FieldsCount(ts[1..], casts, images);
      FieldsCount(t.kids, casts, images);
      ImageStays(t.name);
      assert |FieldsOf(t, casts)| == 1;
      assert (FieldsOf(t, casts) + more)[1..] == more;
    }
  }

  lemma {:induction false} WantedChildless(c: Content, seen: bool)
    ensures KidsWanted(c, seen) == [] <==> Childless(c, seen)
  {
    match c
    case End =>
    case Chars(_, rest) => WantedChildless(rest, seen);
    case Elem(name, _, _, _, rest) =>
      if name == "image" && seen {
        WantedChildless(rest, true);
      }
  }

  lemma {:induction false} KeptChildless(c: Content, seen: bool)
    requires DroppedBare(c, seen)
    ensures KidsKept(c, seen) == [] <==> Childless(c, seen)
  {
    match c
    case End =>
    case Chars(_, rest) => KeptChildless(rest, seen);
    case Elem(name, _, _, body, rest) =>
      if name == "image" && seen {
        NothingButImages(body);
        KeptChildless(rest, true);
      }
  }

  /** One element that stays, as a field. */
  lemma {:induction false} SameField(name: string, body: Content, seen: bool, casts: Casts)
    requires name != "offer" && DroppedBare(body, seen)
    requires KidsWanted(body, seen || name == "image") == KidsWanted(body, seen)
    requires FieldsOfAll(KidsKept(body, seen), casts) == FieldsOfAll(KidsWanted(body, seen), casts) <==>
             SameValues(body, seen, casts)
    requires Childless(body, seen) ==> SameValues(body, seen, casts)
    ensures var kept := Tree(name, TextKept(body, "", seen), KidsKept(body, seen));
      var wanted := Tree(name, TextWanted(body), KidsWanted(body, seen || name == "image"));
      && |FieldsOf(kept, casts)| == |FieldsOf(wanted, casts)| == 1
      && (FieldsOf(kept, casts) == FieldsOf(wanted, casts) <==>
          (Childless(body, seen) ==> SameValue(body, seen, casts)) && SameValues(body, seen, casts))
  {
    WantedChildless(body, seen);
    KeptChildless(body, seen);
    TextExact(body, seen);
    KeptIsLast(body, "", seen);
  }

  lemma {:induction false} ChildlessSame(c: Content, seen: bool, casts: Casts)
    requires Childless(c, seen)
    ensures SameValues(c, seen, casts)
  {
    match c
    case End =>
    case Chars(_, rest) => ChildlessSame(rest, seen, casts);
    case Elem(_, _, _, _, rest) => ChildlessSame(rest, true, casts);
  }

  /** With the images in order, the fields are the wanted ones exactly when the values are. */
  lemma {:induction false} SameFields(c: Content, seen: bool, casts: Casts)
    requires (seen || FirstImageFlat(c)) && DroppedBare(c, seen) && !HasOffer(c)
    ensures FieldsOfAll(KidsKept(c, seen), casts) == FieldsOfAll(KidsWanted(c, seen), casts) <==>
            SameValues(c, seen, casts)
  {
    match c
    case End =>
    case Chars(_, rest) => SameFields(rest, seen, casts);
    case Elem(name, _, _, body, rest) =>
      if name == "image" && seen {
        NothingButImages(body);
        SameFields(rest, true, casts);
        assert [] + KidsKept(rest, true) == KidsKept(rest, true);
      } else {
        if !HasImage(body) {
          NoImageIsFlat(body);
          NoImagesNoMatter(body);
        }
        SameFields(body, seen, casts);
        SameFields(rest, SeenAfter(seen, name, body), casts);
        if Childless(body, seen) {
          ChildlessSame(body, seen, casts);
        }
        SameField(name, body, seen, casts);
        var seen' := SeenAfter(seen, name, body);
        var kept := Tree(name, TextKept(body, "", seen), KidsKept(body, seen));
        var wanted := Tree(name, TextWanted(body), KidsWanted(body, seen || name == "image"));
        FieldsSplit(kept, KidsKept(rest, seen'), casts);
        FieldsSplit(wanted, KidsWanted(rest, seen'), casts);
        SameParts(FieldsOf(kept, casts), FieldsOf(wanted, casts),
                  FieldsOfAll(KidsKept(rest, seen'), casts), FieldsOfAll(KidsWanted(rest, seen'), casts));
      }
  }

  lemma {:induction false} FieldsSplit(t: Tree, ts: seq<Tree>, casts: Casts)
    ensures FieldsOfAll([t] + ts, casts) == FieldsOf(t, casts) + FieldsOfAll(ts, casts)
  {
    assert ([t] + ts)[1..] == ts;
  }

  /** The documents of an offer's trees, the filters left aside. */
  lemma {:induction false} SameDocument(feedId: string, offer: Content, casts: Casts)
    requires offer.Elem? && !HasOffer(offer.body)
    ensures var body := offer.body;
      FieldsOf(OfferDelivered(feedId, offer), casts) == FieldsOf(OfferWanted(feedId, offer), casts) <==>
      FirstImageFlat(body) && DroppedBare(body, false) && SameValues(body, false, casts)
  {
    var body, root := offer.body, OfferRoot(feedId, offer.attrs, offer.now);
    var delivered, wanted := OfferDelivered(feedId, offer), OfferWanted(feedId, offer);
    if FirstImageFlat(body) && DroppedBare(body, false) {
      WantedFromRoot(feedId, offer);
      FlatOffer(feedId, offer);
      FieldsConcat(root.kids, KidsKept(body, false), casts);
      FieldsConcat(root.kids, KidsWanted(body, false), casts);
      SameTail(FieldsOfAll(root.kids, casts), FieldsOfAll(KidsKept(body, false), casts),
               FieldsOfAll(KidsWanted(body, false), casts));
      SameFields(body, false, casts);
    } else {
      MissesCount(feedId, offer);
      var images :| Count(delivered, images) > Count(wanted, images);
      DeliveredHasOneOffer(feedId, offer);
      WantedHasOneOffer(feedId, offer);
      FieldsCount(delivered.kids, casts, images);
      FieldsCount(wanted.kids, casts, images);
    }
  }

  // ---------- one offer ----------

  /** With given options, an offer leads to what it should exactly when its content is right for them. */
  lemma {:induction false} DocumentExact(feedId: string, offer: Content, opts: Options)
    requires offer.Elem? && !HasOffer(offer.body)
    ensures DocumentOf(OfferDelivered(feedId, offer), opts) == DocumentOf(OfferWanted(feedId, offer), opts) <==>
            Right(offer.body, opts)
  {
    WantedPasses(feedId, offer, opts);
    SameDocument(feedId, offer, opts.casts);
    DeliveredPassesInTheEnd(feedId, offer, opts);
    if FirstImageFlat(offer.body) {
      DeliveredPasses(feedId, offer, opts);
    }
  }

  /** Conversions that never succeed. */
  const NO_CASTS := Casts(_ => None, _ => None)

  /** Without conversions, different texts stay different. */
  lemma {:induction false} WholeIsSame(c: Content, seen: bool)
    ensures SameValues(c, seen, NO_CASTS) <==> ValuesWhole(c, seen)
  {
    match c
    case End =>
    case Chars(_, rest) => WholeIsSame(rest, seen);
    case Elem(name, _, _, body, rest) =>
      if name == "image" && seen {
        WholeIsSame(rest, true);
      } else {
        KeptIsLast(body, "", seen);
        TextExact(body, seen);
        WholeIsSame(body, seen);
        WholeIsSame(rest, SeenAfter(seen, name, body));
      }
  }

  lemma {:induction false} WholeIsEnough(c: Content, seen: bool, casts: Casts)
    requires ValuesWhole(c, seen)
    ensures SameValues(c, seen, casts)
  {
    match c
    case End =>
    case Chars(_, rest) => WholeIsEnough(rest, seen, casts);
    case Elem(name, _, _, body, rest) =>
      if name == "image" && seen {
        WholeIsEnough(rest, true, casts);
      } else {
        WholeIsEnough(body, seen, casts);
        WholeIsEnough(rest, SeenAfter(seen, name, body), casts);
      }
  }

  lemma {:induction false} RightForAll(body: Content)
    requires !HasOffer(body)
    ensures (forall opts: Options :: Right(body, opts)) <==> Interchangeable(body)
  {
    if Interchangeable(body) {
      forall opts: Options
        ensures Right(body, opts)
      {
        WholeIsEnough(body, false, opts.casts);
        FlatPasses(body, opts);
      }
    }
    if forall opts: Options :: Right(body, opts) {
      assert Right(body, Options(NO_CASTS, false, false));
      assert Right(body, Options(NO_CASTS, true, false));
      assert Right(body, Options(NO_CASTS, false, true));
      WholeIsSame(body, false);
      FlatPasses(body, Options(NO_CASTS, true, false));
      FlatPasses(body, Options(NO_CASTS, false, true));
    }
  }

  /**
   Whatever the conversions and the filters, an offer leads to what it should if and only if it is interchangeable.
   */
  lemma {:induction false} DocumentExactForAll(feedId: string, offer: Content)
    requires offer.Elem? && !HasOffer(offer.body)
    ensures (forall opts: Options ::
               DocumentOf(OfferDelivered(feedId, offer), opts) == DocumentOf(OfferWanted(feedId, offer), opts)) <==>
            Interchangeable(offer.body)
  {
    RightForAll(offer.body);
    forall opts: Options
      ensures DocumentOf(OfferDelivered(feedId, offer), opts) == DocumentOf(OfferWanted(feedId, offer), opts) <==>
              Right(offer.body, opts)
    {
      DocumentExact(feedId, offer, opts);
    }
  }

  // ---------- the whole feed ----------

  predicate AllRight(c: Content, opts: Options)
  {
    match c
    case End => true
    case Chars(_, rest) => AllRight(rest, opts)
    case Elem(name, _, _, body, rest) =>
      && (if name == "offer" then Right(c.body, opts) else AllRight(body, opts))
      && AllRight(rest, opts)
  }

  predicate AllInterchangeable(c: Content) {
    match c
    case End => true
    case Chars(_, rest) => AllInterchangeable(rest)
    case Elem(name, _, _, body, rest) =>
      (if name == "offer" then Interchangeable(body) else AllInterchangeable(body)) && AllInterchangeable(rest)
  }

  lemma {:induction false} SameDocuments(feedId: string, c: Content, opts: Options)
    requires NoNestedOffer(c)
    ensures |FeedDelivered(feedId, c)| == |FeedWanted(feedId, c)|
    ensures DocumentsOf(FeedDelivered(feedId, c), opts) == DocumentsOf(FeedWanted(feedId, c), opts) <==>
            AllRight(c, opts)
  {
    SameFeeds(feedId, c);
    match c
    case End =>
    case Chars(_, rest) => SameDocuments(feedId, rest, opts);
    case Elem(name, _, _, body, rest) =>
      SameDocuments(feedId, rest, opts);
      var a, b;
      if name == "offer" {
        DocumentExact(feedId, c, opts);
        a, b := [OfferDelivered(feedId, c)], [OfferWanted(feedId, c)];
        assert DocumentsOf(a, opts) == [DocumentOf(a[0], opts)] && DocumentsOf(b, opts) == [DocumentOf(b[0], opts)];
      } else {
        SameDocuments(feedId, body, opts);
        a, b := FeedDelivered(feedId, body), FeedWanted(feedId, body);
      }
      var x, y := FeedDelivered(feedId, rest), FeedWanted(feedId, rest);
      DocumentsConcat(a, x, opts);
      DocumentsConcat(b, y, opts);
      SameParts(DocumentsOf(a, opts), DocumentsOf(b, opts), DocumentsOf(x, opts), DocumentsOf(y, opts));
  }

  /**
   For every feed and all options: what the offers handed over amount to, one by one, is what the wanted ones
   amount to, if and only if no offer is inside an offer and each is right for these options.
   */
  lemma {:induction false} DocumentsExactly(feedId: string, c: Content, opts: Options)
    ensures After(IDLE, feedId, c).Some?
    ensures DocumentsOf(After(IDLE, feedId, c).value.delivered, opts) == DocumentsOf(FeedWanted(feedId, c), opts) <==>
            NoNestedOffer(c) && AllRight(c, opts)
  {
    OneCallbackEach(IDLE, feedId, c);
    WantedLength(feedId, c);
    if NoNestedOffer(c) {
      OffersAreIndependent(IDLE, feedId, c);
      SameDocuments(feedId, c, opts);
      assert [] + FeedDelivered(feedId, c) == FeedDelivered(feedId, c);
    }
  }

  lemma {:induction false} AllRightForAll(c: Content)
    requires NoNestedOffer(c)
    ensures AllInterchangeable(c) ==> forall opts: Options :: AllRight(c, opts)
    ensures (forall opts: Options :: AllRight(c, opts)) ==> AllInterchangeable(c)
  {
    match c
    case End =>
    case Chars(_, rest) =>
      AllRightForAll(rest);
      if !AllInterchangeable(rest) {
        var opts: Options :| !AllRight(rest, opts);
        assert !AllRight(c, opts);
      }
    case Elem(name, _, _, body, rest) =>
      AllRightForAll(rest);
      if name == "offer" {
        RightForAll(c.body);
        assert forall opts: Options ::
            AllRight(c, opts) == (Right(c.body, opts) && AllRight(rest, opts));
      } else {
        AllRightForAll(body);
        assert forall opts: Options ::
            AllRight(c, opts) == (AllRight(body, opts) && AllRight(rest, opts));
      }
  }

  /** The same for all options at once, as a condition on the content alone. */
  lemma {:induction false} DocumentsExactlyForAll(feedId: string, c: Content)
    ensures After(IDLE, feedId, c).Some?
    ensures var delivered, wanted := After(IDLE, feedId, c).value.delivered, FeedWanted(feedId, c);
      (forall opts: Options :: DocumentsOf(delivered, opts) == DocumentsOf(wanted, opts)) <==>
      NoNestedOffer(c) && AllInterchangeable(c)
  {
    var none := Options(NO_CASTS, false, false);
    DocumentsExactly(feedId, c, none);
    var delivered, wanted := After(IDLE, feedId, c).value.delivered, FeedWanted(feedId, c);
    forall opts: Options
      ensures DocumentsOf(delivered, opts) == DocumentsOf(wanted, opts) <==>
              NoNestedOffer(c) && AllRight(c, opts)
    {
      DocumentsExactly(feedId, c, opts);
    }
    if !NoNestedOffer(c) {
      assert DocumentsOf(delivered, none) != DocumentsOf(wanted, none);
    } else {
      AllRightForAll(c);
      if forall opts: Options :: DocumentsOf(delivered, opts) == DocumentsOf(wanted, opts) {
        forall opts: Options
          ensures AllRight(c, opts)
        {
          assert DocumentsOf(delivered, opts) == DocumentsOf(wanted, opts);
        }
      }
    }
  }

  // ---------- offers that do not lead to what they should, and one that does ----------

  /** A text that is reported in two chunks: the document holds the second. */
  lemma {:induction false} DescriptionInTwoChunks(feedId: string, casts: Casts)
    ensures var offer := Around("offer", Around("description", Chars("a", Chars("b", End)), End), End);
      var before, opts := FieldsOfAll(OfferRoot(feedId, [], "").kids, casts), Options(casts, false, false);
      && DocumentOf(OfferWanted(feedId, offer), opts)
         == Some(before + [Field("description", Scalar(ScalarOf("ab", casts)))])
      && DocumentOf(OfferDelivered(feedId, offer), opts)
         == Some(before + [Field("description", Scalar(ScalarOf("b", casts)))])
  {
    hide OfferDelivered, OfferWanted, Renamed, ScalarOf, FieldsOfAll, Acceptable, NoOffers;
    var root := OfferRoot(feedId, [], "");
    TextInTwoChunks(feedId);
    assert Renamed("description") == "description" by { NothingRenamed("description"); }
    RootHasNoOffers([], feedId, "");
    UnfilteredOffer(root, "description", "ab", casts);
    UnfilteredOffer(root, "description", "b", casts);
  }

  /** A root with one more leaf. */
  lemma {:induction false} UnfilteredOffer(root: Tree, name: string, data: string, casts: Casts)
    requires root.name == "offer" && NoOffers(root.kids) && name != "offer"
    ensures DocumentOf(root.(kids := root.kids + [Leaf(name, data)]), Options(casts, false, false))
         == Some(FieldsOfAll(root.kids, casts) + [Field(Renamed(name), Scalar(ScalarOf(data, casts)))])
  {
    var t := root.(kids := root.kids + [Leaf(name, data)]);
    LeafField(root.kids, name, data, casts);
    NoOffersConcat(root.kids, [Leaf(name, data)]);
    assert [Leaf(name, data)][1..] == [];
    OfferFilters(t, Options(casts, false, false));
  }

  lemma {:induction false} LeafField(kids: seq<Tree>, name: string, data: string, casts: Casts)
    ensures FieldsOfAll(kids + [Leaf(name, data)], casts)
         == FieldsOfAll(kids, casts) + [Field(Renamed(name), Scalar(ScalarOf(data, casts)))]
  {
    FieldsConcat(kids, [Leaf(name, data)], casts);
    assert [Leaf(name, data)][1..] == [];
  }

  lemma {:induction false} NothingRenamed(name: string)
    requires '-' !in name
    ensures Renamed(name) == name
  {
    if name == "" {
    } else {
      assert name[0] in name;
      NothingRenamed(name[1..]);
      assert name == [name[0]] + name[1..];
    }
  }

  /** A sale whose type is reported in two chunks is rejected. */
  lemma {:induction false} SaleInTwoChunks(feedId: string, casts: Casts)
    ensures var offer := Around("offer", Around("type", Chars("про", Chars("дажа", End)), End), End);
      var opts := Options(casts, true, false);
      DocumentOf(OfferWanted(feedId, offer), opts).Some? && DocumentOf(OfferDelivered(feedId, offer), opts) == None
  {
    var text := Chars("про", Chars("дажа", End));
    var body := Around("type", text, End);
    var offer := Around("offer", body, End);
    var opts := Options(casts, true, false);
    assert TextWanted(text) == "продажа" && LastText(text, false) == "дажа";
    assert |"дажа"| != |"продажа"|;
    WantedPasses(feedId, offer, opts);
    DeliveredPasses(feedId, offer, opts);
  }

  /**
   A category behind an image with an image inside: it is right below the offer and of the wrong kind, but it ends up
   in the image that is never left, where the filter does not look.
   */
  lemma {:induction false} CategoryInOpenImage(feedId: string, casts: Casts)
    ensures var category := Around("category", Chars("x", End), End);
      var offer := Around("offer", Around("image", Empty("image", End), category), End);
      var before, opts := FieldsOfAll(OfferRoot(feedId, [], "").kids, casts), Options(casts, true, true);
      && DocumentOf(OfferWanted(feedId, offer), opts) == None
      && DocumentOf(OfferDelivered(feedId, offer), opts)
         == Some(before + [Field("image", Document([Field("image", Scalar(ScalarOf("", casts))),
                                                    Field("category", Scalar(ScalarOf("x", casts)))]))])
  {
    var category := Around("category", Chars("x", End), End);
    var body := Around("image", Empty("image", End), category);
    var offer := Around("offer", body, End);
    var opts := Options(casts, true, true);
    hide OfferDelivered, OfferWanted, Acceptable, FieldsOfAll, SalesOnly, FlatsOnly, Renamed, ScalarOf;
    WantedPasses(feedId, offer, opts);
    assert TextWanted(Chars("x", End)) == "x" + TextWanted(End) == "x";
    assert !FlatsWanted(category) && !PassesWanted(body, opts);
    var root := OfferRoot(feedId, [], "");
    CategoryTree(feedId);
    CategoryField(root.kids, casts);
    RootHasNoOffers([], feedId, "");
    CategoryPasses(root.kids);
    DeliveredIsFiltered(feedId, offer, opts);
    var kids := root.kids + [Tree("image", "", [Leaf("image", ""), Leaf("category", "x")])];
    assert FieldsOf(root.(kids := kids), casts) == FieldsOfAll(kids, casts);
  }

  lemma {:induction false} CategoryPasses(kids: seq<Tree>)
    requires SalesOnly(kids) && FlatsOnly(kids)
    ensures var t := Tree("image", "", [Leaf("image", ""), Leaf("category", "x")]);
      SalesOnly(kids + [t]) && FlatsOnly(kids + [t])
  {
    var image, leaf := Leaf("image", ""), Leaf("category", "x");
    var t := Tree("image", "", [image, leaf]);
    assert [leaf][1..] == [] && [image, leaf][1..] == [leaf] && [t][1..] == [];
    assert SalesOnly([leaf]) && SalesOnly([image, leaf]);
    SalesConcat(kids, [t]);
    FlatsConcat(kids, [t]);
  }

  lemma {:induction false} CategoryTree(feedId: string)
    ensures var category := Around("category", Chars("x", End), End);
      var offer := Around("offer", Around("image", Empty("image", End), category), End);
      var root := OfferRoot(feedId, [], "");
      OfferDelivered(feedId, offer)
      == root.(kids := root.kids + [Tree("image", "", [Leaf("image", ""), Leaf("category", "x")])])
  {
    var inner, category := Empty("image", End), Around("category", Chars("x", End), End);
    var body := Around("image", inner, category);
    var offer := Around("offer", body, End);
    var root, image, leaf := OfferRoot(feedId, [], ""), Leaf("image", ""), Leaf("category", "x");
    PoppedTwice(root, image, leaf);
    var one, two := [root, image], [root, image.(kids := [image])];
    assert Fill(one, inner, false) == two;
    assert WithTop(two + [Leaf("category", "")], leaf) == two + [leaf];
    assert Fill(two + [Leaf("category", "")], Chars("x", End), true) == two + [leaf];
    assert Fill(two, category, true) == [root, image.(kids := [image, leaf])];
    assert [root] + [image] == one;
    assert Fill([root], body, false) == [root, image.(kids := [image, leaf])];
    ContentFills(Opened(feedId, offer, []), feedId, body);
    assert Collapse([root, image.(kids := [image, leaf])])
        == root.(kids := root.kids + [image.(kids := [image, leaf])]);
  }

  lemma {:induction false} CategoryField(kids: seq<Tree>, casts: Casts)
    ensures FieldsOfAll(kids + [Tree("image", "", [Leaf("image", ""), Leaf("category", "x")])], casts)
         == FieldsOfAll(kids, casts)
            + [Field("image", Document([Field("image", Scalar(ScalarOf("", casts))),
                                        Field("category", Scalar(ScalarOf("x", casts)))]))]
  {
    hide Renamed, ScalarOf;
    var image, leaf := Leaf("image", ""), Leaf("category", "x");
    var t := Tree("image", "", [image, leaf]);
    NothingRenamed("image");
    NothingRenamed("category");
    LeafField([image], "category", "x", casts);
    LeafField([], "image", "", casts);
    assert [] + [image] == [image] && [image] + [leaf] == [image, leaf];
    assert FieldsOfAll([], casts) == [];
    assert FieldsOfAll([image], casts) == [Field("image", Scalar(ScalarOf("", casts)))];
    var inner := [Field("image", Scalar(ScalarOf("", casts))), Field("category", Scalar(ScalarOf("x", casts)))];
    assert FieldsOfAll([image, leaf], casts) == inner;
    assert FieldsOf(t, casts) == [Field("image", Document(inner))];
    FieldsConcat(kids, [t], casts);
    assert [t][1..] == [];
  }

  /** The text that a later image replaces does not matter if its element has children: the document is right. */
  lemma {:induction false} TextThatGoesNowhere()
    ensures var plan := Chars("a", Empty("image", Around("image", Chars("b", End), End)));
      var body := Around("plan", plan, End);
      Interchangeable(body) && !Clean(body)
  {
    var dropped := Around("image", Chars("b", End), End);
    var plan := Chars("a", Empty("image", dropped));
    assert LastReported(dropped, true) == TrailingDropped(dropped, true) == Some("b");
    assert TrailingDropped(plan, false) == Some("b") && TextWanted(plan) == "a";
    assert !EndsWhole(plan, false);
  }
}
