/** The whole run of app/main.cpp: one thread parses each feed, and all store into one collection. */
module Application {
  import opened Bson
  import opened Feed
  import opened FeedExact
  import opened FeedDocument
  import opened OfferDocument
  import opened OfferParsers
  import opened Workers

  /** What becomes of one offer inside parse: its document, or an exception from the filter or from the insert. */
  ghost function Outcome(t: Tree, opts: Options, works: seq<Field> -> bool): Offer {
    match BsonFromOffer(t, opts)
    case Ok(Some(doc)) => if works(doc) then Some(doc) else None
    case _ => None
  }

  ghost function Outcomes(ts: seq<Tree>, opts: Options, works: seq<Field> -> bool): seq<Offer> {
    if ts == [] then [] else [Outcome(ts[0], opts, works)] + Outcomes(ts[1..], opts, works)
  }

  /** What a thread gets into the collection is what the parser on its own would have stored. */
  lemma {:induction false} AcceptedIsStored(ts: seq<Tree>, opts: Options, works: seq<Field> -> bool)
    ensures Accepted(Outcomes(ts, opts, works)) == StoredAll(ts, opts, works)
  {
    if ts == [] {
    } else {
      AcceptedIsStored(ts[1..], opts, works);
      BsonFromOfferExactly(ts[0], opts);
      var first, more := Outcome(ts[0], opts, works), Outcomes(ts[1..], opts, works);
      assert ([first] + more)[1..] == more;
    }
  }

  /** A feed as main gets it from the agents collection: its id, and the content that the URL returns. */
  datatype Source = Source(feedId: string, content: Content)

  /** The offers that each thread comes to parse, as the SAX parser hands them over. */
  ghost function Jobs(sources: seq<Source>, opts: Options, works: seq<Field> -> bool): seq<seq<Offer>> {
    seq(|sources|, i requires 0 <= i < |sources| =>
      OneCallbackEach(IDLE, sources[i].feedId, sources[i].content);
      Outcomes(After(IDLE, sources[i].feedId, sources[i].content).value.delivered, opts, works))
  }

  /**
   However the threads are scheduled: once all are joined, each feed has contributed, in document order, exactly the
   documents of the offers that its parser handed over, as far as they pass the filters and their inserts work; and
   these are the documents of its wanted offers if none is nested and each is right for the options.
   */
  lemma {:induction false} CollectionAfterTheRun(sources: seq<Source>, opts: Options, works: seq<Field> -> bool,
                                                 schedule: seq<nat>, t: System, i: nat)
    requires Reaches(Initial(Jobs(sources, opts, works)), schedule, t) && Finished(t)
    requires i < |sources|
    ensures After(IDLE, sources[i].feedId, sources[i].content).Some?
    ensures InsertedBy(t.collection, i)
         == StoredAll(After(IDLE, sources[i].feedId, sources[i].content).value.delivered, opts, works)
    ensures NoNestedOffer(sources[i].content) && AllRight(sources[i].content, opts) ==>
      InsertedBy(t.collection, i) == StoredAll(FeedWanted(sources[i].feedId, sources[i].content), opts, works)
  {
    var feedId, content := sources[i].feedId, sources[i].content;
    DocumentsExactly(feedId, content, opts);
    var delivered := After(IDLE, feedId, content).value.delivered;
    AfterTheJoins(Jobs(sources, opts, works), schedule, t);
    AcceptedIsStored(delivered, opts, works);
    if NoNestedOffer(content) && AllRight(content, opts) {
      SameDocumentsSameStored(delivered, FeedWanted(feedId, content), opts, works);
    }
  }
}
