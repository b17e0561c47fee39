/**
 offer_parser::parse as the worker threads share it: one thread per feed, a mutex, a counter whose increment is
 a read and a write, and the collection. Any thread may take the next step at any time.
 */
module Workers {
  import opened Bson

  type Doc = seq<Field>

  /** What bson_from_offer makes of an offer: a document, or an exception. */
  type Offer = Option<Doc>

  /** Where a thread is in parse; `Counting` holds the value it has read from the counter. */
  datatype Pc = Outside | Locked | Inserted | Counting(read: int) | Counted

  /** A thread with the offers that its feed has left; the first is in hand from `Locked` to `Counted`. */
  datatype Worker = Worker(offers: seq<Offer>, pc: Pc)

  datatype Entry = Entry(worker: nat, doc: Doc)

  datatype System = System(workers: seq<Worker>, lock: Option<nat>, count: int, collection: seq<Entry>)

  const UINT64 := 0x1_0000_0000_0000_0000

  predicate Enabled(s: System, i: nat) {
    i < |s.workers| && (s.workers[i].pc == Outside ==> s.lock == None && s.workers[i].offers != [])
  }

  /** The next step of thread `i`. */
  function Next(s: System, i: nat): System
    requires Enabled(s, i)
  {
    var w := s.workers[i];
    match w.pc
    case Outside => s.(lock := Some(i), workers := s.workers[i := w.(pc := Locked)])
    case Locked =>
      if w.offers == [] then s
      else if w.offers[0].None? then
        // the exception unlocks on its way to the handler
        s.(lock := None, workers := s.workers[i := Worker(w.offers[1..], Outside)])
      else
        s.(collection := s.collection + [Entry(i, w.offers[0].value)], workers := s.workers[i := w.(pc := Inserted)])
    case Inserted => s.(workers := s.workers[i := w.(pc := Counting(s.count))])
    case Counting(read) => s.(count := (read + 1) % UINT64, workers := s.workers[i := w.(pc := Counted)])
    case Counted =>
      if w.offers == [] then s
      else s.(lock := None, workers := s.workers[i := Worker(w.offers[1..], Outside)])
  }

  /** All threads before their first offer. */
  function Initial(feeds: seq<seq<Offer>>): System {
    System(seq(|feeds|, i requires 0 <= i < |feeds| => Worker(feeds[i], Outside)), None, 0, [])
  }

  /** A run under any schedule of enabled threads. */
  ghost predicate Reaches(s: System, schedule: seq<nat>, t: System)
    decreases |schedule|
  {
    if schedule == [] then s == t else Enabled(s, schedule[0]) && Reaches(Next(s, schedule[0]), schedule[1..], t)
  }

  /** The documents of a feed's acceptable offers, in feed order. */
  function Accepted(offers: seq<Offer>): seq<Doc> {
    if offers == [] then []
    else (if offers[0].Some? then [offers[0].value] else []) + Accepted(offers[1..])
  }

  /** What thread `i` has put into the collection, in order. */
  function InsertedBy(collection: seq<Entry>, i: nat): seq<Doc> {
    if collection == [] then []
    else
      var n := |collection| - 1;
      InsertedBy(collection[..n], i) + if collection[n].worker == i then [collection[n].doc] else []
  }

  /** The offers whose documents are still to be inserted. */
  function StillDue(w: Worker): seq<Offer> {
    if w.pc in {Outside, Locked} || w.offers == [] then w.offers else w.offers[1..]
  }

  /** A thread that is inside parse has an offer in hand; past the insert it was an acceptable one. */
  ghost predicate InHand(w: Worker) {
    && (w.pc != Outside ==> w.offers != [])
    && (w.pc !in {Outside, Locked} ==> w.offers[0].Some?)
  }

  /** Mutual exclusion, and a counter that lags behind the collection only while its holder is about to increment it. */
  ghost predicate Safe(s: System) {
    && (forall i | 0 <= i < |s.workers| :: InHand(s.workers[i]) && (s.workers[i].pc != Outside <==> s.lock == Some(i)))
    && (s.lock.Some? ==> s.lock.value < |s.workers|)
    && (s.lock.None? ==> s.count == |s.collection| % UINT64)
    && (s.lock.Some? ==>
          match s.workers[s.lock.value].pc
          case Inserted => s.count == (|s.collection| - 1) % UINT64
          case Counting(read) => s.count == (|s.collection| - 1) % UINT64 && read == s.count
          case _ => s.count == |s.collection| % UINT64)
    && (forall k | 0 <= k < |s.collection| :: s.collection[k].worker < |s.workers|)
  }

  /** For each feed, what has been inserted together with what is still due are its acceptable offers, in order. */
  ghost predicate Faithful(s: System, feeds: seq<seq<Offer>>) {
    && |s.workers| == |feeds|
    && forall i | 0 <= i < |feeds| ::
         InsertedBy(s.collection, i) + Accepted(StillDue(s.workers[i])) == Accepted(feeds[i])
  }

  lemma {:induction false} InitialIsGood(feeds: seq<seq<Offer>>)
    ensures Safe(Initial(feeds)) && Faithful(Initial(feeds), feeds)
  {
  }

  lemma {:induction false} NextIsSafe(s: System, i: nat)
    requires Safe(s) && Enabled(s, i)
    ensures Safe(Next(s, i))
  {
    var t := Next(s, i);
    if s.workers[i].pc.Counting? {
      assert (s.workers[i].pc.read + 1) % UINT64 == |s.collection| % UINT64;
    }
    forall k | 0 <= k < |t.workers|
      ensures InHand(t.workers[k]) && (t.workers[k].pc != Outside <==> t.lock == Some(k))
    {
      assert InHand(s.workers[k]) && InHand(s.workers[i]);
    }
  }

  lemma {:induction false} NextIsFaithful(s: System, i: nat, feeds: seq<seq<Offer>>)
    requires Safe(s) && Faithful(s, feeds) && Enabled(s, i)
    ensures Faithful(Next(s, i), feeds)
  {
    var t := Next(s, i);
    forall k | 0 <= k < |feeds|
      ensures InsertedBy(t.collection, k) + Accepted(StillDue(t.workers[k])) == Accepted(feeds[k])
    {
      assert InHand(s.workers[i]);
      OneFeed(s, i, k);
    }
  }

  /** A step of thread `i`, seen from thread `k`. */
  lemma {:induction false} OneFeed(s: System, i: nat, k: nat)
    requires Enabled(s, i) && InHand(s.workers[i]) && k < |s.workers|
    ensures var t := Next(s, i);
      && |t.workers| == |s.workers|
      && InsertedBy(t.collection, k) + Accepted(StillDue(t.workers[k]))
      == InsertedBy(s.collection, k) + Accepted(StillDue(s.workers[k]))
  {
    var w := s.workers[i];
    if w.pc == Locked && w.offers[0].Some? {
      var t, before, d, after := Next(s, i), InsertedBy(s.collection, k), w.offers[0].value, Accepted(w.offers[1..]);
      assert t.collection[..|s.collection|] == s.collection;
      assert before + [] == before;
      assert (before + [d]) + after == before + ([d] + after);
    }
  }

  /** Whatever the schedule, every reachable system is safe and faithful. */
  lemma {:induction false} EveryRunIsGood(s: System, schedule: seq<nat>, t: System, feeds: seq<seq<Offer>>)
    requires Safe(s) && Faithful(s, feeds) && Reaches(s, schedule, t)
    ensures Safe(t) && Faithful(t, feeds)
    decreases |schedule|
  {
    if schedule == [] {
    } else {
      NextIsSafe(s, schedule[0]);
      NextIsFaithful(s, schedule[0], feeds);
      EveryRunIsGood(Next(s, schedule[0]), schedule[1..], t, feeds);
    }
  }

  /** Whenever the lock is free the counter is the number of documents; no increment is lost. */
  lemma {:induction false} CountWhenUnlocked(feeds: seq<seq<Offer>>, schedule: seq<nat>, t: System)
    requires Reaches(Initial(feeds), schedule, t) && t.lock == None
    ensures t.count == |t.collection| % 0x1_0000_0000_0000_0000
  {
    InitialIsGood(feeds);
    EveryRunIsGood(Initial(feeds), schedule, t, feeds);
  }

  /** All threads have been joined. */
  predicate Finished(s: System) {
    forall i | 0 <= i < |s.workers| :: s.workers[i] == Worker([], Outside)
  }

  /**
   After the joins the collection is an interleaving of each feed's acceptable offers in feed order, and is counted.
   */
  lemma {:induction false} AfterTheJoins(feeds: seq<seq<Offer>>, schedule: seq<nat>, t: System)
    requires Reaches(Initial(feeds), schedule, t) && Finished(t)
    ensures forall i | 0 <= i < |feeds| :: InsertedBy(t.collection, i) == Accepted(feeds[i])
    ensures forall k | 0 <= k < |t.collection| :: t.collection[k].worker < |feeds|
    ensures t.count == |t.collection| % 0x1_0000_0000_0000_0000
  {
    InitialIsGood(feeds);
    EveryRunIsGood(Initial(feeds), schedule, t, feeds);
    forall i | 0 <= i < |feeds|
      ensures InsertedBy(t.collection, i) == Accepted(feeds[i])
    {
      assert t.workers[i] == Worker([], Outside);
      assert InsertedBy(t.collection, i) + [] == InsertedBy(t.collection, i);
    }
  }

  /** Until all threads are through, one of them can take a step: the lock is never kept by an exception. */
  lemma {:induction false} NeverStuck(feeds: seq<seq<Offer>>, schedule: seq<nat>, t: System)
    requires Reaches(Initial(feeds), schedule, t)
    ensures Finished(t) || exists i :: Enabled(t, i)
  {
    InitialIsGood(feeds);
    EveryRunIsGood(Initial(feeds), schedule, t, feeds);
    if t.lock.Some? {
      assert Enabled(t, t.lock.value);
    } else if !Finished(t) {
      var i :| 0 <= i < |t.workers| && t.workers[i] != Worker([], Outside);
      assert Enabled(t, i);
    }
  }

  // ---------- every schedule comes to an end ----------

  /** The most steps that a thread has left: five for each offer, less those it has taken with the one in hand. */
  function StepsLeft(w: Worker): int {
    5 * |w.offers| - match w.pc
                     case Outside => 0
                     case Locked => 1
                     case Inserted => 2
                     case Counting(_) => 3
                     case Counted => 4
  }

  function AllStepsLeft(ws: seq<Worker>): int {
    if ws == [] then 0 else StepsLeft(ws[0]) + AllStepsLeft(ws[1..])
  }

  function AllOffers(feeds: seq<seq<Offer>>): nat {
    if feeds == [] then 0 else |feeds[0]| + AllOffers(feeds[1..])
  }

  lemma {:induction false} StepsLeftAfterUpdate(ws: seq<Worker>, i: nat, w: Worker)
    requires i < |ws|
    ensures AllStepsLeft(ws[i := w]) == AllStepsLeft(ws) - StepsLeft(ws[i]) + StepsLeft(w)
  {
    if i == 0 {
      assert ws[0 := w][1..] == ws[1..];
    } else {
      assert ws[i := w][1..] == ws[1..][i - 1 := w];
      StepsLeftAfterUpdate(ws[1..], i - 1, w);
    }
  }

  lemma {:induction false} StepsLeftInitially(feeds: seq<seq<Offer>>)
    ensures AllStepsLeft(Initial(feeds).workers) == 5 * AllOffers(feeds)
  {
    if feeds == [] {
      assert Initial(feeds).workers == [];
    } else {
      assert Initial(feeds).workers[1..] == Initial(feeds[1..]).workers;
      StepsLeftInitially(feeds[1..]);
    }
  }

  lemma {:induction false} NoneBelowZero(ws: seq<Worker>)
    requires forall i | 0 <= i < |ws| :: InHand(ws[i])
    ensures AllStepsLeft(ws) >= 0
  {
    if ws == [] {
    } else {
      assert InHand(ws[0]);
      NoneBelowZero(ws[1..]);
    }
  }

  lemma {:induction false} NextTakesOff(s: System, i: nat)
    requires Safe(s) && Enabled(s, i)
    ensures AllStepsLeft(Next(s, i).workers) < AllStepsLeft(s.workers)
  {
    assert InHand(s.workers[i]);
    StepsLeftAfterUpdate(s.workers, i, Next(s, i).workers[i]);
  }

  lemma {:induction false} RunTakesOff(s: System, schedule: seq<nat>, t: System)
    requires Safe(s) && Reaches(s, schedule, t)
    ensures Safe(t) && |schedule| + AllStepsLeft(t.workers) <= AllStepsLeft(s.workers)
    decreases |schedule|
  {
    if schedule == [] {
    } else {
      NextIsSafe(s, schedule[0]);
      NextTakesOff(s, schedule[0]);
      RunTakesOff(Next(s, schedule[0]), schedule[1..], t);
    }
  }

  /** No schedule goes on for longer than five steps an offer; so, as none is ever stuck, the joins are reached. */
  lemma {:induction false} EveryScheduleEnds(feeds: seq<seq<Offer>>, schedule: seq<nat>, t: System)
    requires Reaches(Initial(feeds), schedule, t)
    ensures |schedule| <= 5 * AllOffers(feeds)
    ensures |schedule| == 5 * AllOffers(feeds) ==> Finished(t)
  {
    InitialIsGood(feeds);
    RunTakesOff(Initial(feeds), schedule, t);
    StepsLeftInitially(feeds);
    NoneBelowZero(t.workers);
    if |schedule| == 5 * AllOffers(feeds) && !Finished(t) {
      NeverStuck(feeds, schedule, t);
      var i :| Enabled(t, i);
      NextTakesOff(t, i);
      NextIsSafe(t, i);
      NoneBelowZero(Next(t, i).workers);
    }
  }
}
