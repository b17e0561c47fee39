/**
 The bottom-up merge sort that the three sort macros of utlist.h carry out in place, written as
 functions on sequences. What the macros promise (sortedness, stability, the same elements, the
 number of passes and of comparisons) is proved here, once, about these functions; UtSort proves
 that the pointer code computes them.
 */
module MergeSpec {

  /** `cmp` orders the elements of `u` as a comparison function should: totally and transitively. */
  ghost predicate Preorder<E>(u: set<E>, cmp: (E, E) -> int) {
    && (forall a, b | a in u && b in u :: cmp(a, b) <= 0 || cmp(b, a) <= 0)
    && (forall a, b, c | a in u && b in u && c in u && cmp(a, b) <= 0 && cmp(b, c) <= 0 :: cmp(a, c) <= 0)
  }

  ghost predicate Sorted<E>(s: seq<E>, cmp: (E, E) -> int) {
    forall i, j | 0 <= i < j < |s| :: cmp(s[i], s[j]) <= 0
  }

  ghost predicate Within<E>(s: seq<E>, u: set<E>) {
    forall x | x in s :: x in u
  }

  function Elements<E>(s: seq<E>): set<E> {
    set x | x in s
  }

  function Min(a: nat, b: nat): nat {
    if a <= b then a else b
  }

  // ---------- the algorithm ----------

  /** One merge: a tie takes the element of the left run. */
  ghost function Merge<E>(p: seq<E>, q: seq<E>, cmp: (E, E) -> int): (r: seq<E>)
    ensures |r| == |p| + |q|
  {
    if p == [] then
      q
    else if q == [] then
      p
    else if cmp(p[0], q[0]) <= 0 then
      [p[0]] + Merge(p[1..], q, cmp)
    else
      [q[0]] + Merge(p, q[1..], cmp)
  }

  /** The number of calls of `cmp` in that merge. */
  ghost function MergeCost<E>(p: seq<E>, q: seq<E>, cmp: (E, E) -> int): (c: nat)
    ensures c == 0 || c < |p| + |q|
  {
    if p == [] || q == [] then
      0
    else if cmp(p[0], q[0]) <= 0 then
      1 + MergeCost(p[1..], q, cmp)
    else
      1 + MergeCost(p, q[1..], cmp)
  }

  /** One pass: neighbouring runs of length `k` are merged from left to right. */
  ghost function Pass<E>(s: seq<E>, k: nat, cmp: (E, E) -> int): (r: seq<E>)
    requires k > 0
    ensures |r| == |s|
  {
    if s == [] then
      []
    else
      var m, e := Min(k, |s|), Min(2 * k, |s|);
      Merge(s[..m], s[m..e], cmp) + Pass(s[e..], k, cmp)
  }

  ghost function PassCost<E>(s: seq<E>, k: nat, cmp: (E, E) -> int): (c: nat)
    requires k > 0
    ensures c == 0 || c < |s|
  {
    if s == [] then
      0
    else
      var m, e := Min(k, |s|), Min(2 * k, |s|);
      MergeCost(s[..m], s[m..e], cmp) + PassCost(s[e..], k, cmp)
  }

  /** The number of merges in a pass over `n` elements. */
  ghost function Merges(n: nat, k: nat): nat
    requires k > 0
  {
    if n == 0 then 0 else 1 + Merges(n - Min(2 * k, n), k)
  }

  /** Passes with run length `k`, `2 * k`, ... until a pass needs no more than one merge. */
  ghost function SortFrom<E>(s: seq<E>, k: nat, cmp: (E, E) -> int): seq<E>
    requires k > 0
    decreases if |s| > 2 * k then |s| - 2 * k else 0
  {
    if Merges(|s|, k) <= 1 then
      Pass(s, k, cmp)
    else
      OneMergeWhenShort(|s|, k);
      SortFrom(Pass(s, k, cmp), 2 * k, cmp)
  }

  ghost function SortCost<E>(s: seq<E>, k: nat, cmp: (E, E) -> int): nat
    requires k > 0
    decreases if |s| > 2 * k then |s| - 2 * k else 0
  {
    if Merges(|s|, k) <= 1 then
      PassCost(s, k, cmp)
    else
      OneMergeWhenShort(|s|, k);
      PassCost(s, k, cmp) + SortCost(Pass(s, k, cmp), 2 * k, cmp)
  }

  /** The number of passes over `n` elements that start with run length `k`. */
  ghost function Passes(n: nat, k: nat): nat
    requires k > 0
    decreases if n > 2 * k then n - 2 * k else 0
  {
    if Merges(n, k) <= 1 then
      1
    else
      OneMergeWhenShort(n, k);
      1 + Passes(n, 2 * k)
  }

  ghost function MergeSort<E>(s: seq<E>, cmp: (E, E) -> int): seq<E> {
    SortFrom(s, 1, cmp)
  }

  // ---------- merges ----------

  lemma {:induction false} HeadAndTail<E>(s: seq<E>)
    requires s != []
    ensures multiset(s) == multiset{s[0]} + multiset(s[1..])
  {
    assert s == [s[0]] + s[1..];
  }

  /** A merge loses nothing and invents nothing. */
  lemma {:induction false} MergeKeepsElements<E>(p: seq<E>, q: seq<E>, cmp: (E, E) -> int)
    ensures multiset(Merge(p, q, cmp)) == multiset(p) + multiset(q)
  {
    if p == [] || q == [] {
    } else {
      if cmp(p[0], q[0]) <= 0 {
        MergeKeepsElements(p[1..], q, cmp);
        HeadAndTail(p);
      } else {
        MergeKeepsElements(p, q[1..], cmp);
        HeadAndTail(q);
      }
    }
  }

  lemma {:induction false} PassStep<E>(s: seq<E>, k: nat, a: seq<E>, b: seq<E>, c: seq<E>, cmp: (E, E) -> int)
    requires k > 0 && s != []
    requires a == s[..Min(k, |s|)] && b == s[Min(k, |s|)..Min(2 * k, |s|)] && c == s[Min(2 * k, |s|)..]
    ensures s == a + b + c
    ensures Pass(s, k, cmp) == Merge(a, b, cmp) + Pass(c, k, cmp)
    ensures PassCost(s, k, cmp) == MergeCost(a, b, cmp) + PassCost(c, k, cmp)
    ensures Merges(|s|, k) == 1 + Merges(|c|, k)
  {
  }

  lemma {:induction false} PassKeepsElements<E>(s: seq<E>, k: nat, cmp: (E, E) -> int)
    requires k > 0
    ensures multiset(Pass(s, k, cmp)) == multiset(s)
  {
    if s == [] {
    } else {
      var a, b, c := s[..Min(k, |s|)], s[Min(k, |s|)..Min(2 * k, |s|)], s[Min(2 * k, |s|)..];
      PassStep(s, k, a, b, c, cmp);
      MergeKeepsElements(a, b, cmp);
      PassKeepsElements(c, k, cmp);
    }
  }

  /** A pass needs no second merge exactly when one pair of runs is all there is. */
  lemma {:induction false} OneMergeWhenShort(n: nat, k: nat)
    requires k > 0
    ensures Merges(n, k) <= 1 <==> n <= 2 * k
  {
    var n' := n - Min(2 * k, n);
    if n > 2 * k {
      assert Merges(n, k) == 1 + Merges(n', k) && Merges(n', k) > 0;
    } else {
      assert n' == 0;
    }
  }

  /** The merge count of a pass is the ceiling of n / 2k. */
  lemma {:induction false} MergesIsCeiling(n: nat, k: nat)
    requires k > 0
    ensures n <= 2 * k * Merges(n, k)
    ensures n > 0 ==> 2 * k * (Merges(n, k) - 1) < n
  {
    if n == 0 {
    } else {
      var n' := n - Min(2 * k, n);
      MergesIsCeiling(n', k);
      assert 2 * k * Merges(n, k) == 2 * k + 2 * k * Merges(n', k);
      assert 2 * k * (Merges(n', k) - 1) == 2 * k * Merges(n', k) - 2 * k;
    }
  }

  lemma {:induction false} SortedCons<E>(least: E, rest: seq<E>, cmp: (E, E) -> int)
    requires Sorted(rest, cmp)
    requires forall x | x in rest :: cmp(least, x) <= 0
    ensures Sorted([least] + rest, cmp)
  {
  }

  /** What is below the head of a sorted sequence is below all of it. */
  lemma {:induction false} BelowSorted<E>(x: E, s: seq<E>, u: set<E>, cmp: (E, E) -> int)
    requires Preorder(u, cmp) && Within(s, u) && x in u
    requires Sorted(s, cmp) && s != [] && cmp(x, s[0]) <= 0
    ensures forall y | y in s :: cmp(x, y) <= 0
  {
    forall y | y in s
      ensures cmp(x, y) <= 0
    {
      assert s[0] in u && y in u;
    }
  }

  lemma {:induction false} SortedMerge<E>(p: seq<E>, q: seq<E>, u: set<E>, cmp: (E, E) -> int)
    requires Preorder(u, cmp) && Within(p, u) && Within(q, u)
    requires Sorted(p, cmp) && Sorted(q, cmp)
    ensures Sorted(Merge(p, q, cmp), cmp)
  {
    if p == [] || q == [] {
    } else {
      assert p[0] in u && q[0] in u;
      if cmp(p[0], q[0]) <= 0 {
        SortedMerge(p[1..], q, u, cmp);
        BelowSorted(p[0], q, u, cmp);
        MergeElements(p[1..], q, cmp);
        SortedCons(p[0], Merge(p[1..], q, cmp), cmp);
      } else {
        SortedMerge(p, q[1..], u, cmp);
        BelowSorted(q[0], p, u, cmp);
        MergeElements(p, q[1..], cmp);
        SortedCons(q[0], Merge(p, q[1..], cmp), cmp);
      }
    }
  }

  lemma {:induction false} MergeElements<E>(p: seq<E>, q: seq<E>, cmp: (E, E) -> int)
    ensures forall x | x in Merge(p, q, cmp) :: x in p || x in q
  {
    MergeKeepsElements(p, q, cmp);
    forall x | x in Merge(p, q, cmp)
      ensures x in p || x in q
    {
      assert x in multiset(Merge(p, q, cmp));
    }
  }

  /** `x` alone if `cmp` cannot tell it from `g`, and nothing otherwise. */
  ghost function Tie<E>(x: E, g: E, cmp: (E, E) -> int): seq<E> {
    if cmp(x, g) <= 0 && cmp(g, x) <= 0 then [x] else []
  }

  /** The elements of `s` that `cmp` cannot tell from `g`, in the order of `s`. */
  ghost function Ties<E>(s: seq<E>, g: E, cmp: (E, E) -> int): seq<E> {
    if s == [] then [] else Tie(s[0], g, cmp) + Ties(s[1..], g, cmp)
  }

  lemma {:induction false} Associative<E>(a: seq<E>, b: seq<E>, c: seq<E>)
    ensures a + (b + c) == (a + b) + c
  {
  }

  lemma {:induction false} TiesCons<E>(x: E, s: seq<E>, g: E, cmp: (E, E) -> int)
    ensures Ties([x] + s, g, cmp) == Tie(x, g, cmp) + Ties(s, g, cmp)
  {
    assert ([x] + s)[1..] == s;
  }

  lemma {:induction false} TiesConcat<E>(a: seq<E>, b: seq<E>, g: E, cmp: (E, E) -> int)
    ensures Ties(a + b, g, cmp) == Ties(a, g, cmp) + Ties(b, g, cmp)
  {
    if a == [] {
      assert a + b == b;
    } else {
      var t := a[1..];
      assert a + b == [a[0]] + (t + b);
      TiesCons(a[0], t + b, g, cmp);
      TiesConcat(t, b, g, cmp);
      Associative(Tie(a[0], g, cmp), Ties(t, g, cmp), Ties(b, g, cmp));
    }
  }

  lemma {:induction false} NoTies<E>(s: seq<E>, g: E, cmp: (E, E) -> int)
    requires forall x | x in s :: !(cmp(x, g) <= 0 && cmp(g, x) <= 0)
    ensures Ties(s, g, cmp) == []
  {
    if s == [] {
    } else {
      NoTies(s[1..], g, cmp);
    }
  }

  /** If something from the right run overtakes the left run, nothing left behind is its equal. */
  lemma {:induction false} NothingOvertaken<E>(p: seq<E>, b: E, g: E, u: set<E>, cmp: (E, E) -> int)
    requires Preorder(u, cmp) && Within(p, u) && b in u && g in u
    requires Sorted(p, cmp) && p != [] && cmp(p[0], b) > 0
    ensures Ties(p, g, cmp) == [] || Tie(b, g, cmp) == []
  {
    if Tie(b, g, cmp) != [] {
      forall x | x in p
        ensures !(cmp(x, g) <= 0 && cmp(g, x) <= 0)
      {
        assert p[0] in u && x in u && cmp(p[0], x) <= 0;
      }
      NoTies(p, g, cmp);
    }
  }

  lemma {:induction false} TiesTakeLeft<E>(x: E, r: seq<E>, p: seq<E>, q: seq<E>, g: E, cmp: (E, E) -> int)
    requires Ties(r, g, cmp) == Ties(p, g, cmp) + Ties(q, g, cmp)
    ensures Ties([x] + r, g, cmp) == Ties([x] + p, g, cmp) + Ties(q, g, cmp)
  {
    TiesCons(x, r, g, cmp);
    TiesCons(x, p, g, cmp);
    Associative(Tie(x, g, cmp), Ties(p, g, cmp), Ties(q, g, cmp));
  }

  lemma {:induction false} TiesTakeRight<E>(x: E, r: seq<E>, p: seq<E>, q: seq<E>, g: E, cmp: (E, E) -> int)
    requires Ties(r, g, cmp) == Ties(p, g, cmp) + Ties(q, g, cmp)
    requires Ties(p, g, cmp) == [] || Tie(x, g, cmp) == []
    ensures Ties([x] + r, g, cmp) == Ties(p, g, cmp) + Ties([x] + q, g, cmp)
  {
    TiesCons(x, r, g, cmp);
    TiesCons(x, q, g, cmp);
    Associative(Tie(x, g, cmp), Ties(p, g, cmp), Ties(q, g, cmp));
  }

  /** A merge of a sorted left run keeps the order of equals: it looks like concatenation to each class. */
  lemma {:induction false} StableMerge<E>(p: seq<E>, q: seq<E>, g: E, u: set<E>, cmp: (E, E) -> int)
    requires Preorder(u, cmp) && Within(p, u) && Within(q, u) && g in u
    requires Sorted(p, cmp)
    ensures Ties(Merge(p, q, cmp), g, cmp) == Ties(p, g, cmp) + Ties(q, g, cmp)
  {
    if p == [] || q == [] {
    } else {
      if cmp(p[0], q[0]) <= 0 {
        StableMerge(p[1..], q, g, u, cmp);
        TiesTakeLeft(p[0], Merge(p[1..], q, cmp), p[1..], q, g, cmp);
        assert p == [p[0]] + p[1..];
      } else {
        StableMerge(p, q[1..], g, u, cmp);
        NothingOvertaken(p, q[0], g, u, cmp);
        TiesTakeRight(q[0], Merge(p, q[1..], cmp), p, q[1..], g, cmp);
        assert q == [q[0]] + q[1..];
      }
    }
  }

  // ---------- passes ----------

  /** `s` is a concatenation of sorted runs of length `k`; the last may be shorter. */
  ghost predicate Runs<E>(s: seq<E>, k: nat, cmp: (E, E) -> int)
    requires k > 0
  {
    s != [] ==> Sorted(s[..Min(k, |s|)], cmp) && Runs(s[Min(k, |s|)..], k, cmp)
  }

  lemma {:induction false} SingletonRuns<E>(s: seq<E>, cmp: (E, E) -> int)
    ensures Runs(s, 1, cmp)
  {
    if s == [] {
    } else {
      SingletonRuns(s[1..], cmp);
    }
  }

  /** The first pair of runs of `s`: both are sorted, and what follows them is again runs. */
  lemma {:induction false} FirstPair<E>(s: seq<E>, k: nat, cmp: (E, E) -> int)
    requires k > 0 && s != [] && Runs(s, k, cmp)
    ensures var m, e := Min(k, |s|), Min(2 * k, |s|);
      Sorted(s[..m], cmp) && Sorted(s[m..e], cmp) && Runs(s[e..], k, cmp)
  {
    var m, e := Min(k, |s|), Min(2 * k, |s|);
    var t := s[m..];
    if t != [] {
      assert t[..Min(k, |t|)] == s[m..e];
      assert t[Min(k, |t|)..] == s[e..];
    } else {
      assert s[m..e] == [] && s[e..] == [];
    }
  }

  /** A pass with run length `k` leaves sorted runs of length `2 * k`. */
  lemma {:induction false} PassDoublesRuns<E>(s: seq<E>, k: nat, u: set<E>, cmp: (E, E) -> int)
    requires k > 0 && Preorder(u, cmp) && Within(s, u) && Runs(s, k, cmp)
    ensures Runs(Pass(s, k, cmp), 2 * k, cmp)
  {
    if s == [] {
    } else {
      var m, e := Min(k, |s|), Min(2 * k, |s|);
      FirstPair(s, k, cmp);
      SortedMerge(s[..m], s[m..e], u, cmp);
      PassDoublesRuns(s[e..], k, u, cmp);
      var block := Merge(s[..m], s[m..e], cmp);
      var r := Pass(s, k, cmp);
      assert r[..e] == block && r[e..] == Pass(s[e..], k, cmp);
    }
  }

  lemma {:induction false} TiesConcat3<E>(a: seq<E>, b: seq<E>, c: seq<E>, g: E, cmp: (E, E) -> int)
    ensures Ties(a + b + c, g, cmp) == Ties(a, g, cmp) + Ties(b, g, cmp) + Ties(c, g, cmp)
  {
    TiesConcat(a + b, c, g, cmp);
    TiesConcat(a, b, g, cmp);
  }

  lemma {:induction false} PassIsStable<E>(s: seq<E>, k: nat, g: E, u: set<E>, cmp: (E, E) -> int)
    requires k > 0 && Preorder(u, cmp) && Within(s, u) && g in u && Runs(s, k, cmp)
    ensures Ties(Pass(s, k, cmp), g, cmp) == Ties(s, g, cmp)
  {
    if s == [] {
    } else {
      var m, e := Min(k, |s|), Min(2 * k, |s|);
      var a, b, c := s[..m], s[m..e], s[e..];
      assert s == a + b + c;
      assert Ties(Merge(a, b, cmp), g, cmp) == Ties(a, g, cmp) + Ties(b, g, cmp) && Runs(c, k, cmp) by {
        FirstPair(s, k, cmp);
        StableMerge(a, b, g, u, cmp);
      }
      PassIsStable(c, k, g, u, cmp);
      var ab, r := Merge(a, b, cmp), Pass(c, k, cmp);
      assert Pass(s, k, cmp) == ab + r;
      TiesConcat(ab, r, g, cmp);
      TiesConcat3(a, b, c, g, cmp);
    }
  }

  lemma {:induction false} PassKeepsWithin<E>(s: seq<E>, k: nat, u: set<E>, cmp: (E, E) -> int)
    requires k > 0 && Within(s, u)
    ensures Within(Pass(s, k, cmp), u)
  {
    PassKeepsElements(s, k, cmp);
    forall x | x in Pass(s, k, cmp)
      ensures x in u
    {
      assert x in multiset(Pass(s, k, cmp));
    }
  }

  // ---------- the whole sort ----------

  /** Whatever `cmp` answers, the sort returns exactly the elements it was given. */
  lemma {:induction false} SortKeepsElements<E>(s: seq<E>, k: nat, cmp: (E, E) -> int)
    requires k > 0
    ensures multiset(SortFrom(s, k, cmp)) == multiset(s)
    ensures |SortFrom(s, k, cmp)| == |s|
    decreases if |s| > 2 * k then |s| - 2 * k else 0
  {
    OneMergeWhenShort(|s|, k);
    PassKeepsElements(s, k, cmp);
    if Merges(|s|, k) <= 1 {
    } else {
      SortKeepsElements(Pass(s, k, cmp), 2 * k, cmp);
    }
  }

  lemma {:induction false} SortFromIsSorted<E>(s: seq<E>, k: nat, u: set<E>, cmp: (E, E) -> int)
    requires k > 0 && Preorder(u, cmp) && Within(s, u) && Runs(s, k, cmp)
    ensures Sorted(SortFrom(s, k, cmp), cmp)
    decreases if |s| > 2 * k then |s| - 2 * k else 0
  {
    OneMergeWhenShort(|s|, k);
    PassDoublesRuns(s, k, u, cmp);
    var r := Pass(s, k, cmp);
    if Merges(|s|, k) <= 1 {
      assert r[..|r|] == r;
    } else {
      PassKeepsWithin(s, k, u, cmp);
      SortFromIsSorted(r, 2 * k, u, cmp);
    }
  }

  lemma {:induction false} SortFromIsStable<E>(s: seq<E>, k: nat, g: E, u: set<E>, cmp: (E, E) -> int)
    requires k > 0 && Preorder(u, cmp) && Within(s, u) && g in u && Runs(s, k, cmp)
    ensures Ties(SortFrom(s, k, cmp), g, cmp) == Ties(s, g, cmp)
    decreases if |s| > 2 * k then |s| - 2 * k else 0
  {
    OneMergeWhenShort(|s|, k);
    PassIsStable(s, k, g, u, cmp);
    if Merges(|s|, k) <= 1 {
    } else {
      PassDoublesRuns(s, k, u, cmp);
      PassKeepsWithin(s, k, u, cmp);
      SortFromIsStable(Pass(s, k, cmp), 2 * k, g, u, cmp);
    }
  }

  /**
   What a sort macro promises of its output: the same elements whatever `cmp` answers and, when `cmp` is a
   total preorder on them, sorted with equals in their old order.
   */
  ghost predicate IsStableSort<E>(s: seq<E>, out: seq<E>, cmp: (E, E) -> int) {
    && multiset(out) == multiset(s)
    && (Preorder(Elements(s), cmp) ==>
          && Sorted(out, cmp)
          && forall g | g in s :: Ties(out, g, cmp) == Ties(s, g, cmp))
  }

  lemma {:induction false} MergeSortCorrect<E>(s: seq<E>, cmp: (E, E) -> int)
    ensures IsStableSort(s, MergeSort(s, cmp), cmp)
  {
    SingletonRuns(s, cmp);
    SortKeepsElements(s, 1, cmp);
    if Preorder(Elements(s), cmp) {
      SortFromIsSorted(s, 1, Elements(s), cmp);
      forall g | g in s
        ensures Ties(MergeSort(s, cmp), g, cmp) == Ties(s, g, cmp)
      {
        SortFromIsStable(s, 1, g, Elements(s), cmp);
      }
    }
  }

  lemma {:induction false} FirstTie<E>(s: seq<E>, cmp: (E, E) -> int)
    requires s != [] && cmp(s[0], s[0]) <= 0
    ensures Ties(s, s[0], cmp) != [] && Ties(s, s[0], cmp)[0] == s[0]
  {
  }

  /** `a` and `b` hold the same elements of `u`, both sorted, with equals in the same order. */
  ghost predicate SameStably<E>(a: seq<E>, b: seq<E>, u: set<E>, cmp: (E, E) -> int) {
    && Within(a, u) && Within(b, u) && multiset(a) == multiset(b)
    && Sorted(a, cmp) && Sorted(b, cmp)
    && forall g | g in u :: Ties(a, g, cmp) == Ties(b, g, cmp)
  }

  lemma {:induction false} SameHead<E>(a: seq<E>, b: seq<E>, u: set<E>, cmp: (E, E) -> int)
    requires Preorder(u, cmp) && SameStably(a, b, u, cmp) && a != []
    ensures b != [] && a[0] == b[0]
  {
    assert |multiset(a)| == |a| && |multiset(b)| == |b|;
    var x, y := a[0], b[0];
    assert x in multiset(b) && y in multiset(a);
    assert x in u && y in u && x in b && y in a;
    assert cmp(x, y) <= 0 && cmp(y, x) <= 0;
    FirstTie(a, cmp);
    assert Ties(b, x, cmp)[0] == y;
  }

  lemma {:induction false} SameTail<E>(a: seq<E>, b: seq<E>, u: set<E>, cmp: (E, E) -> int)
    requires SameStably(a, b, u, cmp) && a != [] && b != [] && a[0] == b[0]
    ensures SameStably(a[1..], b[1..], u, cmp)
  {
    HeadAndTail(a);
    HeadAndTail(b);
    forall g | g in u
      ensures Ties(a[1..], g, cmp) == Ties(b[1..], g, cmp)
    {
      SameRest(Tie(a[0], g, cmp), Ties(a[1..], g, cmp), Ties(b[1..], g, cmp));
    }
    assert multiset(a[1..]) == multiset(a) - multiset{a[0]};
    assert multiset(b[1..]) == multiset(b) - multiset{a[0]};
  }

  /** The promise leaves nothing open: two stable sorts of the same elements are the same list. */
  lemma {:induction false} StableSortIsUnique<E>(a: seq<E>, b: seq<E>, u: set<E>, cmp: (E, E) -> int)
    requires Preorder(u, cmp) && SameStably(a, b, u, cmp)
    ensures a == b
  {
    if a == [] {
      assert |multiset(b)| == 0;
    } else {
      SameHead(a, b, u, cmp);
      SameTail(a, b, u, cmp);
      StableSortIsUnique(a[1..], b[1..], u, cmp);
      assert a == [a[0]] + a[1..] && b == [a[0]] + b[1..];
    }
  }

  lemma {:induction false} SameRest<E>(h: seq<E>, a: seq<E>, b: seq<E>)
    requires h + a == h + b
    ensures a == b
  {
    assert (h + a)[|h|..] == a && (h + b)[|h|..] == b;
  }

  // ---------- cost ----------

  ghost function Pow2(e: nat): (p: nat)
    ensures p > 0
  {
    if e == 0 then 1 else 2 * Pow2(e - 1)
  }

  lemma {:induction false} Pow2Grows(a: nat, b: nat)
    requires a < b
    ensures 2 * Pow2(a) <= Pow2(b)
  {
    if a + 1 == b {
    } else {
      Pow2Grows(a, b - 1);
    }
  }

  /** The rounded-up binary logarithm. */
  ghost function CeilLog2(n: nat): nat
    requires n > 0
  {
    if n == 1 then 0 else 1 + CeilLog2((n + 1) / 2)
  }

  lemma {:induction false} CeilLog2Meaning(n: nat)
    requires n > 0
    ensures n <= Pow2(CeilLog2(n))
    ensures n > 1 ==> CeilLog2(n) > 0 && Pow2(CeilLog2(n) - 1) < n
  {
    if n <= 2 {
    } else {
      CeilLog2Meaning((n + 1) / 2);
    }
  }

  /** The run length after `passes` doublings of `k`. */
  ghost function Doubled(k: nat, passes: nat): nat
    decreases passes
  {
    if passes == 0 then k else Doubled(2 * k, passes - 1)
  }

  lemma {:induction false} DoubledByPow2(k: nat, passes: nat)
    ensures Doubled(k, passes) == k * Pow2(passes)
    decreases passes
  {
    if passes == 0 {
    } else {
      DoubledByPow2(2 * k, passes - 1);
      assert k * Pow2(passes) == 2 * k * Pow2(passes - 1);
    }
  }

  /** After its last pass the sort has covered `n`, and without that pass it had not. */
  lemma {:induction false} PassesCover(n: nat, k: nat)
    requires k > 0
    ensures Passes(n, k) >= 1
    ensures n <= Doubled(k, Passes(n, k))
    ensures Passes(n, k) > 1 ==> Doubled(k, Passes(n, k) - 1) < n
    decreases if n > 2 * k then n - 2 * k else 0
  {
    OneMergeWhenShort(n, k);
    if Merges(n, k) <= 1 {
    } else {
      PassesCover(n, 2 * k);
    }
  }

  /** The outer loop makes exactly max(1, ceil(log2 n)) passes. */
  lemma {:induction false} PassCount(n: nat)
    requires n > 0
    ensures Passes(n, 1) == if n == 1 then 1 else CeilLog2(n)
  {
    PassesCover(n, 1);
    CeilLog2Meaning(n);
    OneMergeWhenShort(n, 1);
    var t, l := Passes(n, 1), CeilLog2(n);
    DoubledByPow2(1, t);
    DoubledByPow2(1, t - 1);
    if n > 1 && t < l {
      if t < l - 1 { Pow2Grows(t, l - 1); }
    } else if n > 1 && l < t {
      if l < t - 1 { Pow2Grows(l, t - 1); }
    }
  }

  /** `insize` ends at 2^passes: it fits the macros' 32-bit int exactly for lists of at most 2^30 nodes. */
  lemma {:induction false} RunLengthFitsInt(n: nat)
    requires n > 0
    ensures Pow2(Passes(n, 1)) < 0x8000_0000 <==> n <= 0x4000_0000
  {
    PassesCover(n, 1);
    DoubledByPow2(1, Passes(n, 1));
    DoubledByPow2(1, Passes(n, 1) - 1);
    assert Pow2(30) == 0x4000_0000 by {
      assert Pow2(10) == 1024;
      assert Pow2(20) == 1024 * Pow2(10);
      assert Pow2(30) == 1024 * Pow2(20);
    }
    assert Pow2(31) == 0x8000_0000;
    var t := Passes(n, 1);
    if t < 30 {
      Pow2Grows(t, 30);
    } else if t > 31 {
      Pow2Grows(31, t);
      Pow2Grows(30, t - 1);
    }
  }

  /** `n` comparisons for each pass. */
  ghost function Budget(n: nat, passes: nat): nat {
    if passes == 0 then 0 else n + Budget(n, passes - 1)
  }

  lemma {:induction false} BudgetIsProduct(n: nat, passes: nat)
    ensures Budget(n, passes) == n * passes
  {
    if passes == 0 {
    } else {
      BudgetIsProduct(n, passes - 1);
      assert n * passes == n + n * (passes - 1);
    }
  }

  lemma {:induction false} SortCostStep<E>(s: seq<E>, k: nat, cmp: (E, E) -> int)
    requires k > 0 && s != []
    ensures |s| <= 2 * k ==> Passes(|s|, k) == 1 && SortCost(s, k, cmp) < |s|
    ensures |s| > 2 * k ==> Passes(|s|, k) == 1 + Passes(|s|, 2 * k)
    ensures |s| > 2 * k ==> SortCost(s, k, cmp) < |s| + SortCost(Pass(s, k, cmp), 2 * k, cmp)
  {
    OneMergeWhenShort(|s|, k);
  }

  lemma {:induction false} SortCostPerPass<E>(s: seq<E>, k: nat, t: nat, cmp: (E, E) -> int)
    requires k > 0 && s != [] && t == Passes(|s|, k)
    ensures SortCost(s, k, cmp) <= Budget(|s| - 1, t)
    decreases t
  {
    hide SortCost, Pass, PassCost, Passes, Merges;
    SortCostStep(s, k, cmp);
    var n := |s| - 1;
    assert Budget(n, t) == n + Budget(n, t - 1);
    if |s| <= 2 * k {
    } else {
      var r := Pass(s, k, cmp);
      assert |r| == |s|;
      SortCostPerPass(r, 2 * k, t - 1, cmp);
    }
  }

  /** The header's O(n log n): `cmp` is called at most (n - 1) * ceil(log2 n) times. */
  lemma {:induction false} ComparisonBound<E>(s: seq<E>, cmp: (E, E) -> int)
    requires s != []
    ensures SortCost(s, 1, cmp) <= (|s| - 1) * CeilLog2(|s|)
  {
    hide SortCost, Passes, CeilLog2;
    SortCostPerPass(s, 1, Passes(|s|, 1), cmp);
    PassCount(|s|);
    BudgetIsProduct(|s| - 1, Passes(|s|, 1));
  }
}
