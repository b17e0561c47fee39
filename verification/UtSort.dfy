/**
 LL_SORT, DL_SORT and CDL_SORT. The three macros are one text with two variations: the doubly-linked
 ones also write `prev`, and the circular one reads the old head as the end of the list. Since the
 other two reach NULL where the circular one reaches its old head, an `oldhead` that is NULL for them
 makes the text common.
 */
module UtSort {
  import opened MergeSpec
  import opened UtList

  datatype Kind = LL | DL | CDL

  ghost predicate IsList(kind: Kind, head: Node?, s: seq<Node>)
    reads s
  {
    match kind
    case LL => IsLL(head, s)
    case DL => IsDL(head, s)
    case CDL => IsCDL(head, s)
  }

  /** The nodes whose `prev` a sort may write: none when the list is singly linked. */
  function PrevOf(kind: Kind, nodes: set<Node>): set<Node> {
    if kind == LL then {} else nodes
  }

  /** A node's successor in the list being read; the old head stands for the end. */
  function NextOf(n: Node, oldhead: Node?): Node?
    reads n
  {
    if n.next == oldhead then null else n.next
  }

  /**
   The nodes at positions [i, m) and from j on still await their turn: they are not among the `done`
   ones and carry the links of the list being read, in which `oldhead` closes the last link.
   */
  ghost predicate Waiting(s: seq<Node>, i: nat, m: nat, j: nat, oldhead: Node?, done: set<Node>)
    reads s
  {
    && (forall x | 0 <= x < |s| && (i <= x < m || j <= x) :: s[x] !in done)
    && (forall x {:trigger s[x].next} | 0 <= x < |s| && (i <= x < m || j <= x) :: s[x].next == After(s, x, oldhead))
  }

  /**
   What the sort has built so far: the `done` nodes in order `out`, linked from `list` to `tail`, with an open end.
   */
  ghost predicate Emitted(kind: Kind, out: seq<Node>, done: set<Node>, list: Node?, tail: Node?)
    reads done
  {
    && Distinct(out)
    && (forall x | 0 <= x < |out| :: out[x] in done)
    && (forall x {:trigger out[x].next} | 0 <= x < |out| - 1 :: out[x].next == After(out, x, null))
    && (kind != LL ==> forall x {:trigger out[x].prev} | 0 < x < |out| :: out[x].prev == Before(out, x))
    && list == At(out, 0)
    && tail == if out == [] then null else out[|out| - 1]
  }

  ghost predicate EndsAt(s: seq<Node>, oldhead: Node?) {
    Distinct(s) && (oldhead == null || (s != [] && oldhead == s[0]))
  }

  lemma {:induction false} NextIsAt(s: seq<Node>, i: nat, m: nat, j: nat, x: nat, oldhead: Node?, done: set<Node>)
    requires EndsAt(s, oldhead) && Waiting(s, i, m, j, oldhead, done)
    requires x < |s| && (i <= x < m || j <= x)
    ensures NextOf(s[x], oldhead) == At(s, x + 1)
  {
  }

  /** Merging s[i..m] and s[j..e] still yields what is missing from `goal`, at the `cost` that is still due. */
  ghost predicate Due(s: seq<Node>, i: nat, m: nat, j: nat, e: nat, cmp: (Node, Node) -> int,
                      out: seq<Node>, calls: nat, goal: seq<Node>, cost: nat) {
    && i <= m <= j <= e <= |s|
    && goal == out + Merge(s[i..m], s[j..e], cmp)
    && cost == calls + MergeCost(s[i..m], s[j..e], cmp)
  }

  lemma {:induction false} TakeLeft(s: seq<Node>, i: nat, m: nat, j: nat, e: nat, cmp: (Node, Node) -> int,
                 out: seq<Node>, calls: nat, goal: seq<Node>, cost: nat)
    requires Due(s, i, m, j, e, cmp, out, calls, goal, cost)
    requires i < m && (j == e || cmp(s[i], s[j]) <= 0)
    ensures Due(s, i + 1, m, j, e, cmp, out + [s[i]], if j == e then calls else calls + 1, goal, cost)
  {
    assert s[i..m][1..] == s[i + 1..m];
    assert s[i..m] == [s[i]] + s[i + 1..m];
    Associative(out, [s[i]], Merge(s[i + 1..m], s[j..e], cmp));
  }

  lemma {:induction false} TakeRight(s: seq<Node>, i: nat, m: nat, j: nat, e: nat, cmp: (Node, Node) -> int,
                  out: seq<Node>, calls: nat, goal: seq<Node>, cost: nat)
    requires Due(s, i, m, j, e, cmp, out, calls, goal, cost)
    requires j < e && (i == m || cmp(s[i], s[j]) > 0)
    ensures Due(s, i, m, j + 1, e, cmp, out + [s[j]], if i == m then calls else calls + 1, goal, cost)
  {
    assert s[j..e][1..] == s[j + 1..e];
    assert s[j..e] == [s[j]] + s[j + 1..e];
    Associative(out, [s[j]], Merge(s[i..m], s[j + 1..e], cmp));
  }

  lemma {:induction false} NothingDue(s: seq<Node>, m: nat, e: nat, cmp: (Node, Node) -> int,
                 out: seq<Node>, calls: nat, goal: seq<Node>, cost: nat)
    requires Due(s, m, m, e, e, cmp, out, calls, goal, cost)
    ensures out == goal && calls == cost
  {
    assert s[m..m] == [] && s[e..e] == [];
  }

  /**
   The four-way choice of the next element: from the run that is left over, or else the smaller front,
   a tie going to p. Nothing is relinked yet.
   */
  method TakeNext(p0: Node?, psize0: int32, q0: Node?, qsize0: int32, oldhead: Node?, cmp: (Node, Node) -> int,
                  ghost s: seq<Node>, ghost i0: nat, ghost m: nat, ghost j0: nat, ghost e: nat,
                  ghost out: seq<Node>, ghost done: set<Node>, ghost calls0: nat, ghost goal: seq<Node>,
                  ghost cost: nat)
    returns (elt: Node, p: Node?, psize: int32, q: Node?, qsize: int32, ghost i: nat, ghost j: nat, ghost calls: nat)
    requires EndsAt(s, oldhead) && Waiting(s, i0, m, j0, oldhead, done)
    requires Due(s, i0, m, j0, e, cmp, out, calls0, goal, cost)
    requires psize0 as int == m - i0 && (i0 < m ==> p0 == s[i0])
    requires q0 == At(s, j0) && qsize0 >= 0 && (j0 < e <==> qsize0 > 0 && q0 != null)
    requires i0 < m || j0 < e
    ensures i + j == i0 + j0 + 1 && (i == i0 || i == i0 + 1) && i <= m && j <= e
    ensures elt == s[if i == i0 then j0 else i0]
    ensures psize as int == m - i && (i < m ==> p == s[i])
    ensures q == At(s, j) && qsize as int == qsize0 as int - (j - j0)
    ensures Due(s, i, m, j, e, cmp, out + [elt], calls, goal, cost)
  {
    hide Merge, MergeCost;
    p, psize, q, qsize, i, j, calls := p0, psize0, q0, qsize0, i0, j0, calls0;
    if psize == 0 {
      TakeRight(s, i, m, j, e, cmp, out, calls, goal, cost);
      NextIsAt(s, i, m, j, j, oldhead, done);
      elt := q; q := NextOf(q, oldhead); qsize := qsize - 1; j := j + 1;
    } else if qsize == 0 || q == null {
      TakeLeft(s, i, m, j, e, cmp, out, calls, goal, cost);
      NextIsAt(s, i, m, j, i, oldhead, done);
      elt := p; p := NextOf(p, oldhead); psize := psize - 1; i := i + 1;
    } else if cmp(p, q) <= 0 {
      TakeLeft(s, i, m, j, e, cmp, out, calls, goal, cost);
      NextIsAt(s, i, m, j, i, oldhead, done);
      elt := p; p := NextOf(p, oldhead); psize := psize - 1; i := i + 1; calls := calls + 1;
    } else {
      TakeRight(s, i, m, j, e, cmp, out, calls, goal, cost);
      NextIsAt(s, i, m, j, j, oldhead, done);
      elt := q; q := NextOf(q, oldhead); qsize := qsize - 1; j := j + 1; calls := calls + 1;
    }
  }

  /** Puts `elt` behind `tail`; the nodes that still wait keep their links. */
  method Link(kind: Kind, elt: Node, list0: Node?, tail: Node?, ghost out: seq<Node>, ghost done: set<Node>,
              ghost s: seq<Node>, ghost i: nat, ghost m: nat, ghost j: nat, ghost oldhead: Node?)
    returns (list: Node?)
    requires Emitted(kind, out, done, list0, tail) && elt !in done
    requires Waiting(s, i, m, j, oldhead, done + {elt})
    modifies (if tail == null then {} else {tail})`next, PrevOf(kind, {elt})`prev
    ensures Emitted(kind, out + [elt], done + {elt}, list, elt)
    ensures Waiting(s, i, m, j, oldhead, done + {elt})
  {
    list := list0;
    if tail != null {
      tail.next := elt;
    } else {
      list := elt;
    }
    if kind != LL {
      elt.prev := tail;
    }
  }

  lemma {:induction false} OneTaken(s: seq<Node>, i0: nat, i: nat, m: nat, j0: nat, j: nat, oldhead: Node?,
                                    done: set<Node>, elt: Node)
    requires Distinct(s) && Waiting(s, i0, m, j0, oldhead, done)
    requires i0 <= i <= m <= j0 <= j && i + j == i0 + j0 + 1
    requires (i == i0 && j0 < |s| && elt == s[j0]) || (i == i0 + 1 <= |s| && elt == s[i0])
    ensures elt !in done && Waiting(s, i, m, j, oldhead, done + {elt})
  {
  }

  /** Waiting from `b` on is the same as waiting in [b, m) and from `m` on, or in no gap and from `b` on. */
  lemma {:induction false} WaitingFrom(s: seq<Node>, b: nat, m: nat, oldhead: Node?, done: set<Node>)
    requires b <= m <= |s|
    ensures Waiting(s, b, |s|, |s|, oldhead, done) <==> Waiting(s, b, m, m, oldhead, done)
  {
  }

  lemma {:induction false} WaitingBehindGap(s: seq<Node>, m: nat, e: nat, oldhead: Node?, done: set<Node>)
    requires m <= e <= |s| && Waiting(s, m, m, e, oldhead, done)
    ensures Waiting(s, e, |s|, |s|, oldhead, done)
  {
  }

  /** `out` is `out0` followed by the merge of s[b..m] and s[m..e], which took `calls` comparisons. */
  ghost predicate Merged(s: seq<Node>, b: nat, m: nat, e: nat, cmp: (Node, Node) -> int,
                         out0: seq<Node>, out: seq<Node>, calls: nat) {
    && b <= m <= e <= |s|
    && out == out0 + Merge(s[b..m], s[m..e], cmp)
    && calls == MergeCost(s[b..m], s[m..e], cmp)
  }

  /** The inner loop: merges the runs s[b..m] and s[m..e] onto the end of `out0`. */
  method MergeRuns(kind: Kind, p0: Node, psize0: int32, q0: Node?, insize: int32, oldhead: Node?,
                   list0: Node?, tail0: Node?, cmp: (Node, Node) -> int,
                   ghost s: seq<Node>, ghost b: nat, ghost m: nat, ghost e: nat,
                   ghost out0: seq<Node>, ghost done0: set<Node>)
    returns (list: Node?, tail: Node?, q: Node?, ghost out: seq<Node>, ghost done: set<Node>, ghost calls: nat)
    requires EndsAt(s, oldhead)
    requires 0 < psize0 <= insize && m == b + psize0 as int && m <= |s| && e == Min(m + insize as int, |s|)
    requires p0 == s[b] && q0 == At(s, m) && (psize0 == insize || q0 == null)
    requires Waiting(s, b, |s|, |s|, oldhead, done0)
    requires Emitted(kind, out0, done0, list0, tail0) && done0 <= Elements(s)
    modifies Elements(s)`next, PrevOf(kind, Elements(s))`prev
    ensures Merged(s, b, m, e, cmp, out0, out, calls)
    ensures q == At(s, e)
    ensures Waiting(s, e, |s|, |s|, oldhead, done)
    ensures Emitted(kind, out, done, list, tail) && done <= Elements(s)
  {
    hide Merge, MergeCost, Waiting, Emitted, Distinct;
    ghost var i, j := b, m;
    ghost var goal, cost := out0 + Merge(s[b..m], s[m..e], cmp), MergeCost(s[b..m], s[m..e], cmp);
    var p: Node? := p0;
    var psize, qsize := psize0, insize;
    list, tail, q, out, done, calls := list0, tail0, q0, out0, done0, 0;
    WaitingFrom(s, b, m, oldhead, done);
    while psize > 0 || (qsize > 0 && q != null)
      invariant b <= i <= m <= j <= e
      invariant psize as int == m - i && qsize as int == insize as int - (j - m)
      invariant (i < m ==> p == s[i]) && q == At(s, j)
      invariant Waiting(s, i, m, j, oldhead, done)
      invariant Emitted(kind, out, done, list, tail) && done <= Elements(s)
      invariant Due(s, i, m, j, e, cmp, out, calls, goal, cost)
      decreases psize as int + e - j
    {
      var elt;
      ghost var i', j';
      elt, p, psize, q, qsize, i', j', calls :=
        TakeNext(p, psize, q, qsize, oldhead, cmp, s, i, m, j, e, out, done, calls, goal, cost);
      OneTaken(s, i, i', m, j, j', oldhead, done, elt);
      EmittedIsNotEmpty(kind, out, done, list, tail);
      list := Link(kind, elt, list, tail, out, done, s, i', m, j', oldhead);
      tail, out, done, i, j := elt, out + [elt], done + {elt}, i', j';
    }
    assert i == m && j == e;
    WaitingBehindGap(s, m, e, oldhead, done);
    NothingDue(s, m, e, cmp, out, calls, goal, cost);
  }

  /** The walk that finds the second run: `psize` nodes on from `p`, or NULL at the end of the list. */
  method SkipRun(p: Node, insize: int32, oldhead: Node?, ghost s: seq<Node>, ghost b: nat, ghost done: set<Node>)
    returns (q: Node?, psize: int32)
    requires EndsAt(s, oldhead) && insize > 0
    requires b < |s| && p == s[b] && Waiting(s, b, |s|, |s|, oldhead, done)
    ensures psize as int == Min(insize as int, |s| - b)
    ensures q == At(s, b + psize as int)
  {
    q, psize := p, 0;
    var i: int32 := 0;
    while i < insize
      invariant 0 <= i == psize <= insize && b + psize as int < |s|
      invariant q == s[b + psize as int]
    {
      NextIsAt(s, b, |s|, |s|, b + psize as int, oldhead, done);
      psize := psize + 1;
      q := NextOf(q, oldhead);
      if q == null {
        break;
      }
      i := i + 1;
    }
  }

  /** The body of the middle loop: finds the two runs at position `b` and merges them. */
  method MergePair(kind: Kind, p: Node, insize: int32, oldhead: Node?, first0: Node?, tail0: Node?,
                   cmp: (Node, Node) -> int, ghost s: seq<Node>, ghost b: nat,
                   ghost out0: seq<Node>, ghost done0: set<Node>, ghost calls0: nat, ghost nmerges: nat)
    returns (first: Node?, tail: Node?, q: Node?, ghost out: seq<Node>, ghost done: set<Node>, ghost calls: nat)
    requires EndsAt(s, oldhead) && insize > 0 && b < |s| && p == s[b]
    requires Waiting(s, b, |s|, |s|, oldhead, done0)
    requires Emitted(kind, out0, done0, first0, tail0) && done0 <= Elements(s)
    requires DuePass(s, b, insize as int, cmp, out0, calls0, nmerges)
    modifies Elements(s)`next, PrevOf(kind, Elements(s))`prev
    ensures var e := Min(b + 2 * insize as int, |s|);
      && q == At(s, e)
      && Waiting(s, e, |s|, |s|, oldhead, done)
      && DuePass(s, e, insize as int, cmp, out, calls, nmerges + 1)
    ensures Emitted(kind, out, done, first, tail) && done <= Elements(s)
  {
    hide Pass, PassCost, Merge, MergeCost, Merges, Waiting, Emitted, Distinct, DuePass, Merged;
    ghost var k := insize as int;
    ghost var m, e := Min(b + k, |s|), Min(b + 2 * k, |s|);
    var psize;
    q, psize := SkipRun(p, insize, oldhead, s, b, done0);
    ghost var more;
    first, tail, q, out, done, more :=
      MergeRuns(kind, p, psize, q, insize, oldhead, first0, tail0, cmp, s, b, m, e, out0, done0);
    MergeBlock(s, b, m, e, k, cmp, out0, calls0, nmerges, out, more);
    calls := calls0 + more;
  }

  /** One trip through the outer loop: the list at `list0` is read and rebuilt with runs twice as long. */
  method SortPass(kind: Kind, list0: Node, insize: int32, cmp: (Node, Node) -> int, ghost s: seq<Node>)
    returns (list: Node, nmerges: int32, ghost out: seq<Node>, ghost calls: nat)
    requires IsList(kind, list0, s) && 0 < insize && |s| <= 0x4000_0000
    modifies Elements(s)`next, PrevOf(kind, Elements(s))`prev
    ensures out == Pass(s, insize as nat, cmp) && IsList(kind, list, out)
    ensures nmerges as int == Merges(|s|, insize as nat)
    ensures calls == PassCost(s, insize as nat, cmp)
  {
    hide Pass, PassCost, Merge, MergeCost, Merges, Waiting, Emitted, Distinct, DuePass, Merged;
    ghost var k := insize as int;
    var p: Node? := list0;
    var oldhead: Node? := if kind == CDL then list0 else null;
    var first: Node?, tail: Node? := null, null;
    ghost var b, done := 0, {};
    nmerges, out, calls := 0, [], 0;
    PassBegins(kind, list0, s, k, oldhead, cmp);
    while p != null
      invariant b <= |s| && p == At(s, b)
      invariant Waiting(s, b, |s|, |s|, oldhead, done)
      invariant Emitted(kind, out, done, first, tail) && done <= Elements(s)
      invariant DuePass(s, b, k, cmp, out, calls, nmerges as int)
      invariant 0 <= nmerges as int <= b
      decreases |s| - b
    {
      first, tail, p, out, done, calls :=
        MergePair(kind, p, insize, oldhead, first, tail, cmp, s, b, out, done, calls, nmerges as int);
      nmerges := nmerges + 1;
      b := Min(b + 2 * k, |s|);
    }
    PassDone(s, k, cmp, out, calls, nmerges as int);
    EmittedIsNotEmpty(kind, out, done, first, tail);
    list := first;
    Close(kind, list, tail, out, done);
  }

  /** Restores the ends: the tail's `next` and, when doubly linked, the head's `prev`. */
  method Close(kind: Kind, list: Node, tail: Node, ghost out: seq<Node>, ghost done: set<Node>)
    requires Emitted(kind, out, done, list, tail) && out != []
    modifies tail`next, PrevOf(kind, {list})`prev
    ensures IsList(kind, list, out)
  {
    if kind != LL {
      list.prev := tail;
    }
    tail.next := if kind == CDL then list else null;
  }

  /** The blocks from position `b` on still yield what the pass is missing. */
  ghost predicate DuePass(s: seq<Node>, b: nat, k: nat, cmp: (Node, Node) -> int, out: seq<Node>, calls: nat,
                          nmerges: int) {
    && k > 0 && b <= |s|
    && Pass(s, k, cmp) == out + Pass(s[b..], k, cmp)
    && PassCost(s, k, cmp) == calls + PassCost(s[b..], k, cmp)
    && Merges(|s|, k) == nmerges + Merges(|s| - b, k)
  }

  lemma {:induction false} SlicesOfRest(s: seq<Node>, b: nat, m: nat, e: nat)
    requires b <= m <= e <= |s|
    ensures s[b..][..m - b] == s[b..m] && s[b..][m - b..e - b] == s[m..e] && s[b..][e - b..] == s[e..]
  {
  }

  lemma {:induction false} PassBegins(kind: Kind, list: Node, s: seq<Node>, k: nat, oldhead: Node?,
                                      cmp: (Node, Node) -> int)
    requires IsList(kind, list, s) && k > 0 && oldhead == if kind == CDL then list else null
    ensures EndsAt(s, oldhead) && Waiting(s, 0, |s|, |s|, oldhead, {})
    ensures Emitted(kind, [], {}, null, null)
    ensures DuePass(s, 0, k, cmp, [], 0, 0)
  {
    assert s[0..] == s;
  }

  lemma {:induction false} EmittedIsNotEmpty(kind: Kind, out: seq<Node>, done: set<Node>, list: Node?, tail: Node?)
    requires Emitted(kind, out, done, list, tail)
    ensures if out == [] then list == null && tail == null
            else list != null && tail != null && list in done && tail in done
  {
  }

  lemma {:induction false} PassDone(s: seq<Node>, k: nat, cmp: (Node, Node) -> int, out: seq<Node>, calls: nat,
                                    nmerges: int)
    requires DuePass(s, |s|, k, cmp, out, calls, nmerges)
    ensures out == Pass(s, k, cmp) && calls == PassCost(s, k, cmp) && nmerges == Merges(|s|, k)
  {
    assert s[|s|..] == [];
  }

  lemma {:induction false} MergeBlock(s: seq<Node>, b: nat, m: nat, e: nat, k: nat, cmp: (Node, Node) -> int,
                         was: seq<Node>, calls: nat, nmerges: int, out: seq<Node>, more: nat)
    requires DuePass(s, b, k, cmp, was, calls, nmerges) && b < |s|
    requires m == Min(b + k, |s|) && e == Min(b + 2 * k, |s|)
    requires Merged(s, b, m, e, cmp, was, out, more)
    ensures DuePass(s, e, k, cmp, out, calls + more, nmerges + 1)
  {
    hide Pass, PassCost, Merge, MergeCost, Merges;
    var a, c, d := s[b..m], s[m..e], s[e..];
    SlicesOfRest(s, b, m, e);
    PassStep(s[b..], k, a, c, d, cmp);
    Associative(was, Merge(a, c, cmp), Pass(d, k, cmp));
  }

  /** The passes still to come, with run length `k`, yield what the whole sort is missing. */
  ghost predicate DueSort(s: seq<Node>, cmp: (Node, Node) -> int, cur: seq<Node>, k: nat, passes: nat, calls: nat) {
    && k > 0 && |cur| == |s|
    && MergeSort(s, cmp) == SortFrom(cur, k, cmp)
    && Passes(|s|, 1) == passes + Passes(|s|, k)
    && SortCost(s, 1, cmp) == calls + SortCost(cur, k, cmp)
  }

  lemma {:induction false} PassTaken(s: seq<Node>, cmp: (Node, Node) -> int, cur: seq<Node>, k: nat, passes: nat,
                                     calls: nat)
    requires DueSort(s, cmp, cur, k, passes, calls)
    ensures Elements(Pass(cur, k, cmp)) == Elements(cur)
    ensures Merges(|s|, k) <= 1 <==> |s| <= 2 * k
    ensures Merges(|s|, k) > 1 ==> DueSort(s, cmp, Pass(cur, k, cmp), 2 * k, passes + 1, calls + PassCost(cur, k, cmp))
    ensures Merges(|s|, k) <= 1 ==> MergeSort(s, cmp) == Pass(cur, k, cmp) && Passes(|s|, 1) == passes + 1
    ensures Merges(|s|, k) <= 1 ==> SortCost(s, 1, cmp) == calls + PassCost(cur, k, cmp)
  {
    hide Pass, PassCost, Merges;
    OneMergeWhenShort(|s|, k);
    PassKeepsElements(cur, k, cmp);
    var r := Pass(cur, k, cmp);
    assert forall x :: x in Elements(r) <==> x in multiset(r);
    assert forall x :: x in Elements(cur) <==> x in multiset(cur);
  }

  /**
   The sort macros. For every comparison function, `list` ends up leading through MergeSort(s, cmp), which
   for a total preorder is the stable sorted rearrangement of `s`; `passes` and `calls` count the trips
   through the outer loop and the calls of `cmp`, and `width` is what `insize` has grown to. The bound on |s|
   is what keeps that within an int (RunLengthFitsInt).
   */
  method Sort(kind: Kind, list0: Node?, cmp: (Node, Node) -> int, ghost s: seq<Node>)
    returns (list: Node?, ghost out: seq<Node>, ghost passes: nat, ghost calls: nat, ghost width: int)
    requires IsList(kind, list0, s) && |s| <= 0x4000_0000
    modifies Elements(s)`next, PrevOf(kind, Elements(s))`prev
    ensures out == MergeSort(s, cmp) && IsList(kind, list, out)
    ensures s != [] ==> passes == (if |s| == 1 then 1 else CeilLog2(|s|)) && calls == SortCost(s, 1, cmp)
    ensures s == [] ==> passes == 0 && calls == 0
    ensures width == Pow2(passes)
    ensures IsStableSort(s, out, cmp)
  {
    hide SortFrom, SortCost, Passes, IsList, Pass, PassCost, Merges, MergeSort, IsStableSort;
    list, out, passes, calls, width := list0, s, 0, 0, 1;
    MergeSortCorrect(s, cmp);
    if list != null {
      SortBegins(kind, list, s, cmp);
      var insize: int32, looping := 1, true;
      while looping
        invariant list != null && IsList(kind, list, out) && Elements(out) == Elements(s)
        invariant width == insize as int == Pow2(passes)
        invariant 0 < insize && (looping ==> insize == 1 || insize as int < |s|)
        invariant looping ==> DueSort(s, cmp, out, insize as int, passes, calls)
        invariant !looping ==> out == MergeSort(s, cmp) && passes == Passes(|s|, 1) && calls == SortCost(s, 1, cmp)
        decreases if looping then |s| + 2 - insize as int else 0
      {
        var nmerges;
        ghost var more;
        PassTaken(s, cmp, out, insize as int, passes, calls);
        list, nmerges, out, more := SortPass(kind, list, insize, cmp, out);
        passes, calls := passes + 1, calls + more;
        if nmerges <= 1 {
          looping := false;
        }
        insize := insize * 2;
        width := insize as int;
      }
    } else {
      Empty(kind, s, cmp);
    }
  }

  lemma {:induction false} SortBegins(kind: Kind, list: Node, s: seq<Node>, cmp: (Node, Node) -> int)
    requires IsList(kind, list, s)
    ensures s != [] && DueSort(s, cmp, s, 1, 0, 0)
    ensures Passes(|s|, 1) == if |s| == 1 then 1 else CeilLog2(|s|)
  {
    PassCount(|s|);
  }

  lemma {:induction false} Empty(kind: Kind, s: seq<Node>, cmp: (Node, Node) -> int)
    requires IsList(kind, null, s)
    ensures s == [] && MergeSort(s, cmp) == []
  {
  }
}
