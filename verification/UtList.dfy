/**
 The intrusive lists of utlist.h. Nodes are heap objects with `next` and `prev` links; which nodes a
 head pointer leads to, and in which order, is a ghost sequence.
 */
module UtList {
  import opened MergeSpec

  /** C's 32-bit `int`, the type of the sort macros' counters. */
  newtype int32 = x: int | -0x8000_0000 <= x < 0x8000_0000

  /** A structure that the macros can link; singly-linked lists use `next` only. */
  class Node {
    var next: Node?
    var prev: Node?
  }

  /** The node at position `i`, or NULL past the end. */
  ghost function At(s: seq<Node>, i: int): Node? {
    if 0 <= i < |s| then s[i] else null
  }

  ghost predicate Distinct(s: seq<Node>) {
    forall i, j | 0 <= i < j < |s| :: s[i] != s[j]
  }

  /** What follows position `i`: the next element, or `last` after the final one. */
  ghost function After(s: seq<Node>, i: int, last: Node?): Node? {
    if 0 <= i + 1 < |s| then s[i + 1] else last
  }

  /** What precedes position `i`, the final element preceding the first. */
  ghost function Before(s: seq<Node>, i: int): Node? {
    if 0 < i <= |s| then s[i - 1] else At(s, |s| - 1)
  }

  ghost predicate Chained(s: seq<Node>, last: Node?)
    reads s
  {
    forall i {:trigger s[i].next} | 0 <= i < |s| :: s[i].next == After(s, i, last)
  }

  ghost predicate Backed(s: seq<Node>)
    reads s
  {
    forall i {:trigger s[i].prev} | 0 <= i < |s| :: s[i].prev == Before(s, i)
  }

  /** `next` leads from `head` through `s` to NULL. */
  ghost predicate IsLL(head: Node?, s: seq<Node>)
    reads s
  {
    Distinct(s) && head == At(s, 0) && Chained(s, null)
  }

  /** In addition `prev` leads back, and `head->prev` is the tail. */
  ghost predicate IsDL(head: Node?, s: seq<Node>)
    reads s
  {
    Distinct(s) && head == At(s, 0) && Chained(s, null) && Backed(s)
  }

  /** A ring: `next` and `prev` are mutually inverse all the way round. */
  ghost predicate IsCDL(head: Node?, s: seq<Node>)
    reads s
  {
    Distinct(s) && head == At(s, 0) && Chained(s, head) && Backed(s)
  }

  function Just(n: Node?): set<Node> {
    if n == null then {} else {n}
  }

  // ---------- facts about distinct nodes ----------

  lemma {:induction false} SamePosition(s: seq<Node>, i: nat, j: nat)
    requires Distinct(s) && i < |s| && j < |s|
    ensures s[i] == s[j] <==> i == j
  {
  }

  /** Which of the positions that an operation at `i` touches the position `o` is, told from the node. */
  lemma {:induction false} Near(s: seq<Node>, o: nat, i: nat)
    requires Distinct(s) && o < |s| && i < |s|
    ensures s[o] == s[0] <==> o == 0
    ensures s[o] == s[i] <==> o == i
    ensures s[o] == Before(s, i) <==> o == (if i == 0 then |s| - 1 else i - 1)
    ensures s[o] == After(s, i, s[0]) <==> o == (if i + 1 == |s| then 0 else i + 1)
  {
    SamePosition(s, o, 0);
    SamePosition(s, o, i);
    SamePosition(s, o, if i == 0 then |s| - 1 else i - 1);
    SamePosition(s, o, if i + 1 == |s| then 0 else i + 1);
  }

  lemma {:induction false} DistinctInsert(s: seq<Node>, i: nat, add: Node)
    requires Distinct(s) && i <= |s| && add !in s
    ensures Distinct(s[..i] + [add] + s[i..])
  {
  }

  lemma {:induction false} DistinctReplace(s: seq<Node>, i: nat, add: Node)
    requires Distinct(s) && i < |s| && add !in s
    ensures Distinct(s[i := add])
  {
  }

  lemma {:induction false} DistinctRemove(s: seq<Node>, i: nat)
    requires Distinct(s) && i < |s|
    ensures Distinct(s[..i] + s[i + 1..]) && s[i] !in s[..i] + s[i + 1..]
  {
  }

  lemma {:induction false} DistinctConcat(s: seq<Node>, t: seq<Node>)
    requires Distinct(s) && Distinct(t) && forall n | n in s :: n !in t
    ensures Distinct(s + t)
  {
    forall i, j | 0 <= i < j < |s + t|
      ensures (s + t)[i] != (s + t)[j]
    {
      if i < |s| <= j {
        assert s[i] in s && t[j - |s|] in t;
      }
    }
  }

  // ---------- the sequence operations that the list operations implement ----------

  ghost function Index(s: seq<Node>, x: Node): (i: nat)
    requires x in s
    ensures i < |s| && s[i] == x
    ensures forall j | 0 <= j < i :: s[j] != x
  {
    if s[0] == x then 0 else 1 + Index(s[1..], x)
  }

  ghost function Remove(s: seq<Node>, x: Node): seq<Node> {
    if x in s then s[..Index(s, x)] + s[Index(s, x) + 1..] else s
  }

  ghost function Replace(s: seq<Node>, x: Node, y: Node): seq<Node> {
    if x in s then s[Index(s, x) := y] else s
  }

  ghost function InsertBefore(s: seq<Node>, x: Node, y: Node): seq<Node> {
    if x in s then s[..Index(s, x)] + [y] + s[Index(s, x)..] else s
  }

  lemma {:induction false} FirstIndex(a: seq<Node>, x: Node, b: seq<Node>)
    requires x !in a
    ensures x in a + [x] + b && Index(a + [x] + b, x) == |a|
    ensures (a + [x] + b)[..|a|] == a && (a + [x] + b)[|a|..] == [x] + b && (a + [x] + b)[|a| + 1..] == b
  {
    var s := a + [x] + b;
    assert s[|a|] == x;
    forall j | 0 <= j < |a|
      ensures s[j] != x
    {
      assert s[j] == a[j] && a[j] in a;
    }
  }

  /** What the three do around the first occurrence, and that they do nothing without one. */
  lemma {:induction false} AroundFirst(a: seq<Node>, x: Node, b: seq<Node>, y: Node)
    requires x !in a
    ensures Remove(a + [x] + b, x) == a + b
    ensures Replace(a + [x] + b, x, y) == a + [y] + b
    ensures InsertBefore(a + [x] + b, x, y) == a + [y, x] + b
    ensures Remove(a, x) == Replace(a, x, y) == InsertBefore(a, x, y) == a
  {
    FirstIndex(a, x, b);
    hide Index;
    assert [y] + ([x] + b) == [y, x] + b;
    assert (a + [x] + b)[|a| := y] == a + [y] + b;
  }

  /** In words: forward links lead from head to tail and end, back links lead back, and the head's leads to the tail. */
  lemma {:induction false} DLMeans(head: Node?, s: seq<Node>)
    requires IsDL(head, s)
    ensures if s == [] then head == null
            else
              && head == s[0] && s[0].prev == s[|s| - 1] && s[|s| - 1].next == null
              && (forall i | 0 < i < |s| :: s[i - 1].next == s[i] && s[i].prev == s[i - 1])
              && (forall i, j | 0 <= i < |s| && 0 <= j < |s| && s[i] == s[j] :: i == j)
  {
    forall i | 0 < i < |s|
      ensures s[i - 1].next == s[i] && s[i].prev == s[i - 1]
    {
      assert s[i - 1].next == After(s, i - 1, null);
    }
    if s != [] {
      assert s[|s| - 1].next == After(s, |s| - 1, null) && s[0].prev == Before(s, 0);
    }
  }

  /** The same for a ring, which closes in both directions. */
  lemma {:induction false} CDLMeans(head: Node?, s: seq<Node>)
    requires IsCDL(head, s)
    ensures if s == [] then head == null
            else
              && head == s[0] && s[0].prev == s[|s| - 1] && s[|s| - 1].next == s[0]
              && (forall i | 0 < i < |s| :: s[i - 1].next == s[i] && s[i].prev == s[i - 1])
              && (forall i, j | 0 <= i < |s| && 0 <= j < |s| && s[i] == s[j] :: i == j)
  {
    forall i | 0 < i < |s|
      ensures s[i - 1].next == s[i] && s[i].prev == s[i - 1]
    {
      assert s[i - 1].next == After(s, i - 1, head);
    }
    if s != [] {
      assert s[|s| - 1].next == After(s, |s| - 1, head) && s[0].prev == Before(s, 0);
    }
  }
}
