/** The DL_ macros: doubly-linked lists whose head's `prev` is the tail. */
module DoublyLinked {
  import opened MergeSpec
  import opened UtList
  import UtSort

  /** One use of a DL_ macro on a list. */
  datatype Op =
    | Prepend(add: Node)
    | Append(add: Node)
    | Delete(del: Node)
    | ReplaceElem(el: Node, add: Node)
    | PrependElem(el: Node, add: Node)
  {
    /** A node may be added only while it is not in the list, and used as a place only while it is. */
    ghost predicate Admissible(s: seq<Node>) {
      match this
      case Prepend(add) => add !in s
      case Append(add) => add !in s
      case Delete(del) => del in s
      case ReplaceElem(el, add) => el in s && add !in s
      case PrependElem(el, add) => el in s && add !in s
    }

    ghost function Result(s: seq<Node>): seq<Node> {
      match this
      case Prepend(add) => [add] + s
      case Append(add) => s + [add]
      case Delete(del) => Remove(s, del)
      case ReplaceElem(el, add) => Replace(s, el, add)
      case PrependElem(el, add) => InsertBefore(s, el, add)
    }

    function Added(): set<Node> {
      if Delete? then {} else {add}
    }

    /** The operation that takes back what this one does; a deletion does not tell where the node was. */
    function Inverse(): Op
      requires !Delete?
    {
      if ReplaceElem? then ReplaceElem(add, el) else Delete(add)
    }
  }

  /** One use of a DL_ macro in a program with several head pointers, numbered from 0. */
  datatype Use =
    | On(i: nat, op: Op)
    | Concat(i: nat, j: nat)

  /** What a head pointer leads to: a list, or the middle of another list to which its own has been added. */
  datatype Held = Holds(elems: seq<Node>) | Stale

  ghost function NodesOf(held: seq<Held>): set<Node> {
    set k, n | 0 <= k < |held| && held[k].Holds? && n in held[k].elems :: n
  }

  /** No node is in two lists. */
  ghost predicate Apart(held: seq<Held>) {
    forall k, m, n | 0 <= k < m < |held| && held[k].Holds? && held[m].Holds? && n in held[k].elems ::
      n !in held[m].elems
  }

  /** Only heads that are not stale are used, and a node that is in one list is not added to another. */
  ghost predicate AdmissibleUse(u: Use, held: seq<Held>) {
    match u
    case On(i, op) =>
      && i < |held| && held[i].Holds? && op.Admissible(held[i].elems)
      && forall k, n | 0 <= k < |held| && k != i && held[k].Holds? && n in held[k].elems :: n !in op.Added()
    case Concat(i, j) => i < |held| && j < |held| && i != j && held[i].Holds? && held[j].Holds?
  }

  ghost function ResultOfUse(u: Use, held: seq<Held>): seq<Held>
    requires AdmissibleUse(u, held)
  {
    match u
    case On(i, op) => held[i := Holds(op.Result(held[i].elems))]
    case Concat(i, j) => held[i := Holds(held[i].elems + held[j].elems)][j := Stale]
  }

  ghost predicate AdmissibleRun(uses: seq<Use>, held: seq<Held>) {
    uses == [] || (AdmissibleUse(uses[0], held) && AdmissibleRun(uses[1..], ResultOfUse(uses[0], held)))
  }

  ghost function ResultOfRun(uses: seq<Use>, held: seq<Held>): seq<Held>
    requires AdmissibleRun(uses, held)
  {
    if uses == [] then held else ResultOfRun(uses[1..], ResultOfUse(uses[0], held))
  }

  function AddedBy(uses: seq<Use>): set<Node> {
    if uses == [] then {} else (if uses[0].On? then uses[0].op.Added() else {}) + AddedBy(uses[1..])
  }

  /** Each head that is not stale leads to the list it holds, and no two lists share a node. */
  ghost predicate HeldBy(lists: seq<DLList>, held: seq<Held>)
    reads lists, NodesOf(held)
  {
    && |lists| == |held| && Apart(held)
    && (forall k, m | 0 <= k < m < |lists| :: lists[k] != lists[m])
    && (forall k | 0 <= k < |held| && held[k].Holds? ::
          (forall n | n in held[k].elems :: n in NodesOf(held)) && IsDL(lists[k].head, held[k].elems)
          && lists[k].elems == held[k].elems)
  }

  /** A head pointer; `elems` is the list it leads to. */
  class DLList {
    var head: Node?
    ghost var elems: seq<Node>

    ghost predicate Valid()
      reads this, elems
    {
      IsDL(head, elems)
    }

    constructor ()
      ensures Valid() && elems == []
    {
      head, elems := null, [];
    }

    method Prepend(add: Node)
      requires Valid() && add !in elems
      modifies this, Just(head)`prev, add
      ensures Valid() && elems == [add] + old(elems)
    {
      add.next := head;
      if head != null {
        add.prev := head.prev;
        head.prev := add;
      } else {
        add.prev := add;
      }
      head := add;
      elems := [add] + elems;
    }

    method Append(add: Node)
      requires Valid() && add !in elems
      modifies this, Just(head)`prev, (if head == null then {} else Just(head.prev))`next, add
      ensures Valid() && elems == old(elems) + [add]
    {
      if head != null {
        add.prev := head.prev;
        head.prev.next := add;
        head.prev := add;
        add.next := null;
      } else {
        head := add;
        head.prev := head;
        head.next := null;
      }
      elems := elems + [add];
    }

    /** The other head pointer is left as it was, leading into the middle of this list. */
    method Concat(other: DLList)
      requires Valid() && other.Valid() && other != this
      requires forall n | n in elems :: n !in other.elems
      modifies this, Elements(elems), Elements(other.elems)
      ensures Valid() && elems == old(elems) + other.elems
      ensures other.head == old(other.head) && other.elems == old(other.elems)
    {
      ghost var s, t := elems, other.elems;
      if other.head != null {
        if head != null {
          Splice(head, other.head, s, t);
        } else {
          head := other.head;
        }
      }
      DistinctConcat(s, t);
      assert s == [] ==> s + t == t;
      assert t == [] ==> s + t == s;
      elems := s + t;
    }

    /** The case of two lists that are not empty. */
    static method Splice(head1: Node, head2: Node, ghost s: seq<Node>, ghost t: seq<Node>)
      requires IsDL(head1, s) && IsDL(head2, t) && forall n | n in s :: n !in t
      modifies Elements(s), Elements(t)
      ensures Chained(s + t, null) && Backed(s + t)
    {
      hide Distinct;
      assert s[|s| - 1] in s && t[0] in t;
      var tmp := head2.prev;
      head2.prev := head1.prev;
      head1.prev.next := head2;
      head1.prev := tmp;
      forall k | 0 <= k < |s|
        ensures s[k].next == After(s, k, t[0]) && s[k].prev == if k == 0 then t[|t| - 1] else s[k - 1]
      {
        assert s[k] in s;
        Near(s, k, |s| - 1);
      }
      forall k | 0 <= k < |t|
        ensures t[k].next == After(t, k, null) && t[k].prev == if k == 0 then s[|s| - 1] else t[k - 1]
      {
        assert t[k] in t;
        Near(t, k, 0);
      }
      Joined(s, t);
    }

    static lemma {:induction false} Joined(s: seq<Node>, t: seq<Node>)
      requires s != [] && t != []
      requires forall k {:trigger s[k].next} | 0 <= k < |s| :: s[k].next == After(s, k, t[0])
      requires forall k {:trigger s[k].prev} | 0 <= k < |s| :: s[k].prev == if k == 0 then t[|t| - 1] else s[k - 1]
      requires forall k {:trigger t[k].next} | 0 <= k < |t| :: t[k].next == After(t, k, null)
      requires forall k {:trigger t[k].prev} | 0 <= k < |t| :: t[k].prev == if k == 0 then s[|s| - 1] else t[k - 1]
      ensures Chained(s + t, null) && Backed(s + t)
    {
      forall k | 0 <= k < |s + t|
        ensures (s + t)[k].next == After(s + t, k, null) && (s + t)[k].prev == Before(s + t, k)
      {
        assert (s + t)[k] == if k < |s| then s[k] else t[k - |s|];
      }
    }

    /** Deletes `del`, whose own links stay as they were. */
    method Delete(del: Node)
      requires Valid() && del in elems
      modifies this, Just(del.next)`prev, Just(del.prev)`next, Just(head)`prev
      ensures Valid() && elems == Remove(old(elems), del)
    {
      hide Distinct;
      ghost var i, was := Index(elems, del), elems;
      ghost var rest := was[..i] + was[i + 1..];
      assert rest == Remove(was, del);
      hide Remove, Index;
      Near(was, 0, i);
      Near(was, |was| - 1, i);
      if del.prev == del {
        head := null;
      } else if del == head {
        del.next.prev := del.prev;
        head := del.next;
      } else {
        del.prev.next := del.next;
        if del.next != null {
          del.next.prev := del.prev;
        } else {
          head.prev := del.prev;
        }
      }
      elems := rest;
      DistinctRemove(was, i);
      forall k | 0 <= k < |rest|
        ensures rest[k].next == After(rest, k, null) && rest[k].prev == Before(rest, k)
      {
        var o := if k < i then k else k + 1;
        assert rest[k] == was[o];
        Near(was, o, i);
      }
    }

    method ReplaceElem(el: Node, add: Node)
      requires Valid() && el in elems && add !in elems
      modifies this, add, Just(el.next)`prev, Just(el.prev)`next, Just(head)`prev
      ensures Valid() && elems == Replace(old(elems), el, add)
    {
      hide Distinct;
      ghost var i, was := Index(elems, el), elems;
      assert was[i := add] == Replace(was, el, add);
      hide Replace, Index;
      Near(was, 0, i);
      Near(was, |was| - 1, i);
      if head == el {
        head := add;
        add.next := el.next;
        if el.next == null {
          add.prev := add;
        } else {
          add.prev := el.prev;
          add.next.prev := add;
        }
      } else {
        add.next := el.next;
        add.prev := el.prev;
        add.prev.next := add;
        if el.next == null {
          head.prev := add;
        } else {
          add.next.prev := add;
        }
      }
      elems := was[i := add];
      DistinctReplace(was, i, add);
      forall k | 0 <= k < |elems|
        ensures elems[k].next == After(elems, k, null) && elems[k].prev == Before(elems, k)
      {
        if k != i {
          assert elems[k] == was[k] && was[k] in was;
          Near(was, k, i);
        }
      }
    }

    method PrependElem(el: Node, add: Node)
      requires Valid() && el in elems && add !in elems
      modifies this, add, el`prev, Just(el.prev)`next
      ensures Valid() && elems == InsertBefore(old(elems), el, add)
    {
      hide Distinct;
      ghost var i, was := Index(elems, el), elems;
      ghost var more := was[..i] + [add] + was[i..];
      assert more == InsertBefore(was, el, add);
      hide InsertBefore, Index;
      Near(was, 0, i);
      add.next := el;
      add.prev := el.prev;
      el.prev := add;
      if head == el {
        head := add;
      } else {
        add.prev.next := add;
      }
      elems := more;
      DistinctInsert(was, i, add);
      forall k | 0 <= k < |more|
        ensures more[k].next == After(more, k, null) && more[k].prev == Before(more, k)
      {
        if k != i {
          var o := if k < i then k else k - 1;
          assert more[k] == was[o] && was[o] in was;
          Near(was, o, i);
        }
      }
    }

    method Do(op: Op)
      requires Valid() && op.Admissible(elems)
      modifies this, Elements(elems), op.Added()
      ensures Valid() && elems == op.Result(old(elems))
      ensures Elements(elems) <= old(Elements(elems)) + op.Added()
    {
      hide Distinct, IsDL;
      ghost var was := elems;
      Neighbours();
      match op
      case Prepend(add) => Prepend(add);
      case Append(add) => Append(add);
      case Delete(del) => Delete(del);
      case ReplaceElem(el, add) => ReplaceElem(el, add);
      case PrependElem(el, add) => PrependElem(el, add);
    }

    /** The links of a list lead to its own nodes. */
    lemma {:induction false} Neighbours()
      requires Valid()
      ensures forall n | n in elems :: Just(n.next) <= Elements(elems) && Just(n.prev) <= Elements(elems)
      ensures Just(head) <= Elements(elems)
    {
    }

    /** What has been put in or replaced is taken back: the head and every link of the list are as they were. */
    method DoAndUndo(op: Op)
      requires Valid() && op.Admissible(elems) && !op.Delete?
      modifies this, Elements(elems), op.Added()
      ensures Valid() && elems == old(elems) && head == old(head)
      ensures forall n | n in elems :: n.next == old(n.next) && n.prev == old(n.prev)
    {
      InverseIsAdmissible(op, elems);
      Do(op);
      Do(op.Inverse());
      forall n | n in elems
        ensures n.next == old(n.next) && n.prev == old(n.prev)
      {
        var k :| 0 <= k < |elems| && elems[k] == n;
        assert n.next == After(elems, k, null) && n.prev == Before(elems, k);
        assert old(elems[k].next) == After(elems, k, null) && old(elems[k].prev) == Before(elems, k);
      }
    }

    static lemma {:induction false} InverseIsAdmissible(op: Op, s: seq<Node>)
      requires op.Admissible(s) && !op.Delete? && Distinct(s)
      ensures op.Inverse().Admissible(op.Result(s)) && op.Inverse().Result(op.Result(s)) == s
    {
    }

    /** DL_SORT. */
    method Sort(cmp: (Node, Node) -> int) returns (ghost passes: nat, ghost calls: nat)
      requires Valid() && |elems| <= 0x4000_0000
      modifies this, Elements(elems)
      ensures Valid() && elems == MergeSort(old(elems), cmp)
      ensures IsStableSort(old(elems), elems, cmp)
      ensures elems != [] ==> passes == (if |elems| == 1 then 1 else CeilLog2(|elems|))
      ensures elems != [] ==> calls <= (|elems| - 1) * CeilLog2(|elems|)
    {
      ghost var was, width := elems, 0;
      assert UtSort.IsList(UtSort.DL, head, elems);
      head, elems, passes, calls, width := UtSort.Sort(UtSort.DL, head, cmp, elems);
      assert |multiset(elems)| == |elems| && |multiset(was)| == |was|;
      if was != [] {
        ComparisonBound(was, cmp);
      }
    }
  }

  lemma {:induction false} StillApart(u: Use, held: seq<Held>)
    requires Apart(held) && AdmissibleUse(u, held)
    ensures Apart(ResultOfUse(u, held))
    ensures NodesOf(ResultOfUse(u, held)) <= NodesOf(held) + if u.On? then u.op.Added() else {}
  {
    match u
    case On(i, op) => ResultAdds(op, held[i].elems);
    case Concat(i, j) =>
  }

  lemma {:induction false} ResultAdds(op: Op, s: seq<Node>)
    requires op.Admissible(s)
    ensures forall n | n in op.Result(s) :: n in s || n in op.Added()
  {
  }

  /** One use, on whichever lists. */
  method Do(lists: seq<DLList>, u: Use, ghost held: seq<Held>)
    requires HeldBy(lists, held) && AdmissibleUse(u, held)
    modifies lists, NodesOf(held), if u.On? then u.op.Added() else {}
    ensures HeldBy(lists, ResultOfUse(u, held))
  {
    hide IsDL, Op.Result;
    StillApart(u, held);
    ghost var held' := ResultOfUse(u, held);
    match u {
      case On(i, op) => lists[i].Do(op);
      case Concat(i, j) => lists[i].Concat(lists[j]);
    }
    forall k | 0 <= k < |held'| && held'[k].Holds?
      ensures IsDL(lists[k].head, held'[k].elems) && lists[k].elems == held'[k].elems
    {
      if k != u.i {
        assert old(IsDL(lists[k].head, held[k].elems));
      }
    }
  }

  /**
   Whatever macros are run on however many heads, empty ones or lists to begin with: every head that is not stale
   leads to a list, and it holds what the sequence operations say.
   */
  method Run(lists: seq<DLList>, uses: seq<Use>, ghost held: seq<Held>)
    requires HeldBy(lists, held) && AdmissibleRun(uses, held)
    modifies lists, NodesOf(held), AddedBy(uses)
    ensures HeldBy(lists, ResultOfRun(uses, held))
    decreases |uses|
  {
    if uses != [] {
      StillApart(uses[0], held);
      Do(lists, uses[0], held);
      Run(lists, uses[1..], ResultOfUse(uses[0], held));
    }
  }
}
