/** The CDL_ macros: circular doubly-linked lists. */
module CircularLinked {
  import opened MergeSpec
  import opened UtList
  import UtSort

  /** The elements of `s` that are not `doomed`, in order. */
  ghost function Kept(s: seq<Node>, doomed: Node -> bool): seq<Node> {
    if s == [] then []
    else
      var n := s[|s| - 1];
      Kept(s[..|s| - 1], doomed) + if doomed(n) then [] else [n]
  }

  lemma {:induction false} KeptAreElements(s: seq<Node>, doomed: Node -> bool)
    ensures forall n | n in Kept(s, doomed) :: n in s
  {
    if s == [] {
    } else {
      KeptAreElements(s[..|s| - 1], doomed);
    }
  }

  class CDLList {
    var head: Node?
    ghost var elems: seq<Node>

    ghost predicate Valid()
      reads this, elems
    {
      IsCDL(head, elems)
    }

    constructor ()
      ensures Valid() && elems == []
    {
      head, elems := null, [];
    }

    method Prepend(add: Node)
      requires Valid() && add !in elems
      modifies this, Just(head)`prev, (if head == null then {} else Just(head.prev))`next, add
      ensures Valid() && elems == [add] + old(elems)
    {
      if head != null {
        add.prev := head.prev;
        add.next := head;
        head.prev := add;
        add.prev.next := add;
      } else {
        add.prev := add;
        add.next := add;
      }
      head := add;
      elems := [add] + elems;
    }

    /** Deletes `del`, whose own links stay as they were unless it was alone. */
    method Delete(del: Node)
      requires Valid() && del in elems
      modifies this, Just(del.next)`prev, Just(del.prev)`next
      ensures Valid() && elems == Remove(old(elems), del)
    {
      hide Distinct;
      ghost var i, was := Index(elems, del), elems;
      ghost var rest := was[..i] + was[i + 1..];
      assert rest == Remove(was, del);
      hide Remove, Index;
      Near(was, 0, i);
      Near(was, |was| - 1, i);
      if head == del && head.next == head {
        head := null;
      } else {
        del.next.prev := del.prev;
        del.prev.next := del.next;
        if del == head {
          head := del.next;
        }
      }
      elems := rest;
      DistinctRemove(was, i);
      forall k | 0 <= k < |rest|
        ensures rest[k].next == After(rest, k, head) && rest[k].prev == Before(rest, k)
      {
        var o := if k < i then k else k + 1;
        assert rest[k] == was[o];
        Near(was, o, i);
      }
    }

    method ReplaceElem(el: Node, add: Node)
      requires Valid() && el in elems && add !in elems
      modifies this, add, Just(el.next)`prev, Just(el.prev)`next
      ensures Valid() && elems == Replace(old(elems), el, add)
    {
      hide Distinct;
      ghost var i, was := Index(elems, el), elems;
      ghost var more := was[i := add];
      assert more == Replace(was, el, add);
      hide Replace, Index;
      Near(was, 0, i);
      if el.next == el {
        add.next := add;
        add.prev := add;
        head := add;
      } else {
        add.next := el.next;
        add.prev := el.prev;
        add.next.prev := add;
        add.prev.next := add;
        if head == el {
          head := add;
        }
      }
      elems := more;
      DistinctReplace(was, i, add);
      forall k | 0 <= k < |more|
        ensures more[k].next == After(more, k, head) && more[k].prev == Before(more, k)
      {
        if k != i {
          assert more[k] == was[k] && was[k] in was;
          Near(was, k, i);
        }
      }
    }

    method PrependElem(el: Node, add: Node)
      requires Valid() && el in elems && add !in elems
      modifies this, add, el`prev, Just(el.prev)`next
      ensures Valid() && elems == InsertBefore(old(elems), el, add)
    {
      hide Distinct;
      ghost var i, was := Index(elems, el), elems;
      ghost var more := was[..i] + [add] + was[i..];
      assert more == InsertBefore(was, el, add);
      hide InsertBefore, Index;
      Near(was, 0, i);
      add.next := el;
      add.prev := el.prev;
      el.prev := add;
      add.prev.next := add;
      if head == el {
        head := add;
      }
      elems := more;
      DistinctInsert(was, i, add);
      forall k | 0 <= k < |more|
        ensures more[k].next == After(more, k, head) && more[k].prev == Before(more, k)
      {
        if k != i {
          var o := if k < i then k else k - 1;
          assert more[k] == was[o] && was[o] in was;
          Near(was, o, i);
        }
      }
    }

    /** CDL_FOREACH, here counting: goes once round and stops before the head comes up again. */
    method Foreach() returns (counter: nat, ghost visited: seq<Node>)
      requires Valid()
      ensures visited == elems && counter == |elems|
    {
      counter, visited := 0, [];
      var el := head;
      while el != null
        invariant counter <= |elems| && visited == elems[..counter]
        invariant el == At(elems, counter)
        decreases |elems| - counter
      {
        Near(elems, 0, counter);
        visited := visited + [el];
        counter := counter + 1;
        el := if el.next == head then null else el.next;
      }
    }

    /**
     CDL_FOREACH_SAFE around a body that deletes the current node if it is `doomed`: every original node
     comes up exactly once, in order, whichever of them are deleted meanwhile.
     */
    method ForeachSafe(doomed: Node -> bool) returns (ghost visited: seq<Node>)
      requires Valid()
      modifies this, Elements(elems)
      ensures visited == old(elems)
      ensures Valid() && elems == Kept(old(elems), doomed)
    {
      hide IsCDL, Distinct, Kept, Remove, At;
      ghost var was, todo := elems, elems;
      var el, tmp1 := head, if head != null then head.prev else null;
      visited := [];
      SafeBegin(doomed);
      while el != null
        invariant Valid() && was == visited + todo && Distinct(was)
        invariant elems == Kept(visited, doomed) + todo
        invariant el == At(todo, 0) && tmp1 == At(was, |was| - 1)
        decreases |todo|
      {
        SafeStep(was, visited, todo, doomed);
        var cur: Node := el;
        visited, todo := visited + [cur], todo[1..];
        var tmp2 := el.next;
        Visit(cur, doomed);
        el := if el == tmp1 then null else tmp2;
      }
      AtEnd(todo);
    }

    static lemma {:induction false} AtEnd(s: seq<Node>)
      requires At(s, 0) == null
      ensures s == []
    {
    }

    lemma {:induction false} SafeBegin(doomed: Node -> bool)
      requires Valid()
      ensures Distinct(elems) && head == At(elems, 0) && elems == Kept([], doomed) + elems
      ensures (if head != null then head.prev else null) == At(elems, |elems| - 1)
    {
    }

    /** What deleting or keeping the current node makes of the sequences. */
    static lemma {:induction false} StepOnSequences(visited: seq<Node>, x: Node, rest: seq<Node>, cur: seq<Node>,
                                                    doomed: Node -> bool)
      requires Distinct(cur) && cur == Kept(visited, doomed) + ([x] + rest)
      ensures x in cur && cur[|Kept(visited, doomed)|] == x
      ensures Remove(cur, x) == Kept(visited, doomed) + rest
      ensures Kept(visited + [x], doomed) + rest == if doomed(x) then Remove(cur, x) else cur
    {
      var kept := Kept(visited, doomed);
      assert cur[|kept|] == x;
      SamePosition(cur, Index(cur, x), |kept|);
      assert (visited + [x])[..|visited|] == visited;
    }

    /**
     What the body sees: the current node is in the ring, and leads to the next original one unless it is the old
     tail.
     */
    lemma {:induction false} SafeStep(was: seq<Node>, visited: seq<Node>, todo: seq<Node>, doomed: Node -> bool)
      requires Valid() && Distinct(was) && was == visited + todo
      requires elems == Kept(visited, doomed) + todo && At(todo, 0) != null
      ensures todo != [] && At(todo, 0) == todo[0]
      ensures var x, rest := todo[0], todo[1..];
        && x in elems && x.next in Elements(was) && x.prev in Elements(was)
        && was == visited + [x] + rest
        && At(rest, 0) == (if x == At(was, |was| - 1) then null else x.next)
        && Kept(visited + [x], doomed) + rest == if doomed(x) then Remove(elems, x) else elems
    {
      hide Kept, Remove, Distinct, IsCDL;
      var x, rest, kept := todo[0], todo[1..], Kept(visited, doomed);
      assert todo == [x] + rest && elems == kept + ([x] + rest);
      KeptAreElements(visited, doomed);
      InRing(|kept|);
      StepOnSequences(visited, x, rest, elems, doomed);
      assert Elements(elems) <= Elements(was);
      SamePosition(was, |visited|, |was| - 1);
      if rest != [] {
        assert elems[|kept| + 1] == rest[0];
      }
    }

    lemma {:induction false} InRing(i: nat)
      requires Valid() && i < |elems|
      ensures Distinct(elems)
      ensures elems[i].next == After(elems, i, head)
      ensures elems[i].next in Elements(elems) && elems[i].prev in Elements(elems)
    {
    }

    /** The body of the loop. */
    method Visit(el: Node, doomed: Node -> bool)
      requires Valid() && el in elems
      modifies this, Just(el.next)`prev, Just(el.prev)`next
      ensures Valid() && elems == if doomed(el) then Remove(old(elems), el) else old(elems)
    {
      if doomed(el) {
        Delete(el);
      }
    }

    /** CDL_SORT. */
    method Sort(cmp: (Node, Node) -> int) returns (ghost passes: nat, ghost calls: nat)
      requires Valid() && |elems| <= 0x4000_0000
      modifies this, Elements(elems)
      ensures Valid() && elems == MergeSort(old(elems), cmp)
      ensures IsStableSort(old(elems), elems, cmp)
      ensures elems != [] ==> passes == (if |elems| == 1 then 1 else CeilLog2(|elems|))
      ensures elems != [] ==> calls <= (|elems| - 1) * CeilLog2(|elems|)
    {
      ghost var was, width := elems, 0;
      assert UtSort.IsList(UtSort.CDL, head, elems);
      head, elems, passes, calls, width := UtSort.Sort(UtSort.CDL, head, cmp, elems);
      assert |multiset(elems)| == |elems| && |multiset(was)| == |was|;
      if was != [] {
        ComparisonBound(was, cmp);
      }
    }
  }
}
