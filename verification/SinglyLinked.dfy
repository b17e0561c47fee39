/** The LL_ macros: singly-linked lists. They never touch a node's `prev`. */
module SinglyLinked {
  import opened MergeSpec
  import opened UtList
  import UtSort

  class LLList {
    var head: Node?
    ghost var elems: seq<Node>

    ghost predicate Valid()
      reads this, elems
    {
      IsLL(head, elems)
    }

    constructor ()
      ensures Valid() && elems == []
    {
      head, elems := null, [];
    }

    method Prepend(add: Node)
      requires Valid() && add !in elems
      modifies this, add`next
      ensures Valid() && elems == [add] + old(elems)
    {
      add.next := head;
      head := add;
      elems := [add] + elems;
    }

    /** The walk to the last node. */
    method Last() returns (tmp: Node)
      requires Valid() && head != null
      ensures elems != [] && tmp == elems[|elems| - 1]
    {
      tmp := head;
      ghost var i := 0;
      while tmp.next != null
        invariant i < |elems| && tmp == elems[i]
        decreases |elems| - i
      {
        tmp, i := tmp.next, i + 1;
      }
    }

    method Append(add: Node)
      requires Valid() && add !in elems
      modifies this, add`next, Elements(elems)`next
      ensures Valid() && elems == old(elems) + [add]
      ensures forall n | n in old(elems) && n != At(old(elems), |old(elems)| - 1) :: n.next == old(n.next)
    {
      add.next := null;
      if head != null {
        var tmp := Last();
        tmp.next := add;
      } else {
        head := add;
      }
      elems := elems + [add];
    }

    method Concat(other: LLList)
      requires Valid() && other.Valid() && other != this
      requires forall n | n in elems :: n !in other.elems
      modifies this, Elements(elems)`next
      ensures Valid() && elems == old(elems) + other.elems && other.Valid()
    {
      ghost var s, t := elems, other.elems;
      if head != null {
        var tmp := Last();
        tmp.next := other.head;
      } else {
        head := other.head;
      }
      elems := s + t;
      DistinctConcat(s, t);
      forall k | 0 <= k < |elems|
        ensures elems[k].next == After(elems, k, null)
      {
        if k < |s| {
          assert elems[k] == s[k] && s[k] in s;
          SamePosition(s, k, |s| - 1);
        } else {
          assert elems[k] == t[k - |s|] && t[k - |s|] in t;
        }
      }
    }

    /** The walk that stops in front of `el`, or at the last node if `el` does not come up behind the head. */
    method FindBefore(el: Node) returns (tmp: Node, ghost i: nat)
      requires Valid() && head != null && head != el
      ensures i < |elems| && tmp == elems[i]
      ensures if el in elems then i + 1 == Index(elems, el) else i + 1 == |elems|
      ensures tmp.next == null <==> el !in elems
    {
      tmp, i := head, 0;
      while tmp.next != null && tmp.next != el
        invariant i < |elems| && tmp == elems[i]
        invariant forall j | 0 <= j <= i :: elems[j] != el
        decreases |elems| - i
      {
        tmp, i := tmp.next, i + 1;
      }
      if tmp.next != null {
        SamePosition(elems, i + 1, Index(elems, el));
      }
    }

    /** A `del` that is not in the list leaves it as it is. */
    method Delete(del: Node)
      requires Valid() && head != null
      modifies this, Elements(elems)`next
      ensures Valid() && elems == Remove(old(elems), del)
      ensures del !in old(elems) ==> elems == old(elems)
      ensures del.next == old(del.next)
    {
      hide Distinct;
      ghost var was, rest := elems, Remove(elems, del);
      ghost var i := 0;
      if head == del {
        Removal(was, del, 0);
        head := head.next;
      } else {
        var tmp;
        tmp, i := FindBefore(del);
        SamePositions(was, i);
        i := i + 1;
        if tmp.next != null {
          Removal(was, del, i);
          tmp.next := del.next;
        }
      }
      hide Remove, Index;
      elems := rest;
      if del in was {
        forall k | 0 <= k < |rest|
          ensures rest[k].next == After(rest, k, null)
        {
          var o := if k < i then k else k + 1;
          assert rest[k] == was[o];
        }
      }
    }

    lemma {:induction false} SamePositions(s: seq<Node>, i: nat)
      requires Distinct(s) && i < |s|
      ensures forall k | 0 <= k < |s| :: s[k] == s[i] <==> k == i
    {
    }

    lemma {:induction false} Removal(s: seq<Node>, x: Node, i: nat)
      requires Distinct(s) && i < |s| && s[i] == x
      ensures x in s && Index(s, x) == i && Remove(s, x) == s[..i] + s[i + 1..]
      ensures Distinct(s[..i] + s[i + 1..])
    {
      SamePosition(s, i, Index(s, x));
      DistinctRemove(s, i);
    }

    /** `el` not in the list: `add` gets its successor but the list stays as it is. */
    method ReplaceElem(el: Node, add: Node)
      requires Valid() && head != null && add !in elems
      modifies this, add`next, Elements(elems)`next
      ensures Valid() && elems == Replace(old(elems), el, add)
      ensures el !in old(elems) ==> elems == old(elems)
      ensures add.next == old(el.next) && el.next == old(el.next)
    {
      ghost var was := elems;
      add.next := el.next;
      if head == el {
        head := add;
        elems := was[0 := add];
      } else {
        ghost var i;
        var tmp;
        tmp, i := FindBefore(el);
        if tmp.next != null {
          tmp.next := add;
          elems := was[i + 1 := add];
        }
        SamePositions(was, i);
      }
      if el in was {
        DistinctReplace(was, Index(was, el), add);
        SamePosition(was, 0, Index(was, el));
      }
    }

    method PrependElem(el: Node, add: Node)
      requires Valid() && head != null && add !in elems
      modifies this, add`next, Elements(elems)`next
      ensures Valid() && elems == InsertBefore(old(elems), el, add)
      ensures el !in old(elems) ==> elems == old(elems)
      ensures add.next == el
    {
      ghost var was := elems;
      add.next := el;
      if head == el {
        head := add;
      } else {
        ghost var i;
        var tmp;
        tmp, i := FindBefore(el);
        if tmp.next != null {
          tmp.next := add;
        }
        SamePositions(was, i);
      }
      elems := InsertBefore(was, el, add);
      if el in was {
        DistinctInsert(was, Index(was, el), add);
        SamePosition(was, 0, Index(was, el));
      }
    }

    /** LL_FOREACH, here counting: visits the elements in order, once each. */
    method Foreach() returns (counter: nat, ghost visited: seq<Node>)
      requires Valid()
      ensures visited == elems && counter == |elems|
    {
      counter, visited := 0, [];
      var el := head;
      while el != null
        invariant counter <= |elems| && visited == elems[..counter]
        invariant el == At(elems, counter)
        decreases |elems| - counter
      {
        visited := visited + [el];
        counter := counter + 1;
        el := el.next;
      }
    }

    /** LL_SORT. */
    method Sort(cmp: (Node, Node) -> int) returns (ghost passes: nat, ghost calls: nat)
      requires Valid() && |elems| <= 0x4000_0000
      modifies this, Elements(elems)`next
      ensures Valid() && elems == MergeSort(old(elems), cmp)
      ensures IsStableSort(old(elems), elems, cmp)
      ensures elems != [] ==> passes == (if |elems| == 1 then 1 else CeilLog2(|elems|))
      ensures elems != [] ==> calls <= (|elems| - 1) * CeilLog2(|elems|)
    {
      ghost var was, width := elems, 0;
      assert UtSort.IsList(UtSort.LL, head, elems);
      head, elems, passes, calls, width := UtSort.Sort(UtSort.LL, head, cmp, elems);
      assert |multiset(elems)| == |elems| && |multiset(was)| == |was|;
      if was != [] {
        ComparisonBound(was, cmp);
      }
    }
  }
}
