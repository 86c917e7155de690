/**
 * How one step's `.substep` elements become its ordered list of navigation
 * slots (`getSubSteps` in browser/impressAsqAdapter.js).
 *
 * An element whose `data-order` parses to an array index `k` joins the group
 * at `order[k]`; the groups are then read back in ascending index order with
 * the holes skipped (`order.filter(Boolean)`), and the elements without a
 * usable order follow, one slot each, in document order. A numeric order
 * that is not an array index (negative, fractional, infinite, or past the
 * largest index) becomes a plain property of `order` that `filter` never
 * visits, so that element disappears.
 */
module Substeps {
  import opened Values

  /** What `Number(el.dataset.order)` gives: NaN, an integer, or a non-integer (fraction, infinity). */
  datatype OrderValue = NotANumber | Integer(i: int) | NonInteger

  /**
   * A `.substep` element: its identity and its `dataset` (None where the
   * browser offers no `dataset` support).
   */
  datatype SubstepElement<E> = SubstepElement(elem: E, dataset: Option<OrderValue>)

  /** A navigation slot: the elements revealed together (a lone element is a group of one). */
  type Slot<E> = seq<E>

  /** The largest array index, 2^32 - 2. */
  const MaxArrayIndex: nat := 0xFFFF_FFFE

  /** The array index `order[index]` writes to, or None when the element is not ordered by index. */
  function OrderIndex<E>(x: SubstepElement<E>): (r: Option<nat>)
    ensures r.Some? <==> x.dataset.Some? && x.dataset.value.Integer? && 0 <= x.dataset.value.i <= MaxArrayIndex
    ensures r.Some? ==> r.value == x.dataset.value.i
  {
    match x.dataset
    case Some(Integer(i)) => if 0 <= i <= MaxArrayIndex then Some(i) else None
    case _ => None
  }

  /** The element goes to `unordered`: no dataset, or an order that is NaN. */
  predicate IsUnordered<E>(x: SubstepElement<E>)
    ensures IsUnordered(x) ==> OrderIndex(x).None?
    ensures !IsUnordered(x) && OrderIndex(x).None? ==> x.dataset.Some? && !x.dataset.value.NotANumber?
  {
    x.dataset.None? || x.dataset.value.NotANumber?
  }

  /** The elements grouped at `order[k]`, in document order. */
  function Group<E>(items: seq<SubstepElement<E>>, k: nat): seq<E>
  {
    if items == [] then []
    else
      var last := items[|items| - 1];
      Group(items[..|items| - 1], k) + (if OrderIndex(last) == Some(k) then [last.elem] else [])
  }

  /** The `unordered` array: elements without a usable order, in document order. */
  function Unordered<E>(items: seq<SubstepElement<E>>): seq<E>
  {
    if items == [] then []
    else
      var last := items[|items| - 1];
      Unordered(items[..|items| - 1]) + (if IsUnordered(last) then [last.elem] else [])
  }

  /** `order.length`: one past the largest index written. */
  function Bound<E>(items: seq<SubstepElement<E>>): nat
  {
    if items == [] then 0
    else
      var b := Bound(items[..|items| - 1]);
      match OrderIndex(items[|items| - 1])
      case Some(k) => if b < k + 1 then k + 1 else b
      case None => b
  }

  /** The occupied indices of `order` below `hi`, in ascending order. */
  function SlotKeys<E>(items: seq<SubstepElement<E>>, hi: nat): (keys: seq<nat>)
    ensures forall i, j :: 0 <= i < j < |keys| ==> keys[i] < keys[j]
    ensures forall k: nat {:trigger k in keys} :: k in keys <==> k < hi && Group(items, k) != []
  {
    if hi == 0 then []
    else
      var below := SlotKeys(items, hi - 1);
      assert forall i :: 0 <= i < |below| ==> below[i] in below;
      if Group(items, hi - 1) != [] then below + [hi - 1] else below
  }

  /** `order.filter(Boolean)` over the indices below `hi`: the occupied groups, holes skipped. */
  function Compact<E>(items: seq<SubstepElement<E>>, hi: nat): seq<Slot<E>>
  {
    if hi == 0 then []
    else Compact(items, hi - 1) + (if Group(items, hi - 1) != [] then [Group(items, hi - 1)] else [])
  }

  /** The compacted slots are the occupied groups, one per occupied index, in index order. */
  lemma {:induction false} CompactSlots<E>(items: seq<SubstepElement<E>>, hi: nat)
    ensures |Compact(items, hi)| == |SlotKeys(items, hi)|
    ensures forall i :: 0 <= i < |Compact(items, hi)| ==> Compact(items, hi)[i] == Group(items, SlotKeys(items, hi)[i])
  {
    if hi > 0 {
      CompactSlots(items, hi - 1);
      var below, keys := Compact(items, hi - 1), SlotKeys(items, hi - 1);
      if Group(items, hi - 1) != [] {
        assert Compact(items, hi) == below + [Group(items, hi - 1)];
        assert SlotKeys(items, hi) == keys + [hi - 1];
      } else {
        assert Compact(items, hi) == below;
        assert SlotKeys(items, hi) == keys;
      }
    }
  }

  /** Each unordered element as a slot of its own (what `concat` does with them). */
  function Singletons<E>(u: seq<E>): (slots: seq<Slot<E>>)
    ensures |slots| == |u|
    ensures forall j :: 0 <= j < |u| ==> slots[j] == [u[j]]
  {
    seq(|u|, j requires 0 <= j < |u| => [u[j]])
  }

  /** The result of `getSubSteps`: the ordered groups, then the unordered elements. */
  function SubSteps<E>(items: seq<SubstepElement<E>>): seq<Slot<E>>
  {
    Compact(items, Bound(items)) + Singletons(Unordered(items))
  }

  /** The occupied indices of the finished `order` array. */
  function OrderKeys<E>(items: seq<SubstepElement<E>>): seq<nat>
  {
    SlotKeys(items, Bound(items))
  }

  /** How `order`, `unordered` and `order.length` grow when one more element is read. */
  lemma ExtendByOne<E>(items: seq<SubstepElement<E>>, i: nat)
    requires i < |items|
    ensures forall k: nat :: Group(items[..i + 1], k) ==
              Group(items[..i], k) + (if OrderIndex(items[i]) == Some(k) then [items[i].elem] else [])
    ensures Unordered(items[..i + 1]) ==
              Unordered(items[..i]) + (if IsUnordered(items[i]) then [items[i].elem] else [])
    ensures Bound(items[..i + 1]) ==
              match OrderIndex(items[i])
              case Some(k) => if Bound(items[..i]) < k + 1 then k + 1 else Bound(items[..i])
              case None => Bound(items[..i])
  {
    assert items[..i + 1][..i] == items[..i];
  }

  /**
   * `getSubSteps(el)`: one pass over the elements fills the sparse `order`
   * array and the `unordered` list, a second pass over `order` skips the
   * holes, and the unordered elements are appended.
   */
  method GetSubSteps<E>(items: seq<SubstepElement<E>>) returns (r: seq<Slot<E>>)
    ensures r == SubSteps(items)
  {
    var order: map<nat, Slot<E>> := map[];
    var length: nat := 0;
    var unordered: seq<E> := [];
    for i := 0 to |items|
      invariant length == Bound(items[..i])
      invariant forall k :: k in order <==> Group(items[..i], k) != []
      invariant forall k :: k in order ==> order[k] == Group(items[..i], k)
      invariant unordered == Unordered(items[..i])
    {
      var x := items[i];
      ExtendByOne(items, i);
      match OrderIndex(x)
      case Some(k) =>
        // `order[index] = el`, `order[index].push(el)` or `[order[index], el]`: the group grows by one
        order := order[k := if k in order then order[k] + [x.elem] else [x.elem]];
        if length < k + 1 {
          length := k + 1;
        }
      case None =>
        if IsUnordered(x) {
          unordered := unordered + [x.elem];
        }
        // otherwise `order[index]` names a property that is not an array index: never read back
    }
    assert items[..|items|] == items;
    var slots: seq<Slot<E>> := [];
    for k := 0 to length
      invariant slots == Compact(items, k)
    {
      if k in order {
        slots := slots + [order[k]];
      }
    }
    r := slots + Singletons(unordered);
  }

  /** A group is occupied exactly when some element carries its index. */
  lemma {:induction false} GroupOccupied<E>(items: seq<SubstepElement<E>>, k: nat)
    ensures Group(items, k) != [] <==> exists j :: 0 <= j < |items| && OrderIndex(items[j]) == Some(k)
  {
    if items != [] {
      var init := items[..|items| - 1];
      GroupOccupied(init, k);
      if Group(init, k) != [] {
        var j :| 0 <= j < |init| && OrderIndex(init[j]) == Some(k);
        assert items[j] == init[j];
      }
      if exists j :: 0 <= j < |items| && OrderIndex(items[j]) == Some(k) {
        var j :| 0 <= j < |items| && OrderIndex(items[j]) == Some(k);
        if j < |init| {
          assert init[j] == items[j];
        }
      }
    }
  }

  /** Every index written lies below `order.length`. */
  lemma {:induction false} BoundCovers<E>(items: seq<SubstepElement<E>>, j: nat)
    requires j < |items| && OrderIndex(items[j]).Some?
    ensures OrderIndex(items[j]).value < Bound(items)
  {
    var init := items[..|items| - 1];
    if j < |init| {
      assert init[j] == items[j];
      BoundCovers(init, j);
    }
  }

  /**
   * The layout of `getSubSteps`' result: first one slot per distinct index,
   * in ascending index order, each holding every element with that index in
   * document order; then one slot per unordered element, in document order.
   * Its length is the number of distinct indices plus the number of
   * unordered elements.
   */
  lemma SubStepsLayout<E>(items: seq<SubstepElement<E>>)
    ensures |SubSteps(items)| == |OrderKeys(items)| + |Unordered(items)|
    ensures forall i, j :: 0 <= i < j < |OrderKeys(items)| ==> OrderKeys(items)[i] < OrderKeys(items)[j]
    ensures forall k: nat :: k in OrderKeys(items) <==>
              exists j :: 0 <= j < |items| && OrderIndex(items[j]) == Some(k)
    ensures forall i :: 0 <= i < |OrderKeys(items)| ==>
              SubSteps(items)[i] == Group(items, OrderKeys(items)[i]) != []
    ensures forall j :: 0 <= j < |Unordered(items)| ==>
              SubSteps(items)[|OrderKeys(items)| + j] == [Unordered(items)[j]]
  {
    CompactSlots(items, Bound(items));
    forall k: nat
      ensures k in OrderKeys(items) <==> exists j :: 0 <= j < |items| && OrderIndex(items[j]) == Some(k)
    {
      GroupOccupied(items, k);
      if exists j :: 0 <= j < |items| && OrderIndex(items[j]) == Some(k) {
        var j :| 0 <= j < |items| && OrderIndex(items[j]) == Some(k);
        BoundCovers(items, j);
      }
    }
  }

  /** The elements `getSubSteps` keeps, in document order: all but those with a non-index number. */
  function Kept<E>(items: seq<SubstepElement<E>>): seq<E>
  {
    if items == [] then []
    else
      var last := items[|items| - 1];
      Kept(items[..|items| - 1]) + (if OrderIndex(last).Some? || IsUnordered(last) then [last.elem] else [])
  }

  /** The elements ordered by an index below `hi`, in document order. */
  function OrderedBelow<E>(items: seq<SubstepElement<E>>, hi: nat): seq<E>
  {
    if items == [] then []
    else
      var last := items[|items| - 1];
      OrderedBelow(items[..|items| - 1], hi)
        + (if OrderIndex(last).Some? && OrderIndex(last).value < hi then [last.elem] else [])
  }

  /** The slots laid end to end. */
  function Flatten<E>(slots: seq<Slot<E>>): seq<E>
  {
    if slots == [] then [] else Flatten(slots[..|slots| - 1]) + slots[|slots| - 1]
  }

  lemma {:induction false} FlattenAppend<E>(a: seq<Slot<E>>, b: seq<Slot<E>>)
    ensures Flatten(a + b) == Flatten(a) + Flatten(b)
    decreases |b|
  {
    if b == [] {
      assert a + b == a;
    } else {
      var init := b[..|b| - 1];
      assert (a + b)[..|a + b| - 1] == a + init;
      assert (a + b)[|a + b| - 1] == b[|b| - 1];
      FlattenAppend(a, init);
    }
  }

  lemma {:induction false} FlattenSingletons<E>(u: seq<E>)
    ensures Flatten(Singletons(u)) == u
  {
    if u != [] {
      var init := u[..|u| - 1];
      assert Singletons(u)[..|u| - 1] == Singletons(init);
      FlattenSingletons(init);
      assert u == init + [u[|u| - 1]];
    }
  }

  /** Raising the bound by one adds exactly the group at the old bound. */
  lemma {:induction false} OrderedBelowStep<E>(items: seq<SubstepElement<E>>, hi: nat)
    ensures multiset(OrderedBelow(items, hi + 1)) == multiset(OrderedBelow(items, hi)) + multiset(Group(items, hi))
  {
    if items != [] {
      var init, last := items[..|items| - 1], items[|items| - 1];
      OrderedBelowStep(init, hi);
      var above := if OrderIndex(last).Some? && OrderIndex(last).value < hi + 1 then [last.elem] else [];
      var below := if OrderIndex(last).Some? && OrderIndex(last).value < hi then [last.elem] else [];
      var at := if OrderIndex(last) == Some(hi) then [last.elem] else [];
      assert OrderedBelow(items, hi + 1) == OrderedBelow(init, hi + 1) + above;
      assert OrderedBelow(items, hi) == OrderedBelow(init, hi) + below;
      assert Group(items, hi) == Group(init, hi) + at;
      assert multiset(above) == multiset(below) + multiset(at);
    }
  }

  /** Raising the bound by one appends the group at the old bound to the flattened slots. */
  lemma CompactFlattenStep<E>(items: seq<SubstepElement<E>>, hi: nat)
    ensures Flatten(Compact(items, hi + 1)) == Flatten(Compact(items, hi)) + Group(items, hi)
  {
    var below, g := Compact(items, hi), Group(items, hi);
    if g != [] {
      assert Compact(items, hi + 1) == below + [g];
      FlattenAppend(below, [g]);
      assert Flatten([g]) == g by {
        assert [g][..0] == [];
      }
    } else {
      assert Compact(items, hi + 1) == below;
    }
  }

  lemma {:induction false} CompactKeepsOrdered<E>(items: seq<SubstepElement<E>>, hi: nat)
    ensures multiset(Flatten(Compact(items, hi))) == multiset(OrderedBelow(items, hi))
  {
    if hi == 0 {
      OrderedBelowNone(items);
    } else {
      var lo := hi - 1;
      CompactFlattenStep(items, lo);
      CompactKeepsOrdered(items, lo);
      OrderedBelowStep(items, lo);
      var f, g := Flatten(Compact(items, lo)), Group(items, lo);
      calc {
        multiset(Flatten(Compact(items, hi)));
        multiset(f + g);
        multiset(f) + multiset(g);
        multiset(OrderedBelow(items, lo)) + multiset(g);
        multiset(OrderedBelow(items, hi));
      }
    }
  }

  lemma {:induction false} OrderedBelowNone<E>(items: seq<SubstepElement<E>>)
    ensures OrderedBelow(items, 0) == []
  {
    if items != [] {
      OrderedBelowNone(items[..|items| - 1]);
    }
  }

  /** Below `order.length`, every indexed element is counted, and the rest are unordered or dropped. */
  lemma {:induction false} KeptSplits<E>(items: seq<SubstepElement<E>>, hi: nat)
    requires Bound(items) <= hi
    ensures multiset(Kept(items)) == multiset(OrderedBelow(items, hi)) + multiset(Unordered(items))
  {
    if items != [] {
      KeptSplits(items[..|items| - 1], hi);
      var last := items[|items| - 1];
      assert OrderIndex(last).Some? ==> OrderIndex(last).value < Bound(items);
    }
  }

  /**
   * No substep is lost or duplicated by the grouping: the slots together
   * hold exactly the kept elements. Only an element whose order is a number
   * but not an array index is dropped.
   */
  lemma SubStepsKeepsElements<E>(items: seq<SubstepElement<E>>)
    ensures multiset(Flatten(SubSteps(items))) == multiset(Kept(items))
  {
    FlattenAppend(Compact(items, Bound(items)), Singletons(Unordered(items)));
    FlattenSingletons(Unordered(items));
    CompactKeepsOrdered(items, Bound(items));
    KeptSplits(items, Bound(items));
  }
}
