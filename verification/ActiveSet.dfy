/** The list of active pixels with its inverse, and removal by moving the last entry into the gap. */
module ActiveSet {
  import opened Sequences

  /** Pigeonhole: n distinct numbers below n are all there is room for. */
  lemma {:induction false} DistinctBelow(s: seq<nat>, n: nat)
    requires Distinct(s) && forall i :: 0 <= i < |s| ==> s[i] < n
    ensures |s| <= n
  {
    if s != [] {
      assert s[0] < n;
      if n - 1 in s {
        var j :| 0 <= j < |s| && s[j] == n - 1;
        var t := s[..j] + s[j + 1..];
        DistinctBelow(t, n - 1);
      } else {
        DistinctBelow(s, n - 1);
      }
    }
  }

  /** The first `count` entries of the list and the non-zero slots are each other's inverse. */
  ghost predicate Linked(list: seq<nat>, slots: seq<nat>, count: nat, limit: nat) {
    && count <= limit <= |list| == |slots|
    && (forall i :: 0 <= i < count ==> list[i] < limit && slots[list[i]] == i + 1)
    && (forall p :: 0 <= p < limit ==> slots[p] == 0 || (slots[p] <= count && list[slots[p] - 1] == p))
  }

  /** A pixel outside the list leaves room for itself: the source's capacity guard never fires. */
  lemma RoomFor(list: seq<nat>, slots: seq<nat>, count: nat, limit: nat, p: nat)
    requires Linked(list, slots, count, limit) && p < limit && slots[p] == 0
    ensures count < limit
  {
    var s := list[..count] + [p];
    forall i, j | 0 <= i < j < |s|
      ensures s[i] != s[j]
    {
      assert i < count && s[i] == list[i] && slots[list[i]] == i + 1;
      if j < count {
        assert s[j] == list[j] && slots[list[j]] == j + 1;
      }
    }
    DistinctBelow(s, limit);
  }

  lemma LinkAdded(list: seq<nat>, slots: seq<nat>, count: nat, limit: nat, p: nat)
    requires Linked(list, slots, count, limit) && p < limit && slots[p] == 0
    ensures count < limit && Linked(list[count := p], slots[p := count + 1], count + 1, limit)
  {
    RoomFor(list, slots, count, limit, p);
  }

  /** The slots after pixel p has left the list and the last pixel has moved to its position. */
  function SlotsWithout(list: seq<nat>, slots: seq<nat>, count: nat, p: nat): seq<nat>
    requires p < |slots| && 0 < count <= |list| && list[count - 1] < |slots|
  {
    if slots[p] == count then slots[p := 0] else slots[p := 0][list[count - 1] := slots[p]]
  }

  lemma LinkBounds(list: seq<nat>, slots: seq<nat>, count: nat, limit: nat, p: nat)
    requires Linked(list, slots, count, limit) && p < limit && slots[p] != 0
    ensures 0 < slots[p] <= count && list[slots[p] - 1] == p && list[count - 1] < limit
    ensures slots[list[count - 1]] == count
  {
  }

  lemma SlotsWithoutAt(list: seq<nat>, slots: seq<nat>, count: nat, limit: nat, p: nat)
    requires Linked(list, slots, count, limit) && p < limit && slots[p] != 0
    ensures count > 0 && list[count - 1] < |slots|
    ensures SlotsWithout(list, slots, count, p)[p] == 0
    ensures forall q :: 0 <= q < limit && q != p ==>
              SlotsWithout(list, slots, count, p)[q] == if slots[q] == count then slots[p] else slots[q]
  {
    LinkBounds(list, slots, count, limit, p);
    forall q | 0 <= q < limit && q != p
      ensures SlotsWithout(list, slots, count, p)[q] == if slots[q] == count then slots[p] else slots[q]
    {
      if slots[q] == count {
        assert list[count - 1] == q;
      }
    }
  }

  lemma LinkRemoved(list: seq<nat>, slots: seq<nat>, count: nat, limit: nat, p: nat)
    requires Linked(list, slots, count, limit) && p < limit && slots[p] != 0
    ensures 0 < slots[p] <= count && list[count - 1] < limit
    ensures Linked(list[slots[p] - 1 := list[count - 1]], SlotsWithout(list, slots, count, p), count - 1, limit)
  {
    LinkBounds(list, slots, count, limit, p);
    var list', slots' := list[slots[p] - 1 := list[count - 1]], SlotsWithout(list, slots, count, p);
    SlotsWithoutAt(list, slots, count, limit, p);
    forall i | 0 <= i < count - 1
      ensures list'[i] < limit && slots'[list'[i]] == i + 1
    {
      assert slots[list[i]] == i + 1;
    }
    forall q | 0 <= q < limit
      ensures slots'[q] == 0 || (slots'[q] <= count - 1 && list'[slots'[q] - 1] == q)
    {
      assert slots[q] == 0 || (slots[q] <= count && list[slots[q] - 1] == q);
    }
  }

  /** The entry at position n is the pixel whose slot says so, and no other pixel's slot does. */
  lemma EntryAt(list: seq<nat>, slots: seq<nat>, count: nat, limit: nat, n: nat)
    requires Linked(list, slots, count, limit) && n < count
    ensures list[n] < limit && slots[list[n]] == n + 1
    ensures forall q :: 0 <= q < limit && slots[q] == n + 1 ==> q == list[n]
  {
  }

  lemma SlotsBounded(list: seq<nat>, slots: seq<nat>, count: nat, limit: nat)
    requires Linked(list, slots, count, limit)
    ensures forall q :: 0 <= q < limit ==> slots[q] <= count
  {
  }

  lemma ListedIffSlot(list: seq<nat>, slots: seq<nat>, count: nat, limit: nat, p: nat)
    requires Linked(list, slots, count, limit) && p < limit
    ensures p in list[..count] <==> slots[p] != 0
  {
    if slots[p] != 0 {
      assert list[..count][slots[p] - 1] == p;
    }
  }

  lemma ListDistinct(list: seq<nat>, slots: seq<nat>, count: nat, limit: nat)
    requires Linked(list, slots, count, limit)
    ensures Distinct(list[..count])
  {
    forall i, j | 0 <= i < j < count
      ensures list[..count][i] != list[..count][j]
    {
      assert slots[list[i]] == i + 1 && slots[list[j]] == j + 1;
    }
  }

  class ActiveSet {
    /** Number of pixels in use; slots above it may hold stale values from a larger texture. */
    var limit: nat
    /** The active pixels, `count` of them. */
    var list: array<nat>
    /** One more than a pixel's position in the list, or 0. */
    var slots: array<nat>
    var count: nat

    ghost predicate Valid()
      reads this, list, slots
    {
      && list != slots && count <= limit <= list.Length == slots.Length
      && Linked(list[..], slots[..], count, limit)
    }

    constructor (n: nat)
      ensures Valid() && fresh(list) && fresh(slots) && limit == n && count == 0
      ensures forall p :: 0 <= p < n ==> slots[p] == 0
    {
      limit, count := n, 0;
      list := new nat[n];
      slots := new nat[n](i => 0);
    }

    /** What a new texture size does: larger buffers if needed, the slots in use cleared, the list emptied. */
    method Resize(n: nat)
      requires Valid()
      modifies this, slots
      ensures Valid() && limit == n && count == 0
      ensures forall p :: 0 <= p < n ==> slots[p] == 0
      ensures (list == old(list) && slots == old(slots)) || (fresh(list) && fresh(slots))
    {
      if n > list.Length {
        list := new nat[n];
        slots := new nat[n](i => 0);
      }
      for p := 0 to n
        invariant list != slots && n <= list.Length == slots.Length
        invariant forall q :: 0 <= q < p ==> slots[q] == 0
        modifies slots
      {
        slots[p] := 0;
      }
      limit, count := n, 0;
    }

    /** Adds a pixel; afterwards it is active, and the others keep their positions. */
    method Activate(p: nat)
      requires Valid() && p < limit
      modifies this`count, list, slots
      ensures Valid()
      ensures slots[..] == if old(slots[p]) != 0 then old(slots[..]) else old(slots[..])[p := count]
      ensures count == if old(slots[p]) != 0 then old(count) else old(count) + 1
    {
      hide Linked;
      if slots[p] != 0 {
        return;
      }
      LinkAdded(list[..], slots[..], count, limit, p);
      list[count] := p;
      slots[p] := count + 1;
      count := count + 1;
      assert list[..] == old(list[..])[count - 1 := p];
    }

    /** Removes a pixel: the last entry of the list takes its place, every other entry stays put. */
    method Remove(p: nat)
      requires Valid() && p < limit
      modifies this`count, list, slots
      ensures Valid()
      ensures slots[p] == 0
      ensures count == if old(slots[p]) == 0 then old(count) else old(count) - 1
      ensures forall q :: 0 <= q < limit && q != p ==>
                slots[q] == if old(slots[p]) != 0 && old(slots[q]) == old(count) then old(slots[p]) else old(slots[q])
    {
      hide Linked;
      if slots[p] == 0 {
        return;
      }
      ghost var l, s := list[..], slots[..];
      LinkBounds(l, s, count, limit, p);
      LinkRemoved(l, s, count, limit, p);
      SlotsWithoutAt(l, s, count, limit, p);
      var slot, lastSlot := slots[p] - 1, count - 1;
      var moved := list[lastSlot];
      slots[p] := 0;
      if slot != lastSlot {
        list[slot] := moved;
        slots[moved] := slot + 1;
      }
      count := lastSlot;
      assert list[..] == l[slot := moved];
      assert slots[..] == SlotsWithout(l, s, lastSlot + 1, p);
    }
  }
}
