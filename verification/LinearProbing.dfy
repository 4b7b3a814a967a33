/**
 Open addressing with linear probing and no deletion, on the sequence of keys in the table.
 Key 0 marks a free slot, `home(k)` is the slot key k would like to have and `pos[k]` the slot it has.
 Both hash tables of the debugger (blit records and profile entries) are instances.
 */
module LinearProbing {
  import opened Sequences

  /** The slot reached after d probing steps from h. */
  function Slot(h: nat, d: nat, cap: nat): (i: nat)
    requires h < cap && d < cap
    ensures i < cap
  {
    if h + d < cap then h + d else h + d - cap
  }

  function Next(i: nat, cap: nat): (j: nat)
    requires i < cap
    ensures j < cap && j == (i + 1) % cap
  {
    if i + 1 < cap then i + 1 else 0
  }

  /** How many probing steps slot i lies past slot h. */
  function Steps(h: nat, i: nat, cap: nat): (d: nat)
    requires h < cap && i < cap
    ensures d < cap && Slot(h, d, cap) == i
  {
    if i >= h then i - h else i - h + cap
  }

  ghost predicate KeysPlaced(keys: seq<nat>, pos: map<nat, nat>) {
    && (forall k :: k in pos ==> k != 0 && pos[k] < |keys| && keys[pos[k]] == k)
    && (forall i :: 0 <= i < |keys| && keys[i] != 0 ==> keys[i] in pos && pos[keys[i]] == i)
  }

  /** No free slot lies between slot h and slot i. */
  ghost predicate PathFull(keys: seq<nat>, h: nat, i: nat)
    requires h < |keys| && i < |keys|
  {
    forall d :: 0 <= d < Steps(h, i, |keys|) ==> keys[Slot(h, d, |keys|)] != 0
  }

  ghost predicate HomeInRange(home: nat -> nat, cap: nat) {
    forall k :: home(k) < cap
  }

  ghost predicate Probed(keys: seq<nat>, home: nat -> nat, pos: map<nat, nat>) {
    && HomeInRange(home, |keys|)
    && KeysPlaced(keys, pos)
    && forall k :: k in pos ==> PathFull(keys, home(k), pos[k])
  }

  /** The record of every key of the map m sits in the key's slot. */
  ghost predicate RecordsPlaced<R>(recs: seq<R>, pos: map<nat, nat>, m: map<nat, R>) {
    && (forall k :: k in m <==> k in pos)
    && (forall k :: k in m ==> pos[k] < |recs| && recs[pos[k]] == m[k])
  }

  /** The table's keys and records stand for the map m. */
  ghost predicate Represents<R>(keys: seq<nat>, recs: seq<R>, home: nat -> nat, pos: map<nat, nat>, m: map<nat, R>) {
    |keys| == |recs| && Probed(keys, home, pos) && RecordsPlaced(recs, pos, m)
  }

  lemma SameSize<R>(keys: seq<nat>, recs: seq<R>, home: nat -> nat, pos: map<nat, nat>, m: map<nat, R>)
    requires Represents(keys, recs, home, pos, m)
    ensures |pos| == |m|
  {
    assert pos.Keys == m.Keys;
  }

  lemma EmptyTable<R>(keys: seq<nat>, recs: seq<R>, home: nat -> nat)
    requires |keys| == |recs| && HomeInRange(home, |keys|)
    requires forall i :: 0 <= i < |keys| ==> keys[i] == 0
    ensures Represents(keys, recs, home, map[], map[])
  {
  }

  /**
   The slot at which a probe for k that starts at h stops, n steps on: it holds k or is free.
   |keys| means that the probe came full circle.
   */
  function Search(keys: seq<nat>, h: nat, k: nat, n: nat): (i: nat)
    requires h < |keys| && n <= |keys|
    ensures i <= |keys|
    ensures i < |keys| ==> keys[i] == 0 || keys[i] == k
    ensures i < |keys| ==> forall d :: n <= d < Steps(h, i, |keys|) ==> keys[Slot(h, d, |keys|)] != 0 && keys[Slot(h, d, |keys|)] != k
    ensures i == |keys| ==> forall d :: n <= d < |keys| ==> keys[Slot(h, d, |keys|)] != 0 && keys[Slot(h, d, |keys|)] != k
    decreases |keys| - n
  {
    if n == |keys| then |keys|
    else if keys[Slot(h, n, |keys|)] == 0 || keys[Slot(h, n, |keys|)] == k then Slot(h, n, |keys|)
    else Search(keys, h, k, n + 1)
  }

  /** A probe finds a key exactly when the key is in the table, and finds it where it was put. */
  lemma SearchDecides(keys: seq<nat>, home: nat -> nat, pos: map<nat, nat>, k: nat)
    requires Probed(keys, home, pos) && k != 0
    ensures var i := Search(keys, home(k), k, 0);
            && (k in pos <==> i < |keys| && keys[i] == k)
            && (k in pos ==> i == pos[k])
  {
    var h := home(k);
    if k in pos {
      var p := pos[k];
      assert PathFull(keys, h, p);
      assert keys[Slot(h, Steps(h, p, |keys|), |keys|)] == k;
    }
  }

  lemma PathKept(keys: seq<nat>, h: nat, i: nat, j: nat, k: nat)
    requires h < |keys| && i < |keys| && j < |keys| && k != 0
    requires PathFull(keys, h, i)
    ensures PathFull(keys[j := k], h, i)
  {
  }

  lemma PathOfSearch(keys: seq<nat>, h: nat, k: nat)
    requires h < |keys| && Search(keys, h, k, 0) < |keys|
    ensures PathFull(keys, h, Search(keys, h, k, 0))
  {
  }

  lemma KeyAdded(keys: seq<nat>, pos: map<nat, nat>, k: nat, i: nat)
    requires KeysPlaced(keys, pos) && k != 0 && k !in pos && i < |keys| && keys[i] == 0
    ensures KeysPlaced(keys[i := k], pos[k := i])
  {
  }

  /** Filling the free slot a failed probe ended at keeps every earlier key reachable. */
  lemma PlaceKey(keys: seq<nat>, home: nat -> nat, pos: map<nat, nat>, k: nat)
    requires Probed(keys, home, pos) && k != 0 && k !in pos
    requires Search(keys, home(k), k, 0) < |keys|
    ensures var i := Search(keys, home(k), k, 0);
            keys[i] == 0 && Probed(keys[i := k], home, pos[k := i])
  {
    hide PathFull;
    SearchDecides(keys, home, pos, k);
    var i := Search(keys, home(k), k, 0);
    KeyAdded(keys, pos, k, i);
    PathOfSearch(keys, home(k), k);
    forall k' | k' in pos[k := i]
      ensures PathFull(keys[i := k], home(k'), pos[k := i][k'])
    {
      PathKept(keys, home(k'), pos[k := i][k'], i, k);
    }
  }

  lemma OthersElsewhere(keys: seq<nat>, pos: map<nat, nat>, k: nat, i: nat)
    requires KeysPlaced(keys, pos) && i < |keys| && (keys[i] == 0 || keys[i] == k)
    ensures forall k' :: k' in pos && k' != k ==> pos[k'] != i
  {
  }

  lemma StoreRecord<R>(recs: seq<R>, pos: map<nat, nat>, m: map<nat, R>, k: nat, i: nat, r: R)
    requires RecordsPlaced(recs, pos, m) && i < |recs|
    requires forall k' :: k' in pos && k' != k ==> pos[k'] != i
    ensures RecordsPlaced(recs[i := r], pos[k := i], m[k := r])
  {
  }

  /** Writing at the slot a probe stopped at, free or already the key's own, updates the map. */
  lemma StoreAtStop<R>(keys: seq<nat>, recs: seq<R>, home: nat -> nat, pos: map<nat, nat>, m: map<nat, R>, k: nat, r: R)
    requires Represents(keys, recs, home, pos, m) && k != 0
    requires Search(keys, home(k), k, 0) < |keys|
    ensures var i := Search(keys, home(k), k, 0);
            && (keys[i] == k <==> k in m)
            && (k in m ==> recs[i] == m[k])
            && Represents(keys[i := k], recs[i := r], home, pos[k := i], m[k := r])
  {
    hide PathFull, KeysPlaced;
    var i := Search(keys, home(k), k, 0);
    SearchDecides(keys, home, pos, k);
    OthersElsewhere(keys, pos, k, i);
    StoreRecord(recs, pos, m, k, i, r);
    if k in pos {
      assert keys[i := k] == keys && pos[k := i] == pos;
    } else {
      PlaceKey(keys, home, pos, k);
    }
  }

  /** n distinct keys in the first n slots: the pigeonhole behind "a free slot exists". */
  lemma {:induction false} OccupiedPrefix(keys: seq<nat>, pos: map<nat, nat>, n: nat) returns (ks: set<nat>)
    requires KeysPlaced(keys, pos) && n <= |keys|
    requires forall i :: 0 <= i < n ==> keys[i] != 0
    ensures ks <= pos.Keys && |ks| == n
    ensures forall k :: k in ks ==> pos[k] < n
  {
    if n == 0 {
      ks := {};
    } else {
      var ks' := OccupiedPrefix(keys, pos, n - 1);
      ks := ks' + {keys[n - 1]};
    }
  }

  /** With fewer keys than slots a probe never comes full circle. */
  lemma SearchStops(keys: seq<nat>, home: nat -> nat, pos: map<nat, nat>, k: nat)
    requires Probed(keys, home, pos) && |pos| < |keys|
    ensures Search(keys, home(k), k, 0) < |keys|
  {
    if Search(keys, home(k), k, 0) == |keys| {
      forall i | 0 <= i < |keys|
        ensures keys[i] != 0
      {
        assert keys[Slot(home(k), Steps(home(k), i, |keys|), |keys|)] != 0;
      }
      var ks := OccupiedPrefix(keys, pos, |keys|);
      SubsetSize(ks, pos.Keys);
      assert false;
    }
  }
}
