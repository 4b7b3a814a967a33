/** The profiler's hash table and its snapshot, updated in place. */
module ProfileTable {
  import opened Bits
  import opened LinearProbing
  import opened ProfileMap
  import opened Sequences
  import Sorting

  /** The map holds a used entry for every key, under one more than the entry's pc. */
  ghost predicate GoodModel(m: map<nat, Entry>) {
    forall k :: k in m ==> k > 0 && m[k].used && m[k].pc + 1 == k
  }

  lemma InsertKeepsGood(m: map<nat, Entry>, r: Report)
    requires GoodModel(m)
    ensures GoodModel(Insert(m, r))
  {
  }

  /** The part of the map that sits in the first n slots. */
  ghost function EntriesBefore(m: map<nat, Entry>, pos: map<nat, nat>, n: nat): map<nat, Entry> {
    map k | k in m && k in pos && pos[k] < n :: m[k]
  }

  lemma EntriesBeforeStep(es: seq<Entry>, home: nat -> nat, pos: map<nat, nat>, m: map<nat, Entry>, i: nat)
    requires Represents(Keys(es), es, home, pos, m) && i < |es|
    ensures !es[i].used ==> EntriesBefore(m, pos, i + 1) == EntriesBefore(m, pos, i)
    ensures es[i].used ==> EntriesBefore(m, pos, i + 1) == EntriesBefore(m, pos, i)[Key(es[i]) := es[i]]
    ensures es[i].used ==> Key(es[i]) !in EntriesBefore(m, pos, i)
    ensures es[i].used ==> Key(es[i]) in m && m[Key(es[i])] == es[i]
  {
    assert Keys(es)[i] == Key(es[i]);
  }

  lemma EntriesBeforeEnds(es: seq<Entry>, home: nat -> nat, pos: map<nat, nat>, m: map<nat, Entry>)
    requires Represents(Keys(es), es, home, pos, m)
    ensures EntriesBefore(m, pos, 0) == map[] && EntriesBefore(m, pos, |es|) == m
    ensures forall n :: |EntriesBefore(m, pos, n)| <= |m| == |pos|
  {
    SameSize(Keys(es), es, home, pos, m);
    forall n ensures |EntriesBefore(m, pos, n)| <= |m| {
      SubsetSize(EntriesBefore(m, pos, n).Keys, m.Keys);
    }
  }

  lemma KeysUpdate(es: seq<Entry>, i: nat, e: Entry)
    requires i < |es|
    ensures Keys(es[i := e]) == Keys(es)[i := Key(e)]
  {
  }

  // ---------- The snapshot ----------

  datatype Sample = Sample(pc: u32, samples: u64, cycles: u64)

  function SampleOf(e: Entry): Sample {
    Sample(e.pc, e.samples, e.cycles)
  }

  /** Most samples first, then by address. */
  predicate SampleLe(a: Sample, b: Sample) {
    a.samples > b.samples || (a.samples == b.samples && a.pc <= b.pc)
  }

  function PcOf(s: Sample): int {
    s.pc
  }

  lemma SampleOrder()
    ensures Sorting.TotalPreorder(SampleLe)
  {
  }

  class ProfileTable {
    var entries: array<Entry>
    var count: nat
    ghost var pos: map<nat, nat>
    ghost var model: map<nat, Entry>

    ghost predicate Valid()
      reads this, entries
    {
      && entries.Length >= SMALLEST_CAP && 2 * count < entries.Length && count == |pos|
      && Represents(Keys(entries[..]), entries[..], HomeSlot(entries.Length), pos, model)
      && GoodModel(model)
    }

    constructor ()
      ensures Valid() && model == map[] && fresh(entries)
    {
      entries := new Entry[INITIAL_CAP](i => FREE);
      count, pos, model := 0, map[], map[];
      new;
      HomesInRange(INITIAL_CAP);
      EmptyTable(Keys(entries[..]), entries[..], HomeSlot(INITIAL_CAP));
    }

    /** The probing loop: from the pc's home slot to the pc's own slot or a free one. */
    static method Probe(entries: array<Entry>, pc: u32) returns (idx: nat)
      requires entries.Length > 0 && Search(Keys(entries[..]), HomeSlot(entries.Length)(pc + 1), pc + 1, 0) < entries.Length
      ensures idx == Search(Keys(entries[..]), HomeSlot(entries.Length)(pc + 1), pc + 1, 0)
    {
      var cap := entries.Length;
      ghost var keys := Keys(entries[..]);
      var home := pc % cap;
      idx := home;
      ghost var n := 0;
      while entries[idx].used && entries[idx].pc != pc
        invariant n < cap && idx == Slot(home, n, cap)
        invariant Search(keys, home, pc + 1, 0) == Search(keys, home, pc + 1, n)
        decreases cap - n
      {
        assert keys[idx] == Key(entries[idx]);
        idx := Next(idx, cap);
        n := n + 1;
      }
      assert keys[idx] == Key(entries[idx]);
    }

    /** Writes an entry at the slot its probe stops at. */
    static method Put(entries: array<Entry>, idx: nat, e: Entry, ghost home: nat -> nat, ghost pos: map<nat, nat>, ghost m: map<nat, Entry>)
      returns (ghost pos': map<nat, nat>)
      requires entries.Length > 0 && e.used && |pos| < entries.Length
      requires Represents(Keys(entries[..]), entries[..], home, pos, m)
      requires idx == Search(Keys(entries[..]), home(Key(e)), Key(e), 0) < entries.Length
      modifies entries
      ensures Represents(Keys(entries[..]), entries[..], home, pos', m[Key(e) := e])
      ensures |pos'| == if Key(e) in m then |pos| else |pos| + 1
    {
      hide Search, Probed;
      ghost var es := entries[..];
      StoreAtStop(Keys(es), es, home, pos, m, Key(e), e);
      KeysUpdate(es, idx, e);
      pos' := pos[Key(e) := idx];
      entries[idx] := e;
      assert entries[..] == es[idx := e];
    }

    /** Adds one report. With the room ensureCapacity leaves, it never fails. */
    method InsertReport(r: Report) returns (ok: bool)
      requires Valid() && 2 * (count + 1) < entries.Length
      modifies this, entries
      ensures Valid() && ok && entries == old(entries)
      ensures model == Insert(old(model), r)
    {
      hide Represents, GoodModel, Search, HomeSlot, Advance, First, Keys;
      ghost var es, home := entries[..], HomeSlot(entries.Length);
      TableFacts(Keys(es), es, home, pos, model, r.pc + 1);
      KeyedUpdate(es, Search(Keys(es), home(r.pc + 1), r.pc + 1, 0), model, r);
      var idx := Probe(entries, r.pc);
      var e := if entries[idx].used then Advance(entries[idx], r) else First(r);
      if !entries[idx].used {
        count := count + 1;
      }
      InsertKeepsGood(model, r);
      pos := Put(entries, idx, e, home, pos, model);
      model := Insert(model, r);
      ok := true;
    }

    /** The entry written is the map's new entry. */
    static lemma KeyedUpdate(es: seq<Entry>, idx: nat, m: map<nat, Entry>, r: Report)
      requires idx < |es| && GoodModel(m)
      requires (r.pc + 1 in m <==> Keys(es)[idx] == r.pc + 1) && (r.pc + 1 in m ==> es[idx] == m[r.pc + 1])
      requires Keys(es)[idx] == 0 || Keys(es)[idx] == r.pc + 1
      ensures es[idx].used <==> r.pc + 1 in m
      ensures var e := if es[idx].used then Advance(es[idx], r) else First(r);
              e.used && Key(e) == r.pc + 1 && m[Key(e) := e] == Insert(m, r)
    {
      assert Keys(es)[idx] == Key(es[idx]);
    }

    static lemma TableFacts(keys: seq<nat>, es: seq<Entry>, home: nat -> nat, pos: map<nat, nat>, m: map<nat, Entry>, k: nat)
      requires Represents(keys, es, home, pos, m) && |pos| < |keys| && k != 0
      ensures home(k) < |keys|
      ensures var i := Search(keys, home(k), k, 0);
              i < |keys| && (keys[i] == 0 || keys[i] == k) && (k in m <==> keys[i] == k) && (k in m ==> es[i] == m[k])
    {
      SearchStops(keys, home, pos, k);
      StoreAtStop(keys, es, home, pos, m, k, FREE);
    }

    /** Moves every entry, unchanged, into a table of another size. */
    method Resize(newCapacity: nat)
      requires Valid()
      requires count < (if newCapacity < SMALLEST_CAP then SMALLEST_CAP else newCapacity)
      modifies this
      ensures fresh(entries) && entries.Length == if newCapacity < SMALLEST_CAP then SMALLEST_CAP else newCapacity
      ensures model == old(model) && count == old(count) == |pos| && GoodModel(model)
      ensures Represents(Keys(entries[..]), entries[..], HomeSlot(entries.Length), pos, model)
    {
      hide Represents;
      var cap := if newCapacity < SMALLEST_CAP then SMALLEST_CAP else newCapacity;
      var next := EmptyEntries(cap);
      pos := MoveAll(entries, next, model, pos, HomeSlot(entries.Length), HomeSlot(cap));
      entries := next;
    }

    static method EmptyEntries(cap: nat) returns (entries: array<Entry>)
      requires cap > 0
      ensures fresh(entries) && entries.Length == cap
      ensures Represents(Keys(entries[..]), entries[..], HomeSlot(cap), map[], map[])
    {
      entries := new Entry[cap](i => FREE);
      HomesInRange(cap);
      EmptyTable(Keys(entries[..]), entries[..], HomeSlot(cap));
    }

    static method MoveAll(entries: array<Entry>, next: array<Entry>, ghost m: map<nat, Entry>, ghost pos: map<nat, nat>,
                          ghost oldHome: nat -> nat, ghost home: nat -> nat) returns (ghost nextPos: map<nat, nat>)
      requires entries != next && next.Length > 0 && |pos| < next.Length && home == HomeSlot(next.Length)
      requires Represents(Keys(entries[..]), entries[..], oldHome, pos, m)
      requires Represents(Keys(next[..]), next[..], home, map[], map[])
      modifies next
      ensures Represents(Keys(next[..]), next[..], home, nextPos, m) && |nextPos| == |pos|
    {
      hide *;
      ghost var es := entries[..];
      nextPos := map[];
      EntriesBeforeEnds(es, oldHome, pos, m);
      for i := 0 to entries.Length
        invariant Represents(Keys(next[..]), next[..], home, nextPos, EntriesBefore(m, pos, i))
        invariant |nextPos| == |EntriesBefore(m, pos, i)|
      {
        EntriesBeforeStep(es, oldHome, pos, m, i);
        var e := entries[i];
        if e.used {
          nextPos := MoveOne(next, e, home, nextPos, EntriesBefore(m, pos, i));
        }
      }
    }

    /** The inner loop of a resize: the pc is new to the table, so its probe stops at a free slot. */
    static method MoveOne(next: array<Entry>, e: Entry, ghost home: nat -> nat, ghost pos: map<nat, nat>, ghost m: map<nat, Entry>)
      returns (ghost pos': map<nat, nat>)
      requires next.Length > 0 && e.used && |pos| < next.Length && home == HomeSlot(next.Length)
      requires Represents(Keys(next[..]), next[..], home, pos, m) && Key(e) !in m
      modifies next
      ensures Represents(Keys(next[..]), next[..], home, pos', m[Key(e) := e]) && |pos'| == |pos| + 1
    {
      hide Represents;
      SearchStopsIn(Keys(next[..]), next[..], home, pos, m, Key(e));
      var idx := Probe(next, e.pc);
      pos' := Put(next, idx, e, home, pos, m);
    }

    static lemma SearchStopsIn(keys: seq<nat>, es: seq<Entry>, home: nat -> nat, pos: map<nat, nat>, m: map<nat, Entry>, k: nat)
      requires Represents(keys, es, home, pos, m) && |pos| < |keys|
      ensures home(k) < |keys| && Search(keys, home(k), k, 0) < |keys|
    {
      SearchStops(keys, home, pos, k);
    }

    /** Doubles the table when one more entry would fill half of it. */
    method EnsureCapacity()
      requires Valid()
      modifies this
      ensures Valid() && model == old(model) && count == old(count)
      ensures 2 * (count + 1) < entries.Length
      ensures entries == old(entries) || fresh(entries)
    {
      hide Represents, GoodModel;
      if (count + 1) * 2 >= entries.Length {
        Resize(entries.Length * 2);
      }
    }

    /** One hit of a packet: make room, then insert. */
    method Record(r: Report)
      requires Valid()
      modifies this, entries
      ensures Valid() && model == Insert(old(model), r)
      ensures entries == old(entries) || fresh(entries)
    {
      hide Represents, GoodModel;
      EnsureCapacity();
      var ok := InsertReport(r);
    }

    /** Every pc once, with its totals, by samples and then by address. */
    method Snapshot() returns (samples: seq<Sample>)
      requires Valid()
      ensures Sorting.Sorted(SampleLe, samples) && Lists(samples, model)
      ensures forall i, j :: 0 <= i < j < |samples| ==>
                || samples[i].samples > samples[j].samples
                || (samples[i].samples == samples[j].samples && samples[i].pc < samples[j].pc)
    {
      hide Represents, Sorting.Sort, Lists, EntriesBefore;
      ghost var es, home := entries[..], HomeSlot(entries.Length);
      samples := [];
      EntriesBeforeEnds(es, home, pos, model);
      ListsNothing();
      for i := 0 to entries.Length
        invariant Lists(samples, EntriesBefore(model, pos, i))
      {
        EntriesBeforeStep(es, home, pos, model, i);
        if entries[i].used {
          ListsOneMore(samples, EntriesBefore(model, pos, i), es[i]);
          samples := samples + [SampleOf(entries[i])];
        }
      }
      ListsSorted(samples, model);
      samples := Sorting.Sort(SampleLe, samples);
      InOrder(samples, model);
    }
  }

  /** The samples are the entries of the map, each pc once. */
  ghost predicate Lists(samples: seq<Sample>, m: map<nat, Entry>) {
    && |samples| == |m|
    && Sorting.Apart(PcOf, samples)
    && forall s :: s in samples <==> s.pc + 1 in m && s == SampleOf(m[s.pc + 1])
  }

  lemma ListsNothing()
    ensures Lists([], map[])
  {
  }

  lemma ListsOneMore(samples: seq<Sample>, m: map<nat, Entry>, e: Entry)
    requires Lists(samples, m) && e.used && Key(e) !in m
    ensures Lists(samples + [SampleOf(e)], m[Key(e) := e])
  {
    var after, m' := samples + [SampleOf(e)], m[Key(e) := e];
    forall s ensures s in after <==> s.pc + 1 in m' && s == SampleOf(m'[s.pc + 1]) {
      assert s in after <==> s in samples || s == SampleOf(e);
    }
    forall i | 0 <= i < |samples| ensures samples[i].pc != e.pc {
      assert samples[i] in samples;
    }
  }

  lemma ListsSorted(samples: seq<Sample>, m: map<nat, Entry>)
    requires Lists(samples, m)
    ensures Sorting.Sorted(SampleLe, Sorting.Sort(SampleLe, samples)) && Lists(Sorting.Sort(SampleLe, samples), m)
  {
    SampleOrder();
    Sorting.SortSorts(SampleLe, samples);
    Sorting.SortMembers(SampleLe, samples);
    Sorting.SortKeepsApart(SampleLe, PcOf, samples);
  }

  /** Most samples first, and among equal ones the lower address. */
  lemma InOrder(samples: seq<Sample>, m: map<nat, Entry>)
    requires Sorting.Sorted(SampleLe, samples) && Lists(samples, m)
    ensures forall i, j :: 0 <= i < j < |samples| ==>
              || samples[i].samples > samples[j].samples
              || (samples[i].samples == samples[j].samples && samples[i].pc < samples[j].pc)
  {
    forall i, j | 0 <= i < j < |samples|
      ensures samples[i].samples > samples[j].samples || (samples[i].samples == samples[j].samples && samples[i].pc < samples[j].pc)
    {
      assert SampleLe(samples[i], samples[j]);
      assert PcOf(samples[i]) != PcOf(samples[j]);
    }
  }
}
