/** The table from blit id to the frame it was last drawn in and the span that drew it. */
module BlitTable {
  import opened Bits
  import opened LinearProbing
  import opened Sequences

  /** One span reported by the emulator. `detail` stands for the register fields copied verbatim. */
  datatype Span = Span(x: u16, y: u16, xEnd: u16, blitId: u32, sourceAddr: u32, sourceIsCopper: bool, detail: seq<int>)

  const NO_SPAN := Span(0, 0, 0, 0, 0, false, [])

  /** What the table keeps for a blit id. */
  datatype Record = Record(frame: u32, span: Span)

  const CAP_MIN := 1024
  const CAP_MAX := 0x10_0000
  /** Three quarters of the largest table: from here on every further record is refused. */
  const SATURATION := 786432

  function Hash(id: nat): (h: nat)
    ensures h < U32_LIMIT
  {
    id * 2654435761 % U32_LIMIT
  }

  /** `hash & (cap - 1)`, the slot an id would like to have. */
  function HomeSlot(cap: nat): nat -> nat
    requires cap > 0
  {
    (id: nat) => BitAnd(Hash(id), cap - 1)
  }

  ghost predicate TableCap(cap: nat) {
    exists k: nat :: 10 <= k <= 20 && cap == Pow2(k)
  }

  lemma CapBounds(k: nat)
    requires 10 <= k <= 20
    ensures CAP_MIN <= Pow2(k) <= CAP_MAX
    ensures k == 10 ==> Pow2(k) == CAP_MIN
    ensures k < 20 ==> 2 * Pow2(k) == Pow2(k + 1) <= CAP_MAX
    ensures k == 20 ==> Pow2(k) == CAP_MAX
  {
    assert Pow2(5) == 32;
    assert Pow2(10) == 1024;
    assert Pow2(15) == 32768;
    assert Pow2(20) == 1048576;
  }

  lemma CapInRange(cap: nat)
    requires TableCap(cap)
    ensures CAP_MIN <= cap <= CAP_MAX
    ensures HomeInRange(HomeSlot(cap), cap)
    ensures cap < CAP_MAX ==> TableCap(2 * cap) && 2 * cap <= CAP_MAX
  {
    var k: nat :| 10 <= k <= 20 && cap == Pow2(k);
    CapBounds(k);
    forall id: nat ensures HomeSlot(cap)(id) < cap {
      MaskIsRemainder(Hash(id), k);
    }
    if cap < CAP_MAX {
      assert 10 <= k + 1 <= 20 && 2 * cap == Pow2(k + 1);
    }
  }

  /** The part of the map m that sits in the first n slots. */
  ghost function RecordsBefore(m: map<nat, Record>, pos: map<nat, nat>, n: nat): map<nat, Record> {
    map k | k in m && k in pos && pos[k] < n :: m[k]
  }

  lemma RecordsBeforeStep(keys: seq<nat>, recs: seq<Record>, home: nat -> nat, pos: map<nat, nat>, m: map<nat, Record>, i: nat)
    requires Represents(keys, recs, home, pos, m) && i < |keys|
    ensures keys[i] == 0 ==> RecordsBefore(m, pos, i + 1) == RecordsBefore(m, pos, i)
    ensures keys[i] != 0 ==> RecordsBefore(m, pos, i + 1) == RecordsBefore(m, pos, i)[keys[i] := recs[i]]
    ensures keys[i] != 0 ==> keys[i] !in RecordsBefore(m, pos, i)
  {
  }

  lemma RecordsBeforeEnds(keys: seq<nat>, recs: seq<Record>, home: nat -> nat, pos: map<nat, nat>, m: map<nat, Record>)
    requires Represents(keys, recs, home, pos, m)
    ensures RecordsBefore(m, pos, 0) == map[] && RecordsBefore(m, pos, |keys|) == m
    ensures forall n :: |RecordsBefore(m, pos, n)| <= |m| == |pos|
  {
    SameSize(keys, recs, home, pos, m);
    forall n ensures |RecordsBefore(m, pos, n)| <= |m| {
      SubsetSize(RecordsBefore(m, pos, n).Keys, m.Keys);
    }
  }

  class BlitTable {
    var ids: array<nat>
    var records: array<Record>
    var count: nat
    ghost var pos: map<nat, nat>
    /** The mathematical map the arrays stand for. */
    ghost var model: map<nat, Record>

    ghost predicate Valid()
      reads this, ids, records
    {
      && ids.Length == records.Length
      && count == |pos| <= SATURATION
      && (forall id :: id in model ==> id != 0 && model[id].span.blitId == id)
      && (ids.Length == 0 ==> pos == map[] && model == map[])
      && (ids.Length > 0 ==> TableCap(ids.Length) && Represents(ids[..], records[..], HomeSlot(ids.Length), pos, model))
      && (ids.Length < CAP_MAX ==> 2 * count <= ids.Length)
    }

    constructor ()
      ensures Valid() && model == map[] && fresh(ids) && fresh(records)
    {
      ids := new nat[0];
      records := new Record[0];
      count := 0;
      pos, model := map[], map[];
    }

    /** The probing loop: walks from the id's home slot until it meets the id or a free slot. */
    static method Probe(ids: array<nat>, id: nat) returns (index: nat)
      requires ids.Length > 0 && HomeSlot(ids.Length)(id) < ids.Length
      requires Search(ids[..], HomeSlot(ids.Length)(id), id, 0) < ids.Length
      ensures index == Search(ids[..], HomeSlot(ids.Length)(id), id, 0)
    {
      var cap := ids.Length;
      ghost var keys := ids[..];
      var home := BitAnd(Hash(id), cap - 1);
      assert home == HomeSlot(cap)(id);
      index := home;
      ghost var n := 0;
      while ids[index] != 0 && ids[index] != id
        invariant n < cap && index == Slot(home, n, cap)
        invariant Search(keys, home, id, 0) == Search(keys, home, id, n)
        decreases cap - n
      {
        index := Next(index, cap);
        n := n + 1;
      }
    }

    /** Stores a record at the slot its probe stops at. */
    static method Store(ids: array<nat>, records: array<Record>, id: nat, r: Record,
                        ghost home: nat -> nat, ghost pos: map<nat, nat>, ghost m: map<nat, Record>)
      returns (existed: bool, ghost pos': map<nat, nat>)
      requires ids.Length > 0 && home == HomeSlot(ids.Length) && id != 0 && |pos| < ids.Length
      requires Represents(ids[..], records[..], home, pos, m)
      modifies ids, records
      ensures Represents(ids[..], records[..], home, pos', m[id := r])
      ensures existed <==> id in m
      ensures |pos'| == if existed then |pos| else |pos| + 1
    {
      ghost var keys, recs := ids[..], records[..];
      SearchStops(keys, home, pos, id);
      StoreAtStop(keys, recs, home, pos, m, id, r);
      pos' := pos[id := Search(keys, home(id), id, 0)];
      var index := Probe(ids, id);
      existed := ids[index] != 0;
      ids[index] := id;
      records[index] := r;
      assert ids[..] == keys[index := id] && records[..] == recs[index := r];
    }

    /** Inserts every record of the old arrays into empty new ones. */
    static method MoveAll(ids: array<nat>, records: array<Record>, nextIds: array<nat>, nextRecords: array<Record>,
                          ghost m: map<nat, Record>, ghost pos: map<nat, nat>,
                          ghost oldHome: nat -> nat, ghost home: nat -> nat)
      returns (nextCount: nat, ghost nextPos: map<nat, nat>)
      requires ids.Length == records.Length > 0 && ids != nextIds && records != nextRecords
      requires Represents(ids[..], records[..], oldHome, pos, m)
      requires |pos| < nextIds.Length && home == HomeSlot(nextIds.Length)
      requires Represents(nextIds[..], nextRecords[..], home, map[], map[])
      modifies nextIds, nextRecords
      ensures Represents(nextIds[..], nextRecords[..], home, nextPos, m) && nextCount == |nextPos| == |pos|
    {
      hide *;
      ghost var keys, recs := ids[..], records[..];
      nextCount, nextPos := 0, map[];
      RecordsBeforeEnds(keys, recs, oldHome, pos, m);
      for i := 0 to ids.Length
        invariant Represents(nextIds[..], nextRecords[..], home, nextPos, RecordsBefore(m, pos, i))
        invariant nextCount == |nextPos| == |RecordsBefore(m, pos, i)|
      {
        RecordsBeforeStep(keys, recs, oldHome, pos, m, i);
        var id := ids[i];
        if id != 0 {
          var existed;
          existed, nextPos := Store(nextIds, nextRecords, id, records[i], home, nextPos, RecordsBefore(m, pos, i));
          nextCount := nextCount + 1;
        }
      }
    }

    static method EmptyArrays(cap: nat) returns (ids: array<nat>, records: array<Record>)
      requires TableCap(cap)
      ensures fresh(ids) && fresh(records) && ids.Length == cap
      ensures Represents(ids[..], records[..], HomeSlot(cap), map[], map[])
    {
      ids := new nat[cap](i => 0);
      records := new Record[cap](i => Record(0, NO_SPAN));
      CapInRange(cap);
      EmptyTable(ids[..], records[..], HomeSlot(cap));
    }

    /** Moves every record into new arrays of `desired` slots. */
    method Rehash(desired: nat)
      requires Valid() && TableCap(desired) && ids.Length < desired
      modifies this
      ensures Valid() && ids.Length == desired
      ensures model == old(model) && count == old(count)
      ensures fresh(ids) && fresh(records)
    {
      hide LinearProbing.Represents;
      var nextIds, nextRecords := EmptyArrays(desired);
      if ids.Length > 0 {
        count, pos := MoveAll(ids, records, nextIds, nextRecords, model, pos, HomeSlot(ids.Length), HomeSlot(desired));
      }
      ids, records := nextIds, nextRecords;
    }

    /** The capacity the source asks for: doubled until half of it holds `needed`, up to a maximum. */
    static method DesiredCap(cap: nat, needed: nat) returns (desired: nat)
      requires cap == 0 || TableCap(cap)
      ensures TableCap(desired) && desired >= cap
      ensures 2 * needed <= desired || desired == CAP_MAX
      ensures TableCap(cap) && (2 * needed <= cap || cap == CAP_MAX) ==> desired == cap
    {
      CapBounds(10);
      assert TableCap(Pow2(10));
      if cap > 0 {
        CapInRange(cap);
      }
      var target := if needed < CAP_MIN / 2 then CAP_MIN / 2 else needed;
      desired := if cap < CAP_MIN then CAP_MIN else cap;
      while target * 2 > desired && desired < CAP_MAX
        invariant TableCap(desired) && cap <= desired <= CAP_MAX
        invariant TableCap(cap) && (2 * needed <= cap || cap == CAP_MAX) ==> desired == cap
        decreases CAP_MAX - desired
      {
        CapInRange(desired);
        desired := desired * 2;
      }
    }

    /** Grows the table until `needed` entries fill at most half of it, or it has its largest size. */
    method EnsureTable(needed: nat)
      requires Valid()
      modifies this
      ensures Valid() && model == old(model) && count == old(count)
      ensures ids.Length > 0 && (2 * needed <= ids.Length || ids.Length == CAP_MAX)
      ensures (ids == old(ids) && records == old(records)) || (fresh(ids) && fresh(records))
    {
      var desired := DesiredCap(ids.Length, needed);
      CapInRange(desired);
      if ids.Length < desired {
        Rehash(desired);
      }
    }

    /**
     Records the span that drew its blit id in this frame. It is refused only for id 0 and for a
     saturated table, and then changes nothing.
     */
    method SetRecord(span: Span, frameCounter: u32) returns (ok: bool)
      requires Valid()
      modifies this, ids, records
      ensures Valid()
      ensures ok <==> span.blitId != 0 && old(|model|) < 786432
      ensures model == if ok then old(model)[span.blitId := Record(frameCounter, span)] else old(model)
      ensures (ids == old(ids) && records == old(records)) || (fresh(ids) && fresh(records))
    {
      CountIsSize();
      if span.blitId == 0 {
        return false;
      }
      EnsureTable(count + 1);
      CapInRange(ids.Length);
      if count * 4 >= ids.Length * 3 {
        // Only a table of the largest size can be this full: the source's second growth is never reached.
        assert ids.Length == CAP_MAX;
        return false;
      }
      Insert(span.blitId, Record(frameCounter, span));
      return true;
    }

    method Insert(id: u32, r: Record)
      requires Valid() && id != 0 && r.span.blitId == id && count < SATURATION && ids.Length > 0
      requires 2 * (count + 1) <= ids.Length || ids.Length == CAP_MAX
      modifies this, ids, records
      ensures Valid() && model == old(model)[id := r]
      ensures ids == old(ids) && records == old(records)
    {
      hide LinearProbing.Represents;
      var existed;
      existed, pos := Store(ids, records, id, r, HomeSlot(ids.Length), pos, model);
      model := model[id := r];
      if !existed {
        count := count + 1;
      }
    }

    lemma CountIsSize()
      requires Valid()
      ensures count == |model|
    {
      if ids.Length > 0 {
        assert pos.Keys == model.Keys;
      }
    }

    lemma RecordHasId(id: nat)
      requires Valid() && id in model
      ensures id != 0 && model[id].span.blitId == id
    {
    }

    /** Both lookups: the record of an id, or nothing for an id that has none. */
    method GetMeta(id: nat) returns (found: bool, r: Record)
      requires Valid()
      ensures found <==> id in model
      ensures r == if found then model[id] else Record(0, NO_SPAN)
    {
      if id == 0 || ids.Length == 0 {
        return false, Record(0, NO_SPAN);
      }
      SearchStops(ids[..], HomeSlot(ids.Length), pos, id);
      SearchDecides(ids[..], HomeSlot(ids.Length), pos, id);
      var index := Probe(ids, id);
      if ids[index] == 0 {
        return false, Record(0, NO_SPAN);
      }
      return true, records[index];
    }

    method GetFrame(id: nat) returns (found: bool, frame: u32)
      requires Valid()
      ensures found <==> id in model
      ensures frame == if found then model[id].frame else 0
    {
      var r;
      found, r := GetMeta(id);
      frame := r.frame;
    }

    /** What a new texture size does to the table: every id is cleared, the arrays are kept. */
    method Reset()
      requires Valid()
      modifies this, ids, records
      ensures Valid() && model == map[]
      ensures ids == old(ids) && records == old(records)
    {
      for i := 0 to ids.Length
        invariant forall j :: 0 <= j < i ==> ids[j] == 0
        modifies ids
      {
        ids[i] := 0;
      }
      if ids.Length > 0 {
        CapInRange(ids.Length);
        EmptyTable(ids[..], records[..], HomeSlot(ids.Length));
      }
      count, pos, model := 0, map[], map[];
    }
  }
}
