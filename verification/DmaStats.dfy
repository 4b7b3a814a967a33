/** DMA accounting: every slot of a frame is counted as one kind of access. */
module DmaStats {
  import opened Optional
  import opened Bits

  const U32_MAX := 0xffff_ffff
  const NO_REGISTER := 0xffff
  const DEFAULT_STRIDE := 288
  const MODE_COLLECT_ONLY := 6
  const MODE_VIDEO_SYNC := 7

  datatype DmaRecord = DmaRecord(reg: u16, kind: int, end: bool)

  datatype Slot = Cpu | Copper | Audio | Blitter | Bitplane | Sprite | Disk | Other | Idle

  function AllSlots(): seq<Slot> { [Cpu, Copper, Audio, Blitter, Bitplane, Sprite, Disk, Other, Idle] }

  /** The access a record stands for; without a register only idle and other are told apart. */
  function SlotOf(r: DmaRecord): Slot {
    if r.reg != NO_REGISTER && 2 <= r.kind <= 8 then
      [Cpu, Copper, Audio, Blitter, Bitplane, Sprite, Disk][r.kind - 2]
    else if r.kind != 0 then Other
    else Idle
  }

  // ---------- The counters ----------

  datatype Counters = Counters(cpu: u32, copper: u32, audio: u32, blitter: u32, bitplane: u32,
                               sprite: u32, disk: u32, other: u32, idle: u32)
  {
    function Get(s: Slot): u32 {
      match s
      case Cpu => cpu
      case Copper => copper
      case Audio => audio
      case Blitter => blitter
      case Bitplane => bitplane
      case Sprite => sprite
      case Disk => disk
      case Other => other
      case Idle => idle
    }

    /** The nine counters added up, in 32 bits. */
    function Sum(): u32 {
      (cpu + copper + audio + blitter + bitplane + sprite + disk + other + idle) % U32_LIMIT
    }
  }

  function Up(n: u32): u32 {
    if n < U32_MAX then n + 1 else n
  }

  function CountOf(records: seq<DmaRecord>, s: Slot): nat {
    if records == [] then 0
    else CountOf(records[..|records| - 1], s) + if SlotOf(records[|records| - 1]) == s then 1 else 0
  }

  /** Each counter is the number of records of its kind, or stuck at the top. */
  ghost predicate Counts(c: Counters, records: seq<DmaRecord>) {
    forall s :: c.Get(s) == if CountOf(records, s) <= U32_MAX then CountOf(records, s) else U32_MAX
  }

  /** The counters with one more slot of a kind. */
  function Bump(c: Counters, s: Slot): (c': Counters)
    ensures forall t :: c'.Get(t) == if t == s then Up(c.Get(t)) else c.Get(t)
  {
    match s
    case Cpu => c.(cpu := Up(c.cpu))
    case Copper => c.(copper := Up(c.copper))
    case Audio => c.(audio := Up(c.audio))
    case Blitter => c.(blitter := Up(c.blitter))
    case Bitplane => c.(bitplane := Up(c.bitplane))
    case Sprite => c.(sprite := Up(c.sprite))
    case Disk => c.(disk := Up(c.disk))
    case Other => c.(other := Up(c.other))
    case Idle => c.(idle := Up(c.idle))
  }

  lemma CountsOneMore(c: Counters, records: seq<DmaRecord>, r: DmaRecord)
    requires Counts(c, records)
    ensures Counts(Bump(c, SlotOf(r)), records + [r])
  {
    hide Bump, Counters.Get, SlotOf;
    assert (records + [r])[..|records|] == records;
  }

  /** The switch of the counting loop. */
  method CountOne(c: Counters, r: DmaRecord, ghost before: seq<DmaRecord>) returns (c': Counters)
    requires Counts(c, before)
    ensures Counts(c', before + [r])
  {
    hide Counts, Counters.Get;
    CountsOneMore(c, before, r);
    if r.reg != NO_REGISTER {
      match r.kind
      case 3 => return c.(copper := Up(c.copper));
      case 5 => return c.(blitter := Up(c.blitter));
      case 2 => return c.(cpu := Up(c.cpu));
      case 6 => return c.(bitplane := Up(c.bitplane));
      case 7 => return c.(sprite := Up(c.sprite));
      case 8 => return c.(disk := Up(c.disk));
      case 4 => return c.(audio := Up(c.audio));
      case _ =>
    }
    c' := if r.kind == 1 || r.kind == 9 || r.kind != 0 then c.(other := Up(c.other)) else c.(idle := Up(c.idle));
  }

  /** Every record is of exactly one kind. */
  lemma {:induction false} KindsShareTheRecords(records: seq<DmaRecord>)
    ensures CountOf(records, Cpu) + CountOf(records, Copper) + CountOf(records, Audio) + CountOf(records, Blitter) +
            CountOf(records, Bitplane) + CountOf(records, Sprite) + CountOf(records, Disk) + CountOf(records, Other) +
            CountOf(records, Idle) == |records|
  {
    if records != [] {
      KindsShareTheRecords(records[..|records| - 1]);
    }
  }

  lemma CounterIsExact(c: Counters, records: seq<DmaRecord>, s: Slot)
    requires Counts(c, records) && |records| <= U32_MAX
    ensures c.Get(s) == CountOf(records, s)
  {
    CountIsWithin(records, s);
  }

  /** While the frame has fewer than 2^32 slots, the nine counters add up to the records counted. */
  lemma SlotsAreConserved(c: Counters, records: seq<DmaRecord>)
    requires Counts(c, records) && |records| <= U32_MAX
    ensures c.cpu + c.copper + c.audio + c.blitter + c.bitplane + c.sprite + c.disk + c.other + c.idle == |records|
    ensures c.Sum() == |records|
  {
    hide Counts, CountOf, SlotOf;
    KindsShareTheRecords(records);
    CounterIsExact(c, records, Cpu);
    CounterIsExact(c, records, Copper);
    CounterIsExact(c, records, Audio);
    CounterIsExact(c, records, Blitter);
    CounterIsExact(c, records, Bitplane);
    CounterIsExact(c, records, Sprite);
    CounterIsExact(c, records, Disk);
    CounterIsExact(c, records, Other);
    CounterIsExact(c, records, Idle);
  }

  lemma {:induction false} CountIsWithin(records: seq<DmaRecord>, s: Slot)
    ensures CountOf(records, s) <= |records|
  {
    if records != [] {
      CountIsWithin(records[..|records| - 1], s);
    }
  }

  // ---------- The frame ----------

  function Stride(hposCount: int): (s: nat)
    ensures s > 0
  {
    if hposCount <= 0 then DEFAULT_STRIDE else hposCount
  }

  /** How many rows are looked at: those recorded, cut to the lines that are shown in the debug mode. */
  function RowCount(total: nat, stride: nat, lines: Option<int>, mode: int): (n: nat)
    requires stride > 0
    ensures n <= total / stride
  {
    var recorded := total / stride;
    if lines.None? || lines.value <= 0 then recorded
    else
      var last := lines.value - 1;
      var cut := if mode == MODE_COLLECT_ONLY || mode == MODE_VIDEO_SYNC then last else if mode >= 4 then last / 2 else last - 8;
      var shown := (if cut < 0 then 0 else cut) + 1;
      if recorded > shown then shown else recorded
  }

  /** The leading records of a row that come before the one marked as the end. */
  function BeforeEnd(row: seq<DmaRecord>): (s: seq<DmaRecord>)
    ensures |s| <= |row|
  {
    if row == [] || row[0].end then [] else [row[0]] + BeforeEnd(row[1..])
  }

  lemma RowBounds(total: nat, stride: nat, rows: nat, row: nat)
    requires stride > 0 && rows <= total / stride && row < rows
    ensures row * stride + stride <= rows * stride <= total
  {
    assert (rows - row - 1) * stride >= 0;
    assert (total / stride - rows) * stride >= 0;
    assert total / stride * stride <= total;
  }

  /** What is counted: the records of the rows looked at, each row up to its end marker. */
  function Visited(records: seq<DmaRecord>, stride: nat, rows: nat): seq<DmaRecord>
    requires stride > 0 && rows <= |records| / stride
  {
    if rows == 0 then []
    else
      RowBounds(|records|, stride, rows, rows - 1);
      Visited(records, stride, rows - 1) + BeforeEnd(records[(rows - 1) * stride..(rows - 1) * stride + stride])
  }

  /** No more slots are counted than the rows have. */
  lemma {:induction false} VisitedIsWithin(records: seq<DmaRecord>, stride: nat, rows: nat)
    requires stride > 0 && rows <= |records| / stride
    ensures |Visited(records, stride, rows)| <= rows * stride <= |records|
  {
    if rows > 0 {
      RowBounds(|records|, stride, rows, rows - 1);
      VisitedIsWithin(records, stride, rows - 1);
      assert rows * stride == (rows - 1) * stride + stride;
    }
  }

  lemma {:induction false} BeforeEndUpTo(row: seq<DmaRecord>, n: nat)
    requires n <= |row| && (forall k :: 0 <= k < n ==> !row[k].end) && (n == |row| || row[n].end)
    ensures BeforeEnd(row) == row[..n]
  {
    if n > 0 {
      BeforeEndUpTo(row[1..], n - 1);
      assert row[..n] == [row[0]] + row[1..][..n - 1];
    }
  }

  method CountRow(c: Counters, row: seq<DmaRecord>, ghost before: seq<DmaRecord>) returns (c': Counters)
    requires Counts(c, before)
    ensures Counts(c', before + BeforeEnd(row))
  {
    hide Counts, BeforeEnd;
    c' := c;
    assert before + row[..0] == before;
    var x := 0;
    while x < |row|
      invariant x <= |row| && Counts(c', before + row[..x])
      invariant forall k :: 0 <= k < x ==> !row[k].end
    {
      if row[x].end {
        break;
      }
      c' := CountOne(c', row[x], before + row[..x]);
      assert before + row[..x] + [row[x]] == before + row[..x + 1];
      x := x + 1;
    }
    BeforeEndUpTo(row, x);
  }

  /** The counting loop: every record before its row's end marker is counted, and no other. */
  method CountSlots(records: seq<DmaRecord>, hposCount: int, lines: Option<int>, mode: int) returns (c: Counters, rows: nat)
    ensures rows == RowCount(|records|, Stride(hposCount), lines, mode)
    ensures Counts(c, Visited(records, Stride(hposCount), rows))
  {
    hide Counts, Visited, BeforeEnd;
    var stride := Stride(hposCount);
    rows := RowCount(|records|, stride, lines, mode);
    c := Counters(0, 0, 0, 0, 0, 0, 0, 0, 0);
    NothingVisited(records, stride);
    for row := 0 to rows
      invariant Counts(c, Visited(records, stride, row))
    {
      RowBounds(|records|, stride, rows, row);
      c := CountRow(c, records[row * stride..row * stride + stride], Visited(records, stride, row));
      OneMoreRow(records, stride, row);
    }
  }

  lemma NothingVisited(records: seq<DmaRecord>, stride: nat)
    requires stride > 0
    ensures Counts(Counters(0, 0, 0, 0, 0, 0, 0, 0, 0), Visited(records, stride, 0))
  {
  }

  lemma OneMoreRow(records: seq<DmaRecord>, stride: nat, row: nat)
    requires stride > 0 && row + 1 <= |records| / stride
    ensures 0 <= row * stride <= row * stride + stride <= |records|
    ensures Visited(records, stride, row + 1) ==
            Visited(records, stride, row) + BeforeEnd(records[row * stride..row * stride + stride])
  {
    RowBounds(|records|, stride, row + 1, row);
  }

  /** The total shown and what it is shown against. */
  function Available(rows: nat, stride: nat): u32 {
    if rows * stride > U32_MAX then U32_MAX else rows * stride
  }

  function TotalMax(c: Counters, rows: nat, stride: nat): (m: u32)
    ensures c.Sum() <= m
  {
    if c.Sum() > Available(rows, stride) then c.Sum() else Available(rows, stride)
  }

  /** The total is the number of records counted, and what it is shown against is every slot of the rows. */
  lemma TotalIsOutOfAllSlots(records: seq<DmaRecord>, hposCount: int, lines: Option<int>, mode: int, c: Counters)
    requires var stride := Stride(hposCount);
             Counts(c, Visited(records, stride, RowCount(|records|, stride, lines, mode)))
    requires |records| <= U32_MAX
    ensures var stride := Stride(hposCount);
            var rows := RowCount(|records|, stride, lines, mode);
            && c.Sum() == |Visited(records, stride, rows)| <= rows * stride
            && TotalMax(c, rows, stride) == rows * stride
  {
    hide Counts, Visited;
    var stride := Stride(hposCount);
    var rows := RowCount(|records|, stride, lines, mode);
    VisitedIsWithin(records, stride, rows);
    SlotsAreConserved(c, Visited(records, stride, rows));
  }

  // ---------- The same, said of the frame itself ----------

  /** The record at index i lies in one of the rows looked at, and no record of its row up to it ends the row. */
  ghost predicate CountedAt(records: seq<DmaRecord>, stride: nat, rows: nat, i: nat)
    requires stride > 0
  {
    i < |records| && i / stride < rows && forall j :: i / stride * stride <= j <= i ==> !records[j].end
  }

  /** Which kind of access a record is, by the numbers the emulator gives. */
  lemma SlotIs(r: DmaRecord)
    ensures SlotOf(r) == Cpu <==> r.reg != 0xffff && r.kind == 2
    ensures SlotOf(r) == Copper <==> r.reg != 0xffff && r.kind == 3
    ensures SlotOf(r) == Audio <==> r.reg != 0xffff && r.kind == 4
    ensures SlotOf(r) == Blitter <==> r.reg != 0xffff && r.kind == 5
    ensures SlotOf(r) == Bitplane <==> r.reg != 0xffff && r.kind == 6
    ensures SlotOf(r) == Sprite <==> r.reg != 0xffff && r.kind == 7
    ensures SlotOf(r) == Disk <==> r.reg != 0xffff && r.kind == 8
    ensures SlotOf(r) == Idle <==> r.kind == 0
    ensures SlotOf(r) == Other <==> r.kind != 0 && (r.reg == 0xffff || r.kind < 2 || r.kind > 8)
  {
  }

  /**
   A row is looked at if it was recorded and, when the number of video lines is known, it is the first or lies
   within them: all of them in modes 6 and 7, half of them in the other modes from 4 on, and all but eight below.
   */
  lemma RowIsShown(total: nat, hposCount: int, lines: Option<int>, mode: int, row: nat)
    ensures var stride := Stride(hposCount);
            && stride == (if hposCount <= 0 then 288 else hposCount)
            && (row < RowCount(total, stride, lines, mode) <==>
                && row * stride + stride <= total
                && (lines.None? || lines.value <= 0 || row == 0 ||
                    (if mode == 6 || mode == 7 then row < lines.value
                     else if mode >= 4 then 2 * row < lines.value
                     else row + 8 < lines.value)))
  {
    var stride := Stride(hposCount);
    RowIsRecorded(total, stride, row);
  }

  lemma RowIsRecorded(total: nat, stride: nat, row: nat)
    requires stride > 0
    ensures row < total / stride <==> row * stride + stride <= total
  {
    assert total == total / stride * stride + total % stride;
    if row < total / stride {
      assert (total / stride - row - 1) * stride >= 0;
    } else {
      assert (row - total / stride) * stride >= 0;
    }
  }

  ghost function PlacesIn(records: seq<DmaRecord>, a: nat, b: nat, s: Slot): set<nat>
    requires b <= |records|
  {
    set i: nat | a <= i < b && SlotOf(records[i]) == s
  }

  lemma {:induction false} CountOfPart(records: seq<DmaRecord>, a: nat, b: nat, s: Slot)
    requires a <= b <= |records|
    ensures CountOf(records[a..b], s) == |PlacesIn(records, a, b, s)|
  {
    hide SlotOf, PlacesIn;
    if a == b {
      NoPlacesIn(records, a, s);
    } else {
      CountOfPart(records, a, b - 1, s);
      assert records[a..b][..b - 1 - a] == records[a..b - 1];
      OneMorePlace(records, a, b, s);
    }
  }

  lemma NoPlacesIn(records: seq<DmaRecord>, a: nat, s: Slot)
    requires a <= |records|
    ensures PlacesIn(records, a, a, s) == {}
  {
  }

  lemma OneMorePlace(records: seq<DmaRecord>, a: nat, b: nat, s: Slot)
    requires a < b <= |records|
    ensures |PlacesIn(records, a, b, s)| == |PlacesIn(records, a, b - 1, s)| + if SlotOf(records[b - 1]) == s then 1 else 0
  {
    hide SlotOf;
    if SlotOf(records[b - 1]) == s {
      assert PlacesIn(records, a, b, s) == PlacesIn(records, a, b - 1, s) + {b - 1};
    } else {
      assert PlacesIn(records, a, b, s) == PlacesIn(records, a, b - 1, s);
    }
  }

  lemma {:induction false} CountOfBoth(a: seq<DmaRecord>, b: seq<DmaRecord>, s: Slot)
    ensures CountOf(a + b, s) == CountOf(a, s) + CountOf(b, s)
  {
    hide SlotOf;
    if b == [] {
      assert a + b == a;
    } else {
      assert (a + b)[..|a + b| - 1] == a + b[..|b| - 1];
      CountOfBoth(a, b[..|b| - 1], s);
    }
  }

  /** Where the end marker of a row is, or its end. */
  lemma {:induction false} EndOfRow(row: seq<DmaRecord>) returns (n: nat)
    ensures n <= |row| && (forall k :: 0 <= k < n ==> !row[k].end) && (n < |row| ==> row[n].end)
    ensures BeforeEnd(row) == row[..n]
  {
    n := 0;
    while n < |row| && !row[n].end
      invariant n <= |row| && forall k :: 0 <= k < n ==> !row[k].end
    {
      n := n + 1;
    }
    BeforeEndUpTo(row, n);
  }

  ghost function Places(records: seq<DmaRecord>, stride: nat, rows: nat, s: Slot): set<nat>
    requires stride > 0
  {
    set i: nat | i < |records| && CountedAt(records, stride, rows, i) && SlotOf(records[i]) == s
  }

  /** One row's share of the places: those from its base up to its end marker. */
  lemma RowPlaces(records: seq<DmaRecord>, stride: nat, row: nat, base: nat, n: nat, s: Slot)
    requires stride > 0 && base == row * stride && base + stride <= |records| && n <= stride
    requires forall j :: base <= j < base + n ==> !records[j].end
    requires n < stride ==> records[base + n].end
    ensures Places(records, stride, row + 1, s) == Places(records, stride, row, s) + PlacesIn(records, base, base + n, s)
    ensures Places(records, stride, row, s) !! PlacesIn(records, base, base + n, s)
  {
    hide SlotOf, CountedAt;
    forall i: nat | i < |records|
      ensures CountedAt(records, stride, row + 1, i) <==> CountedAt(records, stride, row, i) || base <= i < base + n
      ensures CountedAt(records, stride, row, i) ==> i < base
    {
      RowOfPlace(stride, row, base, i);
      PlaceInRow(records, stride, row, base, n, i);
    }
  }

  lemma RowOfPlace(stride: nat, row: nat, base: nat, i: nat)
    requires stride > 0 && base == row * stride
    ensures i / stride < row <==> i < base
    ensures i / stride == row <==> base <= i < base + stride
  {
    assert i == i / stride * stride + i % stride;
    if base <= i < base + stride {
      DivModUnique(i, stride, row, i - base);
    } else if i < base {
      QuotientBelow(i, stride, row);
    } else if i / stride < row {
      MulAtLeast(row - i / stride, stride);
    }
  }

  lemma PlaceInRow(records: seq<DmaRecord>, stride: nat, row: nat, base: nat, n: nat, i: nat)
    requires stride > 0 && base == row * stride && base + stride <= |records| && n <= stride && i < |records|
    requires forall j :: base <= j < base + n ==> !records[j].end
    requires n < stride ==> records[base + n].end
    requires i / stride < row <==> i < base
    requires i / stride == row <==> base <= i < base + stride
    ensures CountedAt(records, stride, row + 1, i) <==> CountedAt(records, stride, row, i) || base <= i < base + n
    ensures CountedAt(records, stride, row, i) ==> i < base
  {
    if i / stride == row {
      assert i / stride * stride == base;
      assert CountedAt(records, stride, row + 1, i) <==> forall j :: base <= j <= i ==> !records[j].end;
    }
  }

  lemma {:induction false} VisitedPlaces(records: seq<DmaRecord>, stride: nat, rows: nat, s: Slot)
    requires stride > 0 && rows <= |records| / stride
    ensures CountOf(Visited(records, stride, rows), s) == |Places(records, stride, rows, s)|
  {
    hide SlotOf, BeforeEnd, CountedAt, Places, CountOf, PlacesIn;
    if rows == 0 {
      NoPlaces(records, stride, s);
    } else {
      var row := rows - 1;
      RowBounds(|records|, stride, rows, row);
      OneMoreRow(records, stride, row);
      var base := row * stride;
      var part := records[base..base + stride];
      var n := EndOfRow(part);
      assert part[..n] == records[base..base + n];
      VisitedPlaces(records, stride, row, s);
      CountOfBoth(Visited(records, stride, row), part[..n], s);
      CountOfPart(records, base, base + n, s);
      forall j | base <= j < base + n ensures !records[j].end {
        assert records[j] == part[j - base];
      }
      RowPlaces(records, stride, row, base, n, s);
    }
  }

  lemma NoPlaces(records: seq<DmaRecord>, stride: nat, s: Slot)
    requires stride > 0
    ensures Visited(records, stride, 0) == [] && CountOf([], s) == 0 && Places(records, stride, 0, s) == {}
  {
    hide SlotOf;
  }

  /** Every counter of a frame is the number of places of its kind that are counted, or stuck at the top of 32 bits. */
  lemma CountersAreNumbers(records: seq<DmaRecord>, hposCount: int, lines: Option<int>, mode: int, c: Counters, s: Slot)
    requires var stride := Stride(hposCount);
             Counts(c, Visited(records, stride, RowCount(|records|, stride, lines, mode)))
    ensures var stride := Stride(hposCount);
            var n := |set i: nat | i < |records| && CountedAt(records, stride, RowCount(|records|, stride, lines, mode), i)
                                   && SlotOf(records[i]) == s|;
            c.Get(s) == if n <= 0xffff_ffff then n else 0xffff_ffff
  {
    hide SlotOf, CountedAt, Visited;
    var stride := Stride(hposCount);
    VisitedPlaces(records, stride, RowCount(|records|, stride, lines, mode), s);
  }
}
