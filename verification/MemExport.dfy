/** The RAM export: memory is read in chunks and written out, one file for each kind of memory. */
module MemExport {
  import opened Bits

  /** The size of the machine's 24-bit address space. */
  const SPACE := 0x100_0000
  const EXPORT_CHUNK := 0x1_0000
  const SLOW_BASE := 0xC0_0000
  const FAST_BASE := 0x20_0000

  datatype Kind = Chip | Slow | Fast | Other

  datatype Range = Range(baseAddr: u32, size: u32)

  /** The emulator's memory: its bytes, which reads it answers, and the limits the target gives. */
  datatype Memory = Memory(at: nat -> u8, answers: (nat, nat) -> bool, low: u32, high: u32)

  function KindOf(baseAddr: u32): Kind {
    var start := baseAddr % SPACE;
    if start == 0 then Chip
    else if start == SLOW_BASE then Slow
    else if start == FAST_BASE then Fast
    else Other
  }

  /** The kind of memory is that of its first address, in 24 bits. */
  lemma KindIs(baseAddr: u32)
    ensures KindOf(baseAddr) == Chip <==> baseAddr % 0x100_0000 == 0
    ensures KindOf(baseAddr) == Slow <==> baseAddr % 0x100_0000 == 0xc0_0000
    ensures KindOf(baseAddr) == Fast <==> baseAddr % 0x100_0000 == 0x20_0000
  {
  }

  // ---------- Reading ----------

  /** A byte as the export sees it: zero outside the limits. */
  function ByteAt(m: Memory, addr: nat): u8 {
    if m.low <= addr <= m.high then m.at(addr) else 0
  }

  function Bytes(m: Memory, addr: nat, n: nat): (s: seq<u8>)
    ensures |s| == n && forall k :: 0 <= k < n ==> s[k] == ByteAt(m, addr + k)
  {
    seq<u8>(n, k requires 0 <= k < n => ByteAt(m, addr + k))
  }

  function Max(a: nat, b: nat): nat {
    if a < b then b else a
  }

  function Min(a: nat, b: nat): nat {
    if a < b then a else b
  }

  /** The part of n bytes from addr on that lies within the limits exists, and the emulator answers for it. */
  predicate CanRead(m: Memory, addr: nat, n: nat) {
    && n > 0 && addr <= m.high && m.low < addr + n && m.low <= m.high
    && m.answers(Max(addr, m.low), Min(addr + n - 1, m.high) - Max(addr, m.low) + 1)
  }

  /** The emulator's own copy, into a part of the buffer. */
  method HostRead(m: Memory, addr: nat, data: array<u8>, offset: nat, n: nat) returns (ok: bool)
    requires offset + n <= data.Length
    modifies data
    ensures ok <==> m.answers(addr, n)
    ensures forall k :: 0 <= k < data.Length ==>
              data[k] == if ok && offset <= k < offset + n then m.at(addr + (k - offset)) else old(data[k])
  {
    ok := m.answers(addr, n);
    if ok {
      for i := 0 to n
        invariant forall k :: 0 <= k < data.Length ==>
                    data[k] == if offset <= k < offset + i then m.at(addr + (k - offset)) else old(data[k])
      {
        data[offset + i] := m.at(addr + i);
      }
    }
  }

  method Zero(data: array<u8>, n: nat)
    requires n <= data.Length
    modifies data
    ensures forall k :: 0 <= k < data.Length ==> data[k] == if k < n then 0 else old(data[k])
  {
    for i := 0 to n
      invariant forall k :: 0 <= k < data.Length ==> data[k] == if k < i then 0 else old(data[k])
    {
      data[i] := 0;
    }
  }

  /** Reads the first n bytes of the buffer; bytes outside the limits become zero. */
  method ReadRange(m: Memory, baseAddr: u32, data: array<u8>, n: nat) returns (ok: bool)
    requires n <= data.Length
    modifies data
    ensures ok <==> CanRead(m, baseAddr % SPACE, n)
    ensures ok ==> data[..n] == Bytes(m, baseAddr % SPACE, n)
    ensures var first, last := baseAddr % 0x100_0000, baseAddr % 0x100_0000 + n - 1;
            var from, upto := if first < m.low then m.low else first, if last > m.high then m.high else last;
            ok <==> n > 0 && from <= upto && m.answers(from, upto - from + 1)
    ensures ok ==> forall k :: 0 <= k < n ==>
              var a := baseAddr % 0x100_0000 + k; data[k] == if m.low <= a <= m.high then m.at(a) else 0
  {
    if n == 0 {
      return false;
    }
    Zero(data, n);
    var readStart: nat := baseAddr % SPACE;
    var readEnd: nat := readStart + n - 1;
    if readStart > m.high || readEnd < m.low {
      return false;
    }
    if readStart < m.low {
      readStart := m.low;
    }
    if readEnd > m.high {
      readEnd := m.high;
    }
    if readEnd < readStart {
      return false;
    }
    var dstOffset, readSize := readStart - baseAddr % SPACE, readEnd - readStart + 1;
    assert dstOffset + readSize <= n;
    ok := HostRead(m, readStart, data, dstOffset, readSize);
  }

  // ---------- Writing one range ----------

  function Add32(a: u32, b: u32): u32 {
    (a + b) % U32_LIMIT
  }

  /** What the chunks of a range hold, one after the other; the address wraps as the machine word does. */
  function ChunkedBytes(m: Memory, addr: u32, remaining: u32, chunk: nat): seq<u8>
    requires chunk > 0
    decreases remaining
  {
    if remaining == 0 then []
    else
      var n := Min(remaining, chunk);
      Bytes(m, addr % SPACE, n) + ChunkedBytes(m, Add32(addr, n), remaining - n, chunk)
  }

  predicate CanReadChunks(m: Memory, addr: u32, remaining: u32, chunk: nat)
    requires chunk > 0
    decreases remaining
  {
    remaining > 0 ==>
      var n := Min(remaining, chunk);
      CanRead(m, addr % SPACE, n) && CanReadChunks(m, Add32(addr, n), remaining - n, chunk)
  }

  method WriteRange(m: Memory, r: Range, buffer: array<u8>, out: seq<u8>) returns (ok: bool, out': seq<u8>)
    requires buffer.Length > 0
    modifies buffer
    ensures ok <==> CanReadChunks(m, r.baseAddr, r.size, buffer.Length)
    ensures ok ==> out' == out + ChunkedBytes(m, r.baseAddr, r.size, buffer.Length)
  {
    var addr, remaining := r.baseAddr, r.size;
    ok, out' := true, out;
    ghost var chunk := buffer.Length;
    while remaining > 0
      invariant CanReadChunks(m, r.baseAddr, r.size, chunk) <==> CanReadChunks(m, addr, remaining, chunk)
      invariant out + ChunkedBytes(m, r.baseAddr, r.size, chunk) == out' + ChunkedBytes(m, addr, remaining, chunk)
    {
      var chunkSize := Min(remaining, buffer.Length);
      var read := ReadRange(m, addr, buffer, chunkSize);
      if !read {
        return false, out';
      }
      ghost var rest := ChunkedBytes(m, Add32(addr, chunkSize), remaining - chunkSize, chunk);
      assert out' + (buffer[..chunkSize] + rest) == (out' + buffer[..chunkSize]) + rest;
      out' := out' + buffer[..chunkSize];
      addr, remaining := Add32(addr, chunkSize), remaining - chunkSize;
    }
  }

  lemma BytesJoin(m: Memory, addr: nat, n: nat, k: nat)
    ensures Bytes(m, addr, n) + Bytes(m, addr + n, k) == Bytes(m, addr, n + k)
  {
  }

  /** Inside the address space the size of the chunks makes no difference to what is written. */
  lemma {:induction false} ChunksAreTheMemory(m: Memory, addr: u32, remaining: u32, chunk: nat)
    requires chunk > 0 && addr + remaining <= SPACE
    ensures ChunkedBytes(m, addr, remaining, chunk) == Bytes(m, addr, remaining)
    decreases remaining
  {
    if remaining > 0 {
      hide Add32, ByteAt;
      var n := Min(remaining, chunk);
      ChunkInSpace(addr, n);
      ChunksAreTheMemory(m, addr + n, remaining - n, chunk);
      BytesJoin(m, addr, n, remaining - n);
    }
  }

  /** Where the last chunk of a range begins. */
  function LastChunk(addr: nat, remaining: nat, chunk: nat): nat
    requires chunk > 0 && remaining > 0
    decreases remaining
  {
    if remaining <= chunk then addr else LastChunk(addr + chunk, remaining - chunk, chunk)
  }

  lemma {:induction false} LastChunkIsWithin(addr: nat, remaining: nat, chunk: nat)
    requires chunk > 0 && remaining > 0
    ensures addr <= LastChunk(addr, remaining, chunk) < addr + remaining
    ensures addr + remaining <= LastChunk(addr, remaining, chunk) + chunk
    decreases remaining
  {
    if remaining > chunk {
      LastChunkIsWithin(addr + chunk, remaining - chunk, chunk);
    }
  }

  lemma ChunkInSpace(addr: u32, n: u32)
    requires addr + n <= SPACE && n > 0
    ensures addr % SPACE == addr && Add32(addr, n) == addr + n
  {
  }

  lemma CanReadIfMeetsLimits(m: Memory, addr: nat, n: nat)
    requires n > 0 && m.low <= m.high && forall a, k :: m.answers(a, k)
    ensures CanRead(m, addr, n) <==> addr <= m.high && m.low < addr + n
  {
  }

  /** With an emulator that always answers, a range can be written exactly if its first and last chunks meet the limits. */
  lemma {:induction false} ReadableIffChunksMeetLimits(m: Memory, addr: u32, remaining: u32, chunk: nat)
    requires chunk > 0 && remaining > 0 && addr + remaining <= SPACE && m.low <= m.high
    requires forall a, n :: m.answers(a, n)
    ensures CanReadChunks(m, addr, remaining, chunk) <==>
            m.low < addr + Min(remaining, chunk) && LastChunk(addr, remaining, chunk) <= m.high
    decreases remaining
  {
    hide CanRead, Add32;
    var n := Min(remaining, chunk);
    LastChunkIsWithin(addr, remaining, chunk);
    CanReadIfMeetsLimits(m, addr, n);
    ChunkInSpace(addr, n);
    if remaining > chunk {
      ReadableIffChunksMeetLimits(m, addr + n, remaining - n, chunk);
    }
  }

  // ---------- Writing a kind of memory ----------

  predicate Selected(r: Range, kind: Kind) {
    r.size != 0 && KindOf(r.baseAddr) == kind
  }

  /** The file of a kind of memory, from its ranges in order. */
  function Exported(m: Memory, ranges: seq<Range>, kind: Kind, chunk: nat): seq<u8>
    requires chunk > 0
  {
    if ranges == [] then []
    else
      var last := ranges[|ranges| - 1];
      Exported(m, ranges[..|ranges| - 1], kind, chunk) +
      if Selected(last, kind) then ChunkedBytes(m, last.baseAddr, last.size, chunk) else []
  }

  predicate CanExport(m: Memory, ranges: seq<Range>, kind: Kind, chunk: nat)
    requires chunk > 0
  {
    forall i :: 0 <= i < |ranges| && Selected(ranges[i], kind) ==> CanReadChunks(m, ranges[i].baseAddr, ranges[i].size, chunk)
  }

  predicate AnySelected(ranges: seq<Range>, kind: Kind) {
    exists i :: 0 <= i < |ranges| && Selected(ranges[i], kind)
  }

  /** Writes the file of one kind; wroteAny says whether there is one. */
  method WriteExportType(m: Memory, ranges: seq<Range>, kind: Kind, chunk: nat) returns (ok: bool, wroteAny: bool, out: seq<u8>)
    requires chunk > 0
    ensures ok <==> CanExport(m, ranges, kind, chunk)
    ensures ok ==> out == Exported(m, ranges, kind, chunk) && (wroteAny <==> AnySelected(ranges, kind))
  {
    hide CanReadChunks, ChunkedBytes, KindOf;
    var buffer := new u8[chunk];
    ok, wroteAny, out := true, false, [];
    assert ranges[..0] == [];
    for i := 0 to |ranges|
      invariant out == Exported(m, ranges[..i], kind, chunk)
      invariant CanExport(m, ranges[..i], kind, chunk)
      invariant wroteAny <==> AnySelected(ranges[..i], kind)
    {
      ExportStep(m, ranges, kind, chunk, i);
      if ranges[i].size == 0 || KindOf(ranges[i].baseAddr) != kind {
        continue;
      }
      wroteAny := true;
      ok, out := WriteRange(m, ranges[i], buffer, out);
      if !ok {
        return;
      }
    }
    assert ranges[..|ranges|] == ranges;
  }

  lemma ExportStep(m: Memory, ranges: seq<Range>, kind: Kind, chunk: nat, i: nat)
    requires chunk > 0 && i < |ranges|
    ensures Exported(m, ranges[..i + 1], kind, chunk) ==
            Exported(m, ranges[..i], kind, chunk) +
            if Selected(ranges[i], kind) then ChunkedBytes(m, ranges[i].baseAddr, ranges[i].size, chunk) else []
    ensures CanExport(m, ranges[..i + 1], kind, chunk) <==>
            && CanExport(m, ranges[..i], kind, chunk)
            && (Selected(ranges[i], kind) ==> CanReadChunks(m, ranges[i].baseAddr, ranges[i].size, chunk))
    ensures AnySelected(ranges[..i + 1], kind) <==> AnySelected(ranges[..i], kind) || Selected(ranges[i], kind)
    ensures CanExport(m, ranges, kind, chunk) && Selected(ranges[i], kind) ==>
              CanReadChunks(m, ranges[i].baseAddr, ranges[i].size, chunk)
  {
    var now, before := ranges[..i + 1], ranges[..i];
    assert now[..|now| - 1] == before;
    assert now == before + [ranges[i]];
  }

  // ---------- What the files hold ----------

  /** The memory of the ranges of one kind, end to end. */
  function MemoryOf(m: Memory, ranges: seq<Range>, kind: Kind): seq<u8> {
    if ranges == [] then []
    else
      var last := ranges[|ranges| - 1];
      MemoryOf(m, ranges[..|ranges| - 1], kind) +
      if Selected(last, kind) then Bytes(m, last.baseAddr, last.size) else []
  }

  /** The file of a kind is exactly the memory of its ranges, whatever the chunk size. */
  lemma {:induction false} ExportedIsMemory(m: Memory, ranges: seq<Range>, kind: Kind, chunk: nat)
    requires chunk > 0 && forall r :: r in ranges && Selected(r, kind) ==> r.baseAddr + r.size <= 0x100_0000
    ensures Exported(m, ranges, kind, chunk) == MemoryOf(m, ranges, kind)
  {
    if ranges != [] {
      var last := ranges[|ranges| - 1];
      ExportedIsMemory(m, ranges[..|ranges| - 1], kind, chunk);
      if Selected(last, kind) {
        ChunksAreTheMemory(m, last.baseAddr, last.size, chunk);
      }
    }
  }

  /** The memory of all ranges, end to end. */
  function AllMemory(m: Memory, ranges: seq<Range>): seq<u8> {
    if ranges == [] then []
    else AllMemory(m, ranges[..|ranges| - 1]) + Bytes(m, ranges[|ranges| - 1].baseAddr, ranges[|ranges| - 1].size)
  }

  /** The chunks of all ranges, end to end. */
  function AllChunks(m: Memory, ranges: seq<Range>, chunk: nat): seq<u8>
    requires chunk > 0
  {
    if ranges == [] then []
    else AllChunks(m, ranges[..|ranges| - 1], chunk) + ChunkedBytes(m, ranges[|ranges| - 1].baseAddr, ranges[|ranges| - 1].size, chunk)
  }

  lemma {:induction false} AllChunksAreMemory(m: Memory, ranges: seq<Range>, chunk: nat)
    requires chunk > 0 && forall r :: r in ranges && r.size != 0 ==> r.baseAddr + r.size <= 0x100_0000
    ensures AllChunks(m, ranges, chunk) == AllMemory(m, ranges)
  {
    if ranges != [] {
      var last := ranges[|ranges| - 1];
      AllChunksAreMemory(m, ranges[..|ranges| - 1], chunk);
      if last.size != 0 {
        ChunksAreTheMemory(m, last.baseAddr, last.size, chunk);
      }
    }
  }

  /** The bytes that the files of some kinds hold together. */
  function FileBytes(m: Memory, ranges: seq<Range>, kinds: seq<Kind>, chunk: nat): multiset<u8>
    requires chunk > 0
  {
    if kinds == [] then multiset{}
    else multiset(Exported(m, ranges, kinds[0], chunk)) + FileBytes(m, ranges, kinds[1..], chunk)
  }

  lemma {:induction false} UnselectedIsEmpty(m: Memory, ranges: seq<Range>, kind: Kind, chunk: nat)
    requires chunk > 0 && !AnySelected(ranges, kind)
    ensures Exported(m, ranges, kind, chunk) == []
  {
    if ranges != [] {
      assert forall i :: 0 <= i < |ranges| - 1 ==> ranges[..|ranges| - 1][i] == ranges[i];
      assert !Selected(ranges[|ranges| - 1], kind);
      UnselectedIsEmpty(m, ranges[..|ranges| - 1], kind, chunk);
    }
  }

  /** The four files together hold exactly the bytes of all ranges. */
  lemma {:induction false} KindsShareTheRanges(m: Memory, ranges: seq<Range>, chunk: nat)
    requires chunk > 0
    ensures multiset(Exported(m, ranges, Chip, chunk)) + multiset(Exported(m, ranges, Slow, chunk)) +
            multiset(Exported(m, ranges, Fast, chunk)) + multiset(Exported(m, ranges, Other, chunk)) ==
            multiset(AllChunks(m, ranges, chunk))
  {
    hide KindOf, ChunkedBytes, Exported;
    if ranges == [] {
      NoRanges(m, chunk);
    } else {
      var before, last := ranges[..|ranges| - 1], ranges[|ranges| - 1];
      KindsShareTheRanges(m, before, chunk);
      NothingOfEmpty(m, last, chunk);
      LastRange(m, ranges, Chip, chunk);
      LastRange(m, ranges, Slow, chunk);
      LastRange(m, ranges, Fast, chunk);
      LastRange(m, ranges, Other, chunk);
    }
  }

  lemma NothingOfEmpty(m: Memory, r: Range, chunk: nat)
    requires chunk > 0
    ensures r.size == 0 ==> ChunkedBytes(m, r.baseAddr, r.size, chunk) == []
  {
  }

  lemma NoRanges(m: Memory, chunk: nat)
    requires chunk > 0
    ensures forall kind :: Exported(m, [], kind, chunk) == []
  {
  }

  lemma LastRange(m: Memory, ranges: seq<Range>, kind: Kind, chunk: nat)
    requires chunk > 0 && ranges != []
    ensures var last := ranges[|ranges| - 1];
            multiset(Exported(m, ranges, kind, chunk)) == multiset(Exported(m, ranges[..|ranges| - 1], kind, chunk)) +
            if Selected(last, kind) then multiset(ChunkedBytes(m, last.baseAddr, last.size, chunk)) else multiset{}
  {
    hide KindOf, ChunkedBytes;
  }

  lemma {:induction false} ChunkedLength(m: Memory, addr: u32, remaining: u32, chunk: nat)
    requires chunk > 0
    ensures |ChunkedBytes(m, addr, remaining, chunk)| == remaining
    decreases remaining
  {
    if remaining > 0 {
      hide Add32, ByteAt;
      var n := Min(remaining, chunk);
      ChunkedLength(m, Add32(addr, n), remaining - n, chunk);
    }
  }

  /** Where the bytes of a range begin in the file of its kind. */
  function OffsetOf(m: Memory, ranges: seq<Range>, i: nat, chunk: nat): nat
    requires chunk > 0 && i < |ranges|
  {
    |Exported(m, ranges[..i], KindOf(ranges[i].baseAddr), chunk)|
  }

  lemma {:induction false} FileGrows(m: Memory, ranges: seq<Range>, i: nat, kind: Kind, chunk: nat)
    requires chunk > 0 && i <= |ranges|
    ensures Exported(m, ranges[..i], kind, chunk) <= Exported(m, ranges, kind, chunk)
    decreases |ranges| - i
  {
    hide Selected, ChunkedBytes;
    if i == |ranges| {
      assert ranges[..i] == ranges;
    } else {
      FileGrows(m, ranges, i + 1, kind, chunk);
      assert ranges[..i + 1][..i] == ranges[..i];
    }
  }

  /** The file of a range's kind holds the range's chunks at its offset: its memory, inside the address space. */
  lemma RangeIsInItsFile(m: Memory, ranges: seq<Range>, i: nat, chunk: nat)
    requires chunk > 0 && i < |ranges| && ranges[i].size != 0
    ensures var r, kind, offset := ranges[i], KindOf(ranges[i].baseAddr), OffsetOf(m, ranges, i, chunk);
            && kind in Present(ranges, 4)
            && offset + r.size <= |Exported(m, ranges, kind, chunk)|
            && Exported(m, ranges, kind, chunk)[offset..offset + r.size] == ChunkedBytes(m, r.baseAddr, r.size, chunk)
            && (r.baseAddr + r.size <= 0x100_0000 ==> Exported(m, ranges, kind, chunk)[offset..offset + r.size] == Bytes(m, r.baseAddr, r.size))
  {
    hide KindOf, Present, ChunkedBytes, Bytes;
    var r, kind := ranges[i], KindOf(ranges[i].baseAddr);
    PresentKinds(ranges);
    assert Selected(r, kind);
    FileGrows(m, ranges, i + 1, kind, chunk);
    ChunkedLength(m, r.baseAddr, r.size, chunk);
    assert ranges[..i + 1][..i] == ranges[..i];
    if r.baseAddr + r.size <= 0x100_0000 {
      ChunksAreTheMemory(m, r.baseAddr, r.size, chunk);
    }
  }

  /** Ranges of one kind have separate places in its file. */
  lemma RangesAreApart(m: Memory, ranges: seq<Range>, i: nat, j: nat, chunk: nat)
    requires chunk > 0 && i < j < |ranges| && ranges[i].size != 0 && KindOf(ranges[i].baseAddr) == KindOf(ranges[j].baseAddr)
    ensures OffsetOf(m, ranges, i, chunk) + ranges[i].size <= OffsetOf(m, ranges, j, chunk)
  {
    hide KindOf, ChunkedBytes;
    var kind, before := KindOf(ranges[i].baseAddr), ranges[..j];
    assert before[..i + 1] == ranges[..i + 1] && ranges[..i + 1][..i] == ranges[..i];
    FileGrows(m, before, i + 1, kind, chunk);
    ChunkedLength(m, ranges[i].baseAddr, ranges[i].size, chunk);
  }

  // ---------- Planning ----------

  function AllKinds(): seq<Kind> { [Chip, Slow, Fast, Other] }

  /** The kinds among the first n that have a range. */
  function Present(ranges: seq<Range>, n: nat): seq<Kind>
    requires n <= 4
  {
    if n == 0 then []
    else Present(ranges, n - 1) + if AnySelected(ranges, AllKinds()[n - 1]) then [AllKinds()[n - 1]] else []
  }

  lemma PresentKinds(ranges: seq<Range>)
    ensures var types := Present(ranges, 4);
            && (forall kind :: kind in types <==> AnySelected(ranges, kind))
            && (forall i, j :: 0 <= i < j < |types| ==> types[i] != types[j])
  {
    hide AnySelected;
    assert Present(ranges, 1) == if AnySelected(ranges, Chip) then [Chip] else [];
    assert Present(ranges, 2) == Present(ranges, 1) + if AnySelected(ranges, Slow) then [Slow] else [];
    assert Present(ranges, 3) == Present(ranges, 2) + if AnySelected(ranges, Fast) then [Fast] else [];
    assert Present(ranges, 4) == Present(ranges, 3) + if AnySelected(ranges, Other) then [Other] else [];
    forall kind ensures kind in Present(ranges, 4) <==> AnySelected(ranges, kind) {
      match kind
      case Chip =>
      case Slow =>
      case Fast =>
      case Other =>
    }
  }

  method PlanTypes(ranges: seq<Range>) returns (types: seq<Kind>)
    ensures types == Present(ranges, 4)
  {
    hide KindOf;
    types := [];
    for t := 0 to 4
      invariant types == Present(ranges, t)
    {
      var present := false;
      for i := 0 to |ranges|
        invariant !present && forall k :: 0 <= k < i ==> !Selected(ranges[k], AllKinds()[t])
      {
        if ranges[i].size != 0 && KindOf(ranges[i].baseAddr) == AllKinds()[t] {
          present := true;
          break;
        }
      }
      if present {
        types := types + [AllKinds()[t]];
      }
    }
  }

  lemma FileBytesAppend(m: Memory, ranges: seq<Range>, a: seq<Kind>, kind: Kind, chunk: nat)
    requires chunk > 0
    ensures FileBytes(m, ranges, a + [kind], chunk) == FileBytes(m, ranges, a, chunk) + multiset(Exported(m, ranges, kind, chunk))
  {
    if a != [] {
      assert (a + [kind])[1..] == a[1..] + [kind];
      FileBytesAppend(m, ranges, a[1..], kind, chunk);
    }
  }

  lemma {:induction false} PresentBytes(m: Memory, ranges: seq<Range>, n: nat, chunk: nat)
    requires chunk > 0 && 0 < n <= 4
    ensures FileBytes(m, ranges, Present(ranges, n), chunk) ==
            FileBytes(m, ranges, Present(ranges, n - 1), chunk) + multiset(Exported(m, ranges, AllKinds()[n - 1], chunk))
  {
    var kind := AllKinds()[n - 1];
    if AnySelected(ranges, kind) {
      FileBytesAppend(m, ranges, Present(ranges, n - 1), kind, chunk);
    } else {
      UnselectedIsEmpty(m, ranges, kind, chunk);
      assert Present(ranges, n) == Present(ranges, n - 1);
    }
  }

  /**
   The files that are written hold exactly the bytes of all ranges, each as often as the ranges do: their
   memory, when they lie inside the address space.
   */
  lemma BytesAreConserved(m: Memory, ranges: seq<Range>, chunk: nat)
    requires chunk > 0
    ensures FileBytes(m, ranges, Present(ranges, 4), chunk) == multiset(AllChunks(m, ranges, chunk))
    ensures (forall r :: r in ranges && r.size != 0 ==> r.baseAddr + r.size <= 0x100_0000) ==>
              FileBytes(m, ranges, Present(ranges, 4), chunk) == multiset(AllMemory(m, ranges))
  {
    hide AnySelected, Exported, Present, AllChunks, AllMemory;
    assert Present(ranges, 0) == [] by { NonePresent(ranges); }
    PresentBytes(m, ranges, 1, chunk);
    PresentBytes(m, ranges, 2, chunk);
    PresentBytes(m, ranges, 3, chunk);
    PresentBytes(m, ranges, 4, chunk);
    KindsShareTheRanges(m, ranges, chunk);
    if forall r :: r in ranges && r.size != 0 ==> r.baseAddr + r.size <= 0x100_0000 {
      AllChunksAreMemory(m, ranges, chunk);
    }
  }

  lemma NonePresent(ranges: seq<Range>)
    ensures Present(ranges, 0) == []
  {
  }
}
