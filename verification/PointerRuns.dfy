/**
 The RAM view's guess at what is on screen: runs of scan lines whose bit-plane pointer advances by
 one constant step are turned into candidate views.
 */
module PointerRuns {
  import opened Bits
  import opened Sequences

  const INVALID_PTR := 0xffff_ffff
  const PLANES := 8
  const MAX_ROW_BYTES := 512
  const DEFAULT_ROW_BYTES := 40

  /** What the emulator recorded for a scan line: the pointer of each plane, if the line maps to one at all. */
  datatype LineState = Unmapped | Mapped(ptr: seq<u32>)

  type Line = l: LineState | l.Mapped? ==> |l.ptr| == PLANES witness Unmapped

  datatype Auto = Auto(baseAddr: u32, rowBytes: u32)

  datatype Limits = Limits(low: u32, high: u32)

  // ---------- Clamping ----------

  function ClampBaseAddr(limits: Limits, baseAddr: u32): u32 {
    var raised := if baseAddr < limits.low then limits.low else baseAddr;
    if raised > limits.high then limits.high else raised
  }

  function ClampRowBytes(rowBytes: u32): u32 {
    var some := if rowBytes < 2 then DEFAULT_ROW_BYTES else rowBytes;
    var capped := if some > MAX_ROW_BYTES then MAX_ROW_BYTES else some;
    var even := capped - capped % 2;
    if even < 2 then 2 else even
  }

  /** Clamping again, as is done to every candidate before it is shown, changes nothing. */
  lemma ClampsSettle(limits: Limits, baseAddr: u32, rowBytes: u32)
    ensures ClampBaseAddr(limits, ClampBaseAddr(limits, baseAddr)) == ClampBaseAddr(limits, baseAddr)
    ensures limits.low <= limits.high ==> limits.low <= ClampBaseAddr(limits, baseAddr) <= limits.high
    ensures ClampRowBytes(ClampRowBytes(rowBytes)) == ClampRowBytes(rowBytes)
  {
  }

  // ---------- Runs ----------

  /** The plane has a pointer on line y. */
  predicate Has(lines: seq<Line>, plane: nat, y: int)
    requires plane < PLANES
  {
    0 <= y < |lines| && lines[y].Mapped? && lines[y].ptr[plane] != INVALID_PTR
  }

  function Ptr(lines: seq<Line>, plane: nat, y: int): u32
    requires plane < PLANES && Has(lines, plane, y)
  {
    lines[y].ptr[plane]
  }

  predicate StepsBy(lines: seq<Line>, plane: nat, y: int, step: int)
    requires plane < PLANES
  {
    Has(lines, plane, y) && Has(lines, plane, y + 1) && Ptr(lines, plane, y + 1) - Ptr(lines, plane, y) == step
  }

  /** Three lines from y on with one equal non-zero step. */
  predicate Opens(lines: seq<Line>, plane: nat, y: int, step: int)
    requires plane < PLANES
  {
    step != 0 && StepsBy(lines, plane, y, step) && StepsBy(lines, plane, y + 1, step)
  }

  datatype Run = Run(start: nat, height: nat, step: int)

  /** At least three lines with one equal non-zero step, which the line after them does not continue. */
  ghost predicate IsRun(lines: seq<Line>, plane: nat, r: Run)
    requires plane < PLANES
  {
    && r.height >= 3 && r.step != 0 && r.start + r.height <= |lines|
    && (forall y :: r.start <= y < r.start + r.height - 1 ==> StepsBy(lines, plane, y, r.step))
    && !StepsBy(lines, plane, r.start + r.height - 1, r.step)
  }

  /** Runs in order, none reaching into the next, all between two lines. */
  ghost predicate Apart(runs: seq<Run>, from: nat, upto: nat) {
    && (forall i :: 0 <= i < |runs| ==> from <= runs[i].start && runs[i].start + runs[i].height <= upto)
    && (forall i, j :: 0 <= i < j < |runs| ==> runs[i].start + runs[i].height <= runs[j].start)
  }

  ghost predicate InSome(runs: seq<Run>, y: int) {
    exists i :: 0 <= i < |runs| && runs[i].start <= y < runs[i].start + runs[i].height
  }

  /** Every place where a run could start lies in one of the runs. */
  ghost predicate Complete(lines: seq<Line>, plane: nat, runs: seq<Run>, from: nat)
    requires plane < PLANES
  {
    forall y, step :: from <= y && Opens(lines, plane, y, step) ==> InSome(runs, y)
  }

  /** How many lines the run of a given step, known to be h lines long so far, has. */
  function HeightFrom(lines: seq<Line>, plane: nat, y: nat, step: int, h: nat): (r: nat)
    requires plane < PLANES && h > 0
    ensures r >= h
    decreases |lines| - y - h
  {
    if StepsBy(lines, plane, y + h - 1, step) then HeightFrom(lines, plane, y, step, h + 1) else h
  }

  lemma {:induction false} HeightIsOfRun(lines: seq<Line>, plane: nat, y: nat, step: int, h: nat)
    requires plane < PLANES && h > 0 && y + h <= |lines|
    ensures var r := HeightFrom(lines, plane, y, step, h);
            && y + r <= |lines| && !StepsBy(lines, plane, y + r - 1, step)
            && forall k :: y + h - 1 <= k < y + r - 1 ==> StepsBy(lines, plane, k, step)
    decreases |lines| - y - h
  {
    if StepsBy(lines, plane, y + h - 1, step) {
      HeightIsOfRun(lines, plane, y, step, h + 1);
    }
  }

  function StepAt(lines: seq<Line>, plane: nat, y: nat): int
    requires plane < PLANES
  {
    if Has(lines, plane, y) && Has(lines, plane, y + 1) then Ptr(lines, plane, y + 1) - Ptr(lines, plane, y) else 0
  }

  function RunAt(lines: seq<Line>, plane: nat, y: nat): (r: Run)
    requires plane < PLANES
    ensures r.height >= 1
  {
    Run(y, HeightFrom(lines, plane, y, StepAt(lines, plane, y), 1), StepAt(lines, plane, y))
  }

  lemma RunAtIsRun(lines: seq<Line>, plane: nat, y: nat)
    requires plane < PLANES && Opens(lines, plane, y, StepAt(lines, plane, y))
    ensures IsRun(lines, plane, RunAt(lines, plane, y))
  {
    HeightIsOfRun(lines, plane, y, StepAt(lines, plane, y), 1);
  }

  /** The runs found from line y on: each is skipped over as a whole. */
  function RunsFrom(lines: seq<Line>, plane: nat, y: nat): seq<Run>
    requires plane < PLANES
    decreases |lines| - y
  {
    if y >= |lines| - 2 then []
    else if !Opens(lines, plane, y, StepAt(lines, plane, y)) then RunsFrom(lines, plane, y + 1)
    else [RunAt(lines, plane, y)] + RunsFrom(lines, plane, y + RunAt(lines, plane, y).height)
  }

  lemma InSomeGrows(r: Run, runs: seq<Run>, y: int)
    requires InSome(runs, y)
    ensures InSome([r] + runs, y)
  {
    var i :| 0 <= i < |runs| && runs[i].start <= y < runs[i].start + runs[i].height;
    assert ([r] + runs)[i + 1] == runs[i];
  }

  /** The runs found are rightward-maximal, disjoint, and miss no place where a run could start. */
  lemma {:induction false} RunsAreRight(lines: seq<Line>, plane: nat, y: nat)
    requires plane < PLANES && y <= |lines|
    ensures forall i :: 0 <= i < |RunsFrom(lines, plane, y)| ==> IsRun(lines, plane, RunsFrom(lines, plane, y)[i])
    ensures Apart(RunsFrom(lines, plane, y), y, |lines|)
    ensures Complete(lines, plane, RunsFrom(lines, plane, y), y)
    decreases |lines| - y
  {
    hide IsRun, InSome, RunAt;
    if y < |lines| - 2 {
      if !Opens(lines, plane, y, StepAt(lines, plane, y)) {
        RunsAreRight(lines, plane, y + 1);
      } else {
        var r := RunAt(lines, plane, y);
        RunAtIsRun(lines, plane, y);
        RunBounds(lines, plane, y);
        RunsAreRight(lines, plane, y + r.height);
        var rest := RunsFrom(lines, plane, y + r.height);
        forall k, step | y <= k && Opens(lines, plane, k, step) ensures InSome([r] + rest, k) {
          if k < y + r.height {
            InFirst(r, rest, k);
          } else {
            InSomeGrows(r, rest, k);
          }
        }
      }
    }
  }

  lemma RunBounds(lines: seq<Line>, plane: nat, y: nat)
    requires plane < PLANES && IsRun(lines, plane, RunAt(lines, plane, y))
    ensures var r := RunAt(lines, plane, y); r.start == y && r.height >= 3 && y + r.height <= |lines|
  {
  }

  lemma InFirst(r: Run, runs: seq<Run>, y: int)
    requires r.start <= y < r.start + r.height
    ensures InSome([r] + runs, y)
  {
    assert ([r] + runs)[0] == r;
  }

  /** In a run the pointers are an arithmetic progression. */
  lemma {:induction false} RunIsProgression(lines: seq<Line>, plane: nat, r: Run, i: nat)
    requires plane < PLANES && IsRun(lines, plane, r) && i < r.height
    ensures Has(lines, plane, r.start) && Has(lines, plane, r.start + i)
    ensures Ptr(lines, plane, r.start + i) == Ptr(lines, plane, r.start) + r.step * i
  {
    assert StepsBy(lines, plane, r.start, r.step);
    if i > 0 {
      RunIsProgression(lines, plane, r, i - 1);
      assert StepsBy(lines, plane, r.start + i - 1, r.step);
      assert r.step * i == r.step * (i - 1) + r.step;
    }
  }

  // ---------- Candidates ----------

  /** Where the rows of a run begin: for a falling pointer, one step below its last line. */
  function FirstRow(lines: seq<Line>, plane: nat, r: Run): int
    requires plane < PLANES && Has(lines, plane, r.start)
  {
    if r.step < 0 then Ptr(lines, plane, r.start) + r.step * r.height else Ptr(lines, plane, r.start)
  }

  function Size(step: int): nat {
    if step < 0 then -step else step
  }

  /** The candidate a run yields, if any: none from a step too big or rows outside the 24-bit space. */
  function CandidateOf(limits: Limits, lines: seq<Line>, plane: nat, r: Run): seq<Auto>
    requires plane < PLANES
  {
    if !Has(lines, plane, r.start) then []
    else
      var first := FirstRow(lines, plane, r);
      if r.step < 0 && !(0 <= first <= 0xff_ffff) then []
      else if Size(r.step) == 0 || Size(r.step) > MAX_ROW_BYTES then []
      else [Auto(ClampBaseAddr(limits, first), ClampRowBytes(Size(r.step)))]
  }

  /** A candidate's row length is even, in range, and the run's own step whenever that is even. */
  lemma CandidateRows(limits: Limits, lines: seq<Line>, plane: nat, r: Run)
    requires plane < PLANES && IsRun(lines, plane, r) && CandidateOf(limits, lines, plane, r) != []
    ensures var a := CandidateOf(limits, lines, plane, r)[0];
            && a.rowBytes % 2 == 0 && 2 <= a.rowBytes <= MAX_ROW_BYTES && Size(r.step) <= MAX_ROW_BYTES
            && (a.rowBytes == Size(r.step) <==> r.step % 2 == 0)
            && (r.step % 2 == 1 ==> a.rowBytes == if Size(r.step) == 1 then DEFAULT_ROW_BYTES else Size(r.step) - 1)
  {
    hide IsRun, ClampRowBytes, Ptr, Has, FirstRow, ClampBaseAddr;
    RowsOfStep(Size(r.step));
    SizeParity(r.step);
  }

  /**
   A run yields one candidate at most, and one exactly if its rows have at most 512 bytes and, for a falling
   pointer, the picture begins inside the 24-bit space; it begins at the run's first row, moved into the limits.
   */
  lemma RunYields(limits: Limits, lines: seq<Line>, plane: nat, r: Run)
    requires plane < PLANES && IsRun(lines, plane, r)
    ensures Has(lines, plane, r.start)
    ensures var found, top := CandidateOf(limits, lines, plane, r), Ptr(lines, plane, r.start);
            && |found| <= 1
            && (found != [] <==> -512 <= r.step <= 512 && (r.step > 0 || 0 <= top + r.step * r.height <= 0xff_ffff))
            && (found != [] ==>
                  var base := if r.step > 0 then top else top + r.step * r.height;
                  && found[0].baseAddr == (if limits.high < limits.low || base > limits.high then limits.high
                                           else if base < limits.low then limits.low else base)
                  && found[0].rowBytes == (var size := if r.step > 0 then r.step else -r.step;
                                           if size == 1 then 40 else if size % 2 == 0 then size else size - 1))
  {
    hide ClampRowBytes;
    assert StepsBy(lines, plane, r.start, r.step);
    if 0 < Size(r.step) <= MAX_ROW_BYTES {
      RowsOfStep(Size(r.step));
    }
  }

  lemma SizeParity(step: int)
    ensures Size(step) % 2 == step % 2
  {
  }

  lemma RowsOfStep(size: u32)
    requires 0 < size <= MAX_ROW_BYTES
    ensures ClampRowBytes(size) == if size % 2 == 0 then size else if size == 1 then DEFAULT_ROW_BYTES else size - 1
  {
  }

  /** Every line of the run points at a row of the picture that begins at the run's first row. */
  lemma RowsOfRun(lines: seq<Line>, plane: nat, r: Run, i: nat)
    requires plane < PLANES && IsRun(lines, plane, r) && i < r.height
    ensures Has(lines, plane, r.start) && Has(lines, plane, r.start + i)
    ensures Ptr(lines, plane, r.start + i) ==
            FirstRow(lines, plane, r) + Size(r.step) * (if r.step < 0 then r.height - i else i)
  {
    RunIsProgression(lines, plane, r, i);
    if r.step < 0 {
      assert -r.step * (r.height - i) == r.step * i - r.step * r.height;
    }
  }

  /** The row of the picture a line of the run shows. */
  function RowOfLine(r: Run, i: nat): int {
    if r.step < 0 then r.height - i else i
  }

  /** Line i of the run points at its row of the picture that begins at a base. */
  ghost predicate Shows(lines: seq<Line>, plane: nat, r: Run, i: nat, base: int, rowBytes: int)
    requires plane < PLANES
  {
    Has(lines, plane, r.start + i) && Ptr(lines, plane, r.start + i) == base + rowBytes * RowOfLine(r, i)
  }

  /** Every line of the run shows a whole row of the picture. */
  ghost predicate OnGrid(lines: seq<Line>, plane: nat, r: Run, base: int, rowBytes: int)
    requires plane < PLANES
  {
    forall i :: 0 <= i < r.height ==> Shows(lines, plane, r, i, base, rowBytes)
  }

  /** The lines of a run show the candidate's rows if and only if the step is even and the base was not clamped. */
  lemma CandidateGrid(limits: Limits, lines: seq<Line>, plane: nat, r: Run)
    requires plane < PLANES && IsRun(lines, plane, r) && CandidateOf(limits, lines, plane, r) != []
    ensures Has(lines, plane, r.start) && FirstRow(lines, plane, r) >= 0
    ensures var a := CandidateOf(limits, lines, plane, r)[0];
            OnGrid(lines, plane, r, a.baseAddr, a.rowBytes) <==>
            r.step % 2 == 0 && ClampBaseAddr(limits, FirstRow(lines, plane, r)) == FirstRow(lines, plane, r)
    ensures limits.low <= FirstRow(lines, plane, r) <= limits.high ==>
              ClampBaseAddr(limits, FirstRow(lines, plane, r)) == FirstRow(lines, plane, r)
  {
    hide IsRun, Ptr, Has, FirstRow, ClampRowBytes, Shows;
    var a := CandidateOf(limits, lines, plane, r)[0];
    CandidateRows(limits, lines, plane, r);
    RunStarts(lines, plane, r);
    FirstRowInSpace(limits, lines, plane, r);
    var first := FirstRow(lines, plane, r);
    forall i | 0 <= i < r.height ensures Shows(lines, plane, r, i, first, Size(r.step)) {
      RunShows(lines, plane, r, i);
    }
    if OnGrid(lines, plane, r, a.baseAddr, a.rowBytes) {
      ShowsBoth(lines, plane, r, first, Size(r.step), a.baseAddr, a.rowBytes);
    }
  }

  lemma RunShows(lines: seq<Line>, plane: nat, r: Run, i: nat)
    requires plane < PLANES && IsRun(lines, plane, r) && i < r.height && Has(lines, plane, r.start)
    ensures Shows(lines, plane, r, i, FirstRow(lines, plane, r), Size(r.step))
  {
    hide IsRun, FirstRow;
    RowsOfRun(lines, plane, r, i);
  }

  lemma ShowsBoth(lines: seq<Line>, plane: nat, r: Run, base: int, rowBytes: int, base': int, rowBytes': int)
    requires plane < PLANES && r.height >= 2
    requires OnGrid(lines, plane, r, base, rowBytes) && OnGrid(lines, plane, r, base', rowBytes')
    ensures base == base' && rowBytes == rowBytes'
  {
    assert Shows(lines, plane, r, 0, base, rowBytes) && Shows(lines, plane, r, 0, base', rowBytes');
    assert Shows(lines, plane, r, 1, base, rowBytes) && Shows(lines, plane, r, 1, base', rowBytes');
    SameGrid(base, rowBytes, base', rowBytes', RowOfLine(r, 0), RowOfLine(r, 1));
  }

  lemma FirstRowInSpace(limits: Limits, lines: seq<Line>, plane: nat, r: Run)
    requires plane < PLANES && CandidateOf(limits, lines, plane, r) != []
    ensures Has(lines, plane, r.start) && FirstRow(lines, plane, r) >= 0
  {
    hide ClampBaseAddr, ClampRowBytes;
  }

  lemma RunStarts(lines: seq<Line>, plane: nat, r: Run)
    requires plane < PLANES && IsRun(lines, plane, r)
    ensures r.height >= 3 && Has(lines, plane, r.start)
  {
    assert StepsBy(lines, plane, r.start, r.step);
  }

  /** Two neighbouring rows fix a grid. */
  lemma SameGrid(base: int, size: int, base': int, size': int, i: int, j: int)
    requires i - j == 1 || j - i == 1
    requires base + size * i == base' + size' * i && base + size * j == base' + size' * j
    ensures base == base' && size == size'
  {
    assert (size - size') * (i - j) == 0;
  }

  function Candidates(limits: Limits, lines: seq<Line>, plane: nat, runs: seq<Run>): seq<Auto>
    requires plane < PLANES
  {
    if runs == [] then []
    else CandidateOf(limits, lines, plane, runs[0]) + Candidates(limits, lines, plane, runs[1..])
  }

  function AddNew(found: seq<Auto>, limit: nat, a: Auto): seq<Auto> {
    if |found| >= limit || a in found then found else found + [a]
  }

  /** The first different candidates, in order, up to a limit. */
  function AddAllNew(found: seq<Auto>, limit: nat, candidates: seq<Auto>): seq<Auto>
    decreases candidates
  {
    if candidates == [] then found else AddAllNew(AddNew(found, limit, candidates[0]), limit, candidates[1..])
  }

  lemma {:induction false} SelectionGrows(found: seq<Auto>, limit: nat, candidates: seq<Auto>)
    requires Distinct(found) && |found| <= limit
    ensures var r := AddAllNew(found, limit, candidates); Distinct(r) && |r| <= limit && found <= r
    decreases candidates
  {
    if candidates != [] {
      SelectionGrows(AddNew(found, limit, candidates[0]), limit, candidates[1..]);
    }
  }

  lemma {:induction false} SelectionIsFrom(found: seq<Auto>, limit: nat, candidates: seq<Auto>, a: Auto)
    requires a in AddAllNew(found, limit, candidates)
    ensures a in found || a in candidates
    decreases candidates
  {
    if candidates != [] {
      SelectionIsFrom(AddNew(found, limit, candidates[0]), limit, candidates[1..], a);
    }
  }

  lemma {:induction false} SelectionHasAll(found: seq<Auto>, limit: nat, candidates: seq<Auto>, a: Auto)
    requires Distinct(found) && |AddAllNew(found, limit, candidates)| < limit && a in candidates
    ensures a in AddAllNew(found, limit, candidates)
    decreases candidates
  {
    var more := AddNew(found, limit, candidates[0]);
    if |found| >= limit {
      FullStaysFull(found, limit, candidates);
    } else if a == candidates[0] {
      SelectionGrows(more, limit, candidates[1..]);
      var k :| 0 <= k < |more| && more[k] == a;
      assert AddAllNew(more, limit, candidates[1..])[k] == a;
    } else {
      SelectionHasAll(more, limit, candidates[1..], a);
    }
  }

  lemma {:induction false} FullStaysFull(found: seq<Auto>, limit: nat, candidates: seq<Auto>)
    requires |found| >= limit
    ensures AddAllNew(found, limit, candidates) == found
    decreases candidates
  {
    if candidates != [] {
      FullStaysFull(found, limit, candidates[1..]);
    }
  }

  lemma {:induction false} AddAllNewOfBoth(found: seq<Auto>, limit: nat, a: seq<Auto>, b: seq<Auto>)
    ensures AddAllNew(found, limit, a + b) == AddAllNew(AddAllNew(found, limit, a), limit, b)
    decreases a
  {
    if a == [] {
      assert a + b == b;
    } else {
      assert (a + b)[1..] == a[1..] + b;
      AddAllNewOfBoth(AddNew(found, limit, a[0]), limit, a[1..], b);
    }
  }

  /** The candidates of all runs of the planes from `plane` on. */
  function PlaneCandidates(limits: Limits, lines: seq<Line>, plane: nat): seq<Auto>
    decreases PLANES - plane
  {
    if plane >= PLANES then []
    else Candidates(limits, lines, plane, RunsFrom(lines, plane, 0)) + PlaneCandidates(limits, lines, plane + 1)
  }

  lemma {:induction false} CandidateHasRun(limits: Limits, lines: seq<Line>, plane: nat, runs: seq<Run>, a: Auto)
    requires plane < PLANES && a in Candidates(limits, lines, plane, runs)
    ensures exists r :: r in runs && [a] == CandidateOf(limits, lines, plane, r)
  {
    if a !in CandidateOf(limits, lines, plane, runs[0]) {
      CandidateHasRun(limits, lines, plane, runs[1..], a);
    }
  }

  /** Every candidate comes from a run of some plane. */
  lemma {:induction false} EveryCandidateHasRun(limits: Limits, lines: seq<Line>, plane: nat, a: Auto)
    requires a in PlaneCandidates(limits, lines, plane)
    ensures exists p: nat, r :: p < PLANES && IsRun(lines, p, r) && [a] == CandidateOf(limits, lines, p, r)
    decreases PLANES - plane
  {
    hide RunsFrom, CandidateOf, Candidates;
    var runs := RunsFrom(lines, plane, 0);
    if a in Candidates(limits, lines, plane, runs) {
      CandidateHasRun(limits, lines, plane, runs, a);
      var r :| r in runs && [a] == CandidateOf(limits, lines, plane, r);
      RunsAreRight(lines, plane, 0);
      assert IsRun(lines, plane, r);
    } else {
      EveryCandidateHasRun(limits, lines, plane + 1, a);
    }
  }

  lemma {:induction false} RunIsOffered(limits: Limits, lines: seq<Line>, plane: nat, runs: seq<Run>, r: Run)
    requires plane < PLANES && r in runs
    ensures forall a :: a in CandidateOf(limits, lines, plane, r) ==> a in Candidates(limits, lines, plane, runs)
  {
    hide CandidateOf;
    if r != runs[0] {
      RunIsOffered(limits, lines, plane, runs[1..], r);
    }
  }

  /** Every run of every plane is taken into account. */
  lemma {:induction false} EveryRunIsOffered(limits: Limits, lines: seq<Line>, from: nat, plane: nat, r: Run)
    requires from <= plane < PLANES && r in RunsFrom(lines, plane, 0)
    ensures forall a :: a in CandidateOf(limits, lines, plane, r) ==> a in PlaneCandidates(limits, lines, from)
    decreases PLANES - from
  {
    hide RunsFrom, CandidateOf, Candidates;
    if from == plane {
      RunIsOffered(limits, lines, plane, RunsFrom(lines, plane, 0), r);
    } else {
      EveryRunIsOffered(limits, lines, from + 1, plane, r);
    }
  }

  // ---------- The search ----------

  method AppendAutoIfUnique(outAutos: array<Auto>, autoCount: nat, a: Auto) returns (count: nat)
    requires autoCount <= outAutos.Length
    modifies outAutos
    ensures count <= outAutos.Length
    ensures outAutos[..count] == AddNew(old(outAutos[..autoCount]), outAutos.Length, a)
  {
    count := autoCount;
    if autoCount >= outAutos.Length {
      return;
    }
    for i := 0 to autoCount
      invariant a !in outAutos[..i]
      invariant outAutos[..autoCount] == old(outAutos[..autoCount])
    {
      if outAutos[i].baseAddr == a.baseAddr && outAutos[i].rowBytes == a.rowBytes {
        return;
      }
    }
    outAutos[autoCount] := a;
    count := autoCount + 1;
  }

  method ExtendRun(lines: seq<Line>, plane: nat, y: nat, step: int) returns (h: nat)
    requires plane < PLANES
    ensures h == HeightFrom(lines, plane, y, step, 1)
  {
    h := 1;
    while y + h < |lines|
      invariant h >= 1 && HeightFrom(lines, plane, y, step, h) == HeightFrom(lines, plane, y, step, 1)
    {
      if !Has(lines, plane, y + h - 1) || !Has(lines, plane, y + h) {
        break;
      }
      if Ptr(lines, plane, y + h) - Ptr(lines, plane, y + h - 1) != step {
        break;
      }
      h := h + 1;
    }
  }

  /** The candidate of the run at line y is offered; the list grows if it is new. */
  method OfferRun(limits: Limits, lines: seq<Line>, plane: nat, y: nat, step: int, h: nat, outAutos: array<Auto>, autoCount: nat)
      returns (count: nat)
    requires plane < PLANES && Has(lines, plane, y) && step != 0 && autoCount <= outAutos.Length
    modifies outAutos
    ensures count <= outAutos.Length
    ensures outAutos[..count] ==
            AddAllNew(old(outAutos[..autoCount]), outAutos.Length, CandidateOf(limits, lines, plane, Run(y, h, step)))
  {
    count := autoCount;
    var baseAddr: int := Ptr(lines, plane, y);
    var rowBytes := step;
    if rowBytes < 0 {
      var base := baseAddr + rowBytes * h;
      if base < 0 || base > 0xff_ffff {
        return;
      }
      baseAddr, rowBytes := base, -rowBytes;
    }
    if rowBytes <= 0 || rowBytes > MAX_ROW_BYTES {
      return;
    }
    var a := Auto(ClampBaseAddr(limits, baseAddr), ClampRowBytes(rowBytes));
    assert CandidateOf(limits, lines, plane, Run(y, h, step)) == [a];
    count := AppendAutoIfUnique(outAutos, autoCount, a);
  }

  lemma ScanStep(limits: Limits, lines: seq<Line>, plane: nat, y: nat, found: seq<Auto>, limit: nat)
    requires plane < PLANES && y < |lines| - 2
    ensures var all := Candidates(limits, lines, plane, RunsFrom(lines, plane, y));
            if Opens(lines, plane, y, StepAt(lines, plane, y)) then
              var r := RunAt(lines, plane, y);
              AddAllNew(found, limit, all) ==
              AddAllNew(AddAllNew(found, limit, CandidateOf(limits, lines, plane, r)), limit,
                        Candidates(limits, lines, plane, RunsFrom(lines, plane, y + r.height)))
            else all == Candidates(limits, lines, plane, RunsFrom(lines, plane, y + 1))
  {
    if Opens(lines, plane, y, StepAt(lines, plane, y)) {
      var r := RunAt(lines, plane, y);
      var rest := RunsFrom(lines, plane, y + r.height);
      assert RunsFrom(lines, plane, y) == [r] + rest && ([r] + rest)[1..] == rest;
      AddAllNewOfBoth(found, limit, CandidateOf(limits, lines, plane, r), Candidates(limits, lines, plane, rest));
    }
  }

  /** One plane: the candidates of all its runs are added, although the scan stops once the list is full. */
  method ScanPlane(limits: Limits, lines: seq<Line>, plane: nat, outAutos: array<Auto>, autoCount: nat) returns (count: nat)
    requires plane < PLANES && autoCount <= outAutos.Length
    modifies outAutos
    ensures count <= outAutos.Length
    ensures outAutos[..count] ==
            AddAllNew(old(outAutos[..autoCount]), outAutos.Length, Candidates(limits, lines, plane, RunsFrom(lines, plane, 0)))
  {
    hide Candidates, CandidateOf, RunsFrom, RunAt, AddAllNew;
    count := autoCount;
    var y := 0;
    ghost var limit, goal := outAutos.Length,
      AddAllNew(outAutos[..autoCount], outAutos.Length, Candidates(limits, lines, plane, RunsFrom(lines, plane, 0)));
    while y < |lines| - 2 && count < outAutos.Length
      invariant count <= outAutos.Length
      invariant AddAllNew(outAutos[..count], limit, Candidates(limits, lines, plane, RunsFrom(lines, plane, y))) == goal
      decreases |lines| - y
    {
      ScanStep(limits, lines, plane, y, outAutos[..count], limit);
      if !Has(lines, plane, y) || !Has(lines, plane, y + 1) || !Has(lines, plane, y + 2) {
        y := y + 1;
        continue;
      }
      var delta := Ptr(lines, plane, y + 1) - Ptr(lines, plane, y);
      var deltaNext := Ptr(lines, plane, y + 2) - Ptr(lines, plane, y + 1);
      if delta == 0 || delta != deltaNext {
        y := y + 1;
        continue;
      }
      var h := ExtendRun(lines, plane, y, delta);
      assert RunAt(lines, plane, y) == Run(y, h, delta) by { FoundRun(lines, plane, y, h); }
      count := OfferRun(limits, lines, plane, y, delta, h, outAutos, count);
      y := y + h;
    }
    if y >= |lines| - 2 {
      NoRunsLeft(limits, lines, plane, y, outAutos[..count], limit);
    } else {
      FullStaysFull(outAutos[..count], limit, Candidates(limits, lines, plane, RunsFrom(lines, plane, y)));
    }
  }

  lemma FoundRun(lines: seq<Line>, plane: nat, y: nat, h: nat)
    requires plane < PLANES && h == HeightFrom(lines, plane, y, StepAt(lines, plane, y), 1)
    ensures h >= 1 && RunAt(lines, plane, y) == Run(y, h, StepAt(lines, plane, y))
  {
  }

  lemma NoRunsLeft(limits: Limits, lines: seq<Line>, plane: nat, y: nat, found: seq<Auto>, limit: nat)
    requires plane < PLANES && y >= |lines| - 2
    ensures AddAllNew(found, limit, Candidates(limits, lines, plane, RunsFrom(lines, plane, y))) == found
  {
  }

  /** All planes: the list is the first different candidates of all runs, up to its capacity. */
  method CollectLineAuto(limits: Limits, lines: seq<Line>, outAutos: array<Auto>) returns (count: nat)
    modifies outAutos
    ensures count <= outAutos.Length
    ensures outAutos[..count] == AddAllNew([], outAutos.Length, PlaneCandidates(limits, lines, 0))
  {
    hide Candidates, RunsFrom, AddAllNew;
    count := 0;
    if |lines| < 3 {
      NoLines(limits, lines, 0);
      AddNone([], outAutos.Length);
      return;
    }
    ghost var goal := AddAllNew([], outAutos.Length, PlaneCandidates(limits, lines, 0));
    var plane := 0;
    while plane < PLANES && count < outAutos.Length
      invariant plane <= PLANES && count <= outAutos.Length
      invariant AddAllNew(outAutos[..count], outAutos.Length, PlaneCandidates(limits, lines, plane)) == goal
    {
      AddAllNewOfBoth(outAutos[..count], outAutos.Length,
                      Candidates(limits, lines, plane, RunsFrom(lines, plane, 0)), PlaneCandidates(limits, lines, plane + 1));
      count := ScanPlane(limits, lines, plane, outAutos, count);
      plane := plane + 1;
    }
    if plane < PLANES {
      FullStaysFull(outAutos[..count], outAutos.Length, PlaneCandidates(limits, lines, plane));
    } else {
      AddNone(outAutos[..count], outAutos.Length);
    }
  }

  lemma AddNone(found: seq<Auto>, limit: nat)
    ensures AddAllNew(found, limit, []) == found
  {
  }

  lemma {:induction false} NoLines(limits: Limits, lines: seq<Line>, plane: nat)
    requires |lines| < 3
    ensures PlaneCandidates(limits, lines, plane) == []
    decreases PLANES - plane
  {
    if plane < PLANES {
      assert RunsFrom(lines, plane, 0) == [];
      NoLines(limits, lines, plane + 1);
    }
  }

  /** Candidates are offered run by run, and plane by plane from the first to the eighth. */
  lemma {:induction false} RunsInOrder(limits: Limits, lines: seq<Line>, plane: nat, first: seq<Run>, r: Run, rest: seq<Run>)
    requires plane < 8
    ensures Candidates(limits, lines, plane, first + ([r] + rest)) ==
            Candidates(limits, lines, plane, first) + (CandidateOf(limits, lines, plane, r) + Candidates(limits, lines, plane, rest))
  {
    hide CandidateOf;
    if first == [] {
      assert first + ([r] + rest) == [r] + rest && ([r] + rest)[1..] == rest;
    } else {
      assert (first + ([r] + rest))[1..] == first[1..] + ([r] + rest);
      RunsInOrder(limits, lines, plane, first[1..], r, rest);
    }
  }

  lemma PlanesInOrder(limits: Limits, lines: seq<Line>)
    ensures var c := (p: nat) => if p < 8 then Candidates(limits, lines, p, RunsFrom(lines, p, 0)) else [];
            PlaneCandidates(limits, lines, 0) == c(0) + (c(1) + (c(2) + (c(3) + (c(4) + (c(5) + (c(6) + c(7)))))))
  {
    hide Candidates, RunsFrom;
    var none: seq<Auto> := PlaneCandidates(limits, lines, 8);
    assert none == [];
    var last := Candidates(limits, lines, 7, RunsFrom(lines, 7, 0));
    assert PlaneCandidates(limits, lines, 7) == last + none == last;
  }

  /** Of the candidates offered the list has the first of each, in the order they come, until it is full. */
  lemma {:induction false} FirstOfEach(limit: nat, offered: seq<Auto>) returns (at: seq<nat>)
    ensures var found := AddAllNew([], limit, offered);
            && |at| == |found| <= limit
            && (forall i, j :: 0 <= i < j < |at| ==> at[i] < at[j])
            && (forall i :: 0 <= i < |at| ==> at[i] < |offered| && offered[at[i]] == found[i] && found[i] !in offered[..at[i]])
            && (|found| < limit ==> forall a :: a in offered ==> a in found)
            && (forall j :: 0 <= j < |offered| && offered[j] !in found ==> forall i :: 0 <= i < |at| ==> at[i] < j)
  {
    hide AddAllNew;
    AddNone([], limit);
    at := [];
    if offered != [] {
      var n := |offered| - 1;
      var before, a := offered[..n], offered[n];
      at := FirstOfEach(limit, before);
      var was := AddAllNew([], limit, before);
      assert offered == before + [a];
      AddAllNewOfBoth([], limit, before, [a]);
      AddAllOne(was, limit, a);
      assert forall i :: 0 <= i < |at| ==> offered[..at[i]] == before[..at[i]];
      assert forall i :: 0 <= i < |was| ==> was[i] in before;
      assert forall j :: 0 <= j < n ==> offered[j] == before[j];
      if |was| < limit && a !in was {
        at := at + [n];
        assert a !in before;
      }
    }
  }

  lemma AddAllOne(found: seq<Auto>, limit: nat, a: Auto)
    ensures AddAllNew(found, limit, [a]) == if |found| >= limit || a in found then found else found + [a]
  {
    assert [a][1..] == [];
    AddNone(AddNew(found, limit, a), limit);
  }

  /** What the list holds: different candidates, each of a run; and, unless it is full, those of all runs. */
  lemma CollectedAutos(limits: Limits, lines: seq<Line>, limit: nat)
    ensures var found := AddAllNew([], limit, PlaneCandidates(limits, lines, 0));
            && Distinct(found) && |found| <= limit
            && (forall a :: a in found ==>
                  exists p: nat, r :: p < PLANES && IsRun(lines, p, r) && [a] == CandidateOf(limits, lines, p, r))
            && (|found| < limit ==>
                  forall p: nat, r, a :: p < PLANES && r in RunsFrom(lines, p, 0) && a in CandidateOf(limits, lines, p, r) ==> a in found)
  {
    var all := PlaneCandidates(limits, lines, 0);
    var found := AddAllNew([], limit, all);
    SelectionGrows([], limit, all);
    forall p: nat, r, a | p < PLANES && r in RunsFrom(lines, p, 0) && a in CandidateOf(limits, lines, p, r) && |found| < limit
      ensures a in found
    {
      EveryRunIsOffered(limits, lines, 0, p, r);
      SelectionHasAll([], limit, all, a);
    }
    forall a | a in found
      ensures exists p: nat, r :: p < PLANES && IsRun(lines, p, r) && [a] == CandidateOf(limits, lines, p, r)
    {
      SelectionIsFrom([], limit, all, a);
      EveryCandidateHasRun(limits, lines, 0, a);
    }
  }

  /**
   No run is missed: unless the list is full it has a view for every run whose rows have at most 512 bytes and
   whose picture begins inside the 24-bit space.
   */
  lemma NoRunMissed(limits: Limits, lines: seq<Line>, limit: nat, plane: nat, r: Run)
    requires plane < 8 && r in RunsFrom(lines, plane, 0)
    requires |AddAllNew([], limit, PlaneCandidates(limits, lines, 0))| < limit
    ensures Has(lines, plane, r.start)
    ensures var top := Ptr(lines, plane, r.start);
            -512 <= r.step <= 512 && (r.step > 0 || 0 <= top + r.step * r.height <= 0xff_ffff) ==>
              var base := if r.step > 0 then top else top + r.step * r.height;
              exists a :: a in AddAllNew([], limit, PlaneCandidates(limits, lines, 0))
                          && (limits.low <= base <= limits.high ==> a.baseAddr == base)
                          && (r.step % 2 == 0 ==> a.rowBytes == if r.step > 0 then r.step else -r.step)
  {
    hide CandidateOf, IsRun, PlaneCandidates, AddAllNew;
    var all := PlaneCandidates(limits, lines, 0);
    RunsAreRight(lines, plane, 0);
    assert IsRun(lines, plane, r);
    RunYields(limits, lines, plane, r);
    if CandidateOf(limits, lines, plane, r) != [] {
      var a := CandidateOf(limits, lines, plane, r)[0];
      EveryRunIsOffered(limits, lines, 0, plane, r);
      SelectionHasAll([], limit, all, a);
      assert a in AddAllNew([], limit, all);
    }
  }

  /** The line and the next have a pointer of the plane, and it moves by a step from one to the other. */
  predicate MovesBy(lines: seq<Line>, plane: nat, y: int, step: int)
    requires plane < 8
  {
    && 0 <= y && y + 1 < |lines| && lines[y].Mapped? && lines[y + 1].Mapped?
    && lines[y].ptr[plane] != 0xffff_ffff && lines[y + 1].ptr[plane] != 0xffff_ffff
    && lines[y + 1].ptr[plane] as int - lines[y].ptr[plane] as int == step
  }

  /** Three lines that move alike, and do move. */
  predicate MovesTwice(lines: seq<Line>, plane: nat, y: int, step: int)
    requires plane < 8
  {
    step != 0 && MovesBy(lines, plane, y, step) && MovesBy(lines, plane, y + 1, step)
  }

  lemma StepsIs(lines: seq<Line>, plane: nat, y: int, step: int)
    requires plane < 8
    ensures StepsBy(lines, plane, y, step) <==> MovesBy(lines, plane, y, step)
  {
  }

  /**
   What the runs of a plane are, line by line: at least three lines on which the pointer moves by one step, which
   the line after them does not follow; and every three lines that move alike begin in one.
   */
  lemma RunsAre(lines: seq<Line>, plane: nat)
    requires plane < 8
    ensures forall r :: r in RunsFrom(lines, plane, 0) ==>
              && r.height >= 3 && r.step != 0
              && (forall y :: r.start <= y < r.start + r.height - 1 ==> MovesBy(lines, plane, y, r.step))
              && !MovesBy(lines, plane, r.start + r.height - 1, r.step)
    ensures forall y, step :: MovesTwice(lines, plane, y, step) ==>
              exists r :: r in RunsFrom(lines, plane, 0) && r.start <= y < r.start + r.height
  {
    hide RunsFrom, StepsBy, MovesBy;
    var runs := RunsFrom(lines, plane, 0);
    RunsAreRight(lines, plane, 0);
    forall y, step ensures StepsBy(lines, plane, y, step) <==> MovesBy(lines, plane, y, step) {
      StepsIs(lines, plane, y, step);
    }
    forall r | r in runs ensures IsRun(lines, plane, r) {
    }
    forall y, step | MovesTwice(lines, plane, y, step)
      ensures exists r :: r in runs && r.start <= y < r.start + r.height
    {
      StepsIs(lines, plane, y + 1, step);
      assert Opens(lines, plane, y, step);
      MovesInside(lines, plane, y, step);
      assert InSome(runs, y);
    }
  }

  lemma MovesInside(lines: seq<Line>, plane: nat, y: int, step: int)
    requires plane < 8 && MovesBy(lines, plane, y, step)
    ensures 0 <= y < |lines|
  {
  }
}
