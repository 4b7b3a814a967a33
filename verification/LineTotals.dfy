/** Aggregation of resolved profile entries by source line, and the choice of each line's representative. */
module LineTotals {
  import opened Bits

  /** A resolved profile entry; `frames` stands for its call frames. */
  datatype Resolved = Resolved(address: string, samples: u64, cycles: u64, chain: string, source: string, frames: seq<int>,
                               topFile: string, topLine: int)

  datatype Line = Line(file: string, line: int, cycles: u64, count: u64,
                       address: string, chain: string, source: string, frames: seq<int>, bestCycles: u64, bestSamples: u64)

  predicate IsValid(e: Resolved) {
    e.topLine > 0 && e.topFile != "" && e.topFile != "??"
  }

  function NewLine(e: Resolved): Line {
    Line(e.topFile, e.topLine, 0, 0, "", "", "", [], 0, 0)
  }

  /** Whether an entry takes over a line: the first one, one with more cycles, or with more samples among idle ones. */
  predicate TakesOver(l: Line, e: Resolved) {
    || l.address == ""
    || e.cycles > l.bestCycles
    || (e.cycles == l.bestCycles && e.cycles == 0 && e.samples > l.bestSamples)
  }

  function Merge(l: Line, e: Resolved): Line {
    var sum := l.(cycles := Add64(l.cycles, e.cycles), count := Add64(l.count, e.samples));
    if TakesOver(l, e) then
      sum.(address := e.address, chain := e.chain, source := e.source, frames := e.frames, bestCycles := e.cycles, bestSamples := e.samples)
    else sum
  }

  // ---------- The specification: the valid entries of a line ----------

  function Group(es: seq<Resolved>, file: string, line: int): seq<Resolved> {
    if es == [] then []
    else
      var e := es[|es| - 1];
      Group(es[..|es| - 1], file, line) + if IsValid(e) && e.topFile == file && e.topLine == line then [e] else []
  }

  function SumCycles(es: seq<Resolved>): nat {
    if es == [] then 0 else SumCycles(es[..|es| - 1]) + es[|es| - 1].cycles
  }

  function SumSamples(es: seq<Resolved>): nat {
    if es == [] then 0 else SumSamples(es[..|es| - 1]) + es[|es| - 1].samples
  }

  /** Entry i is the first with the most cycles or, when no entry has any, the first with the most samples. */
  ghost predicate IsBest(g: seq<Resolved>, i: nat) {
    && i < |g|
    && (forall j :: 0 <= j < |g| ==> g[j].cycles <= g[i].cycles)
    && (g[i].cycles > 0 ==> forall j :: 0 <= j < i ==> g[j].cycles < g[i].cycles)
    && (g[i].cycles == 0 ==>
          && (forall j :: 0 <= j < |g| ==> g[j].samples <= g[i].samples)
          && (forall j :: 0 <= j < i ==> g[j].samples < g[i].samples))
  }

  ghost predicate ShowsEntry(l: Line, e: Resolved) {
    && l.address == e.address != "" && l.chain == e.chain && l.source == e.source && l.frames == e.frames
    && l.bestCycles == e.cycles && l.bestSamples == e.samples
  }

  /** A line holds the totals of its entries and shows the best of them. */
  ghost predicate Summarises(l: Line, g: seq<Resolved>) {
    && g != []
    && l.cycles == SumCycles(g) % 0x1_0000_0000_0000_0000 && l.count == SumSamples(g) % 0x1_0000_0000_0000_0000
    && exists i: nat :: i < |g| && IsBest(g, i) && ShowsEntry(l, g[i])
  }

  lemma FirstEntry(e: Resolved)
    requires e.address != ""
    ensures Summarises(Merge(NewLine(e), e), [e])
  {
    assert IsBest([e], 0);
    SumsStep([], e);
    assert [] + [e] == [e];
  }

  lemma BestReplaced(g: seq<Resolved>, i: nat, e: Resolved)
    requires IsBest(g, i)
    requires e.cycles > g[i].cycles || (e.cycles == g[i].cycles == 0 && e.samples > g[i].samples)
    ensures IsBest(g + [e], |g|)
  {
  }

  lemma BestKept(g: seq<Resolved>, i: nat, e: Resolved)
    requires IsBest(g, i)
    requires !(e.cycles > g[i].cycles || (e.cycles == g[i].cycles == 0 && e.samples > g[i].samples))
    ensures IsBest(g + [e], i)
  {
  }

  lemma SumsStep(g: seq<Resolved>, e: Resolved)
    ensures SumCycles(g + [e]) == SumCycles(g) + e.cycles && SumSamples(g + [e]) == SumSamples(g) + e.samples
  {
    assert (g + [e])[..|g|] == g;
  }

  lemma NextEntry(l: Line, g: seq<Resolved>, e: Resolved)
    requires Summarises(l, g) && e.address != ""
    ensures Summarises(Merge(l, e), g + [e])
  {
    hide IsBest, SumCycles, SumSamples, Add64;
    var i: nat :| i < |g| && IsBest(g, i) && ShowsEntry(l, g[i]);
    SumsStep(g, e);
    AddWraps(SumCycles(g), l.cycles, e.cycles);
    AddWraps(SumSamples(g), l.count, e.samples);
    if TakesOver(l, e) {
      BestReplaced(g, i, e);
      assert (g + [e])[|g|] == e;
    } else {
      BestKept(g, i, e);
      assert (g + [e])[i] == g[i];
    }
  }

  // ---------- All lines ----------

  function KeyOf(l: Line): (string, int) {
    (l.file, l.line)
  }

  /** The position of the line of a file and number, or the length. */
  function FindLine(lines: seq<Line>, file: string, line: int): (i: nat)
    ensures i <= |lines|
    ensures i < |lines| ==> KeyOf(lines[i]) == (file, line)
    ensures forall j :: 0 <= j < i ==> KeyOf(lines[j]) != (file, line)
  {
    if lines == [] || KeyOf(lines[0]) == (file, line) then 0 else 1 + FindLine(lines[1..], file, line)
  }

  function AddEntry(lines: seq<Line>, e: Resolved): seq<Line> {
    if !IsValid(e) then lines
    else
      var i := FindLine(lines, e.topFile, e.topLine);
      if i < |lines| then lines[i := Merge(lines[i], e)] else lines + [Merge(NewLine(e), e)]
  }

  function Lines(es: seq<Resolved>): seq<Line> {
    if es == [] then [] else AddEntry(Lines(es[..|es| - 1]), es[|es| - 1])
  }

  ghost predicate DistinctLines(lines: seq<Line>) {
    forall i, j :: 0 <= i < j < |lines| ==> KeyOf(lines[i]) != KeyOf(lines[j])
  }

  ghost predicate HasLine(lines: seq<Line>, e: Resolved) {
    exists i :: 0 <= i < |lines| && KeyOf(lines[i]) == (e.topFile, e.topLine)
  }

  ghost predicate Aggregates(lines: seq<Line>, es: seq<Resolved>) {
    && DistinctLines(lines)
    && (forall i :: 0 <= i < |lines| ==> Summarises(lines[i], Group(es, lines[i].file, lines[i].line)))
    && (forall e :: e in es && IsValid(e) ==> HasLine(lines, e))
  }

  lemma {:induction false} GroupMembers(es: seq<Resolved>, file: string, line: int)
    ensures forall e :: e in Group(es, file, line) <==> e in es && IsValid(e) && e.topFile == file && e.topLine == line
  {
    if es != [] {
      var init, last := es[..|es| - 1], es[|es| - 1];
      GroupMembers(init, file, line);
      assert es == init + [last];
    }
  }

  lemma GroupStep(es: seq<Resolved>, e: Resolved, file: string, line: int)
    ensures Group(es + [e], file, line) ==
            Group(es, file, line) + if IsValid(e) && e.topFile == file && e.topLine == line then [e] else []
  {
    assert (es + [e])[..|es|] == es;
  }

  lemma HasLineKept(lines: seq<Line>, e: Resolved, f: Resolved)
    requires IsValid(e) && (HasLine(lines, f) || f == e)
    ensures HasLine(AddEntry(lines, e), f)
  {
    var lines' := AddEntry(lines, e);
    var i := FindLine(lines, e.topFile, e.topLine);
    if f == e {
      assert KeyOf(lines'[i]) == (e.topFile, e.topLine);
    } else {
      var k :| 0 <= k < |lines| && KeyOf(lines[k]) == (f.topFile, f.topLine);
      assert KeyOf(lines'[k]) == (f.topFile, f.topLine);
    }
  }

  lemma FindsLine(lines: seq<Line>, e: Resolved)
    requires HasLine(lines, e)
    ensures FindLine(lines, e.topFile, e.topLine) < |lines|
  {
  }

  lemma GroupHasLine(lines: seq<Line>, es: seq<Resolved>, file: string, line: int)
    requires Aggregates(lines, es)
    ensures Group(es, file, line) != [] ==> FindLine(lines, file, line) < |lines|
  {
    var g := Group(es, file, line);
    GroupMembers(es, file, line);
    if g != [] {
      assert g[0] in g;
      FindsLine(lines, g[0]);
    }
  }

  lemma LineAfter(lines: seq<Line>, es: seq<Resolved>, e: Resolved, i: nat)
    requires Aggregates(lines, es) && e.address != "" && i < |AddEntry(lines, e)|
    ensures var l := AddEntry(lines, e)[i];
            Summarises(l, Group(es + [e], l.file, l.line))
  {
    hide Summarises, FindLine, Group, HasLine;
    var lines' := AddEntry(lines, e);
    var at := FindLine(lines, e.topFile, e.topLine);
    LineAt(lines, e);
    GroupStep(es, e, lines'[i].file, lines'[i].line);
    if IsValid(e) && i == at {
      if at < |lines| {
        NextEntry(lines[at], Group(es, e.topFile, e.topLine), e);
      } else {
        GroupHasLine(lines, es, e.topFile, e.topLine);
        assert [] + [e] == [e];
        FirstEntry(e);
      }
    } else {
      assert Group(es, lines[i].file, lines[i].line) + [] == Group(es, lines[i].file, lines[i].line);
    }
  }

  lemma LineAt(lines: seq<Line>, e: Resolved)
    ensures var at := FindLine(lines, e.topFile, e.topLine);
            && at <= |lines| && (at < |lines| ==> KeyOf(lines[at]) == (e.topFile, e.topLine))
            && (DistinctLines(lines) ==> forall i :: 0 <= i < |lines| && i != at ==> KeyOf(lines[i]) != (e.topFile, e.topLine))
  {
  }

  lemma AddKeepsDistinct(lines: seq<Line>, e: Resolved)
    requires DistinctLines(lines)
    ensures DistinctLines(AddEntry(lines, e))
  {
  }

  lemma AddKeeps(lines: seq<Line>, es: seq<Resolved>, e: Resolved)
    requires Aggregates(lines, es) && e.address != ""
    ensures Aggregates(AddEntry(lines, e), es + [e])
  {
    hide Summarises, Group, AddEntry, DistinctLines, HasLine;
    var lines' := AddEntry(lines, e);
    AddKeepsDistinct(lines, e);
    forall i | 0 <= i < |lines'|
      ensures Summarises(lines'[i], Group(es + [e], lines'[i].file, lines'[i].line))
    {
      LineAfter(lines, es, e, i);
    }
    forall f | f in es + [e] && IsValid(f)
      ensures HasLine(lines', f)
    {
      if IsValid(e) {
        HasLineKept(lines, e, f);
      } else {
        InvalidSkipped(lines, e);
      }
    }
  }

  lemma InvalidSkipped(lines: seq<Line>, e: Resolved)
    requires !IsValid(e)
    ensures AddEntry(lines, e) == lines
  {
  }

  /** Lines are distinct, every valid entry has one, and each sums and represents exactly its own entries. */
  lemma {:induction false} LinesAggregate(es: seq<Resolved>)
    requires forall e :: e in es ==> e.address != ""
    ensures Aggregates(Lines(es), es)
  {
    if es != [] {
      var init, last := es[..|es| - 1], es[|es| - 1];
      LinesAggregate(init);
      assert es == init + [last];
      AddKeeps(Lines(init), init, last);
    }
  }

  // ---------- Conservation ----------

  function TotalCycles(lines: seq<Line>): nat {
    if lines == [] then 0 else TotalCycles(lines[..|lines| - 1]) + lines[|lines| - 1].cycles
  }

  function TotalCount(lines: seq<Line>): nat {
    if lines == [] then 0 else TotalCount(lines[..|lines| - 1]) + lines[|lines| - 1].count
  }

  function Valid(es: seq<Resolved>): seq<Resolved> {
    if es == [] then []
    else Valid(es[..|es| - 1]) + if IsValid(es[|es| - 1]) then [es[|es| - 1]] else []
  }

  lemma {:induction false} TotalAfterUpdate(lines: seq<Line>, i: nat, l: Line)
    requires i < |lines|
    ensures TotalCycles(lines[i := l]) == TotalCycles(lines) - lines[i].cycles + l.cycles
    ensures TotalCount(lines[i := l]) == TotalCount(lines) - lines[i].count + l.count
  {
    var init := lines[..|lines| - 1];
    if i == |init| {
      assert lines[i := l][..|init|] == init;
    } else {
      assert lines[i := l][..|init|] == init[i := l];
      TotalAfterUpdate(init, i, l);
    }
  }

  lemma TotalAfterAppend(lines: seq<Line>, l: Line)
    ensures TotalCycles(lines + [l]) == TotalCycles(lines) + l.cycles
    ensures TotalCount(lines + [l]) == TotalCount(lines) + l.count
  {
    assert (lines + [l])[..|lines|] == lines;
  }

  lemma WrapKeepsSum(total: int, sum: int, before: u64, added: u64)
    requires total % U64_LIMIT == sum % U64_LIMIT
    ensures (total - before + Add64(before, added)) % U64_LIMIT == (sum + added) % U64_LIMIT
  {
  }

  lemma AddConserves(lines: seq<Line>, e: Resolved)
    requires IsValid(e)
    ensures var lines', at := AddEntry(lines, e), FindLine(lines, e.topFile, e.topLine);
            var l := if at < |lines| then lines[at] else NewLine(e);
            && TotalCycles(lines') == TotalCycles(lines) - l.cycles + Add64(l.cycles, e.cycles)
            && TotalCount(lines') == TotalCount(lines) - l.count + Add64(l.count, e.samples)
  {
    var at := FindLine(lines, e.topFile, e.topLine);
    if at < |lines| {
      TotalAfterUpdate(lines, at, Merge(lines[at], e));
    } else {
      TotalAfterAppend(lines, Merge(NewLine(e), e));
    }
  }

  lemma ConserveStep(lines: seq<Line>, valid: seq<Resolved>, e: Resolved)
    requires IsValid(e)
    requires TotalCycles(lines) % U64_LIMIT == SumCycles(valid) % U64_LIMIT
    requires TotalCount(lines) % U64_LIMIT == SumSamples(valid) % U64_LIMIT
    ensures TotalCycles(AddEntry(lines, e)) % U64_LIMIT == SumCycles(valid + [e]) % U64_LIMIT
    ensures TotalCount(AddEntry(lines, e)) % U64_LIMIT == SumSamples(valid + [e]) % U64_LIMIT
  {
    hide AddEntry, TotalCycles, TotalCount, SumCycles, SumSamples, Add64, FindLine;
    LineAt(lines, e);
    var at := FindLine(lines, e.topFile, e.topLine);
    var l := if at < |lines| then lines[at] else NewLine(e);
    AddConserves(lines, e);
    SumsStep(valid, e);
    WrapKeepsSum(TotalCycles(lines), SumCycles(valid), l.cycles, e.cycles);
    WrapKeepsSum(TotalCount(lines), SumSamples(valid), l.count, e.samples);
  }

  /** No cycle and no sample of a valid entry is lost or counted twice (in 64-bit arithmetic). */
  lemma {:induction false} LinesConserve(es: seq<Resolved>)
    ensures TotalCycles(Lines(es)) % 0x1_0000_0000_0000_0000 == SumCycles(Valid(es)) % 0x1_0000_0000_0000_0000
    ensures TotalCount(Lines(es)) % 0x1_0000_0000_0000_0000 == SumSamples(Valid(es)) % 0x1_0000_0000_0000_0000
  {
    hide AddEntry, TotalCycles, TotalCount, SumCycles, SumSamples;
    if es == [] {
      NoTotals();
    } else {
      var init, e := es[..|es| - 1], es[|es| - 1];
      LinesConserve(init);
      if IsValid(e) {
        ConserveStep(Lines(init), Valid(init), e);
      } else {
        InvalidSkipped(Lines(init), e);
        assert Valid(init) + [] == Valid(init);
      }
    }
  }

  lemma NoTotals()
    ensures TotalCycles([]) == 0 && TotalCount([]) == 0 && SumCycles([]) == 0 && SumSamples([]) == 0
  {
  }

  /** The loop of the report writer: the table of lines grows and is updated in place. */
  method AggregateLines(es: seq<Resolved>) returns (lines: seq<Line>)
    ensures lines == Lines(es)
  {
    lines := [];
    for i := 0 to |es|
      invariant lines == Lines(es[..i])
    {
      var e := es[i];
      assert es[..i + 1][..i] == es[..i];
      if !IsValid(e) {
        continue;
      }
      var at := LookUp(lines, e.topFile, e.topLine);
      if at == |lines| {
        lines := lines + [NewLine(e)];
      }
      lines := lines[at := Merge(lines[at], e)];
    }
    assert es[..|es|] == es;
  }

  method LookUp(lines: seq<Line>, file: string, line: int) returns (i: nat)
    ensures i == FindLine(lines, file, line)
  {
    i := 0;
    assert lines[0..] == lines;
    while i < |lines| && !(lines[i].line == line && lines[i].file == file)
      invariant i <= |lines| && FindLine(lines, file, line) == i + FindLine(lines[i..], file, line)
    {
      assert lines[i..][1..] == lines[i + 1..];
      i := i + 1;
    }
  }

  /** The entries a line sums: those with its file and number, unless the file is unknown or the number is not positive. */
  lemma {:induction false} GroupIs(es: seq<Resolved>, file: string, line: int, e: Resolved)
    ensures e in Group(es, file, line) <==>
            e in es && e.topLine > 0 && e.topFile != "" && e.topFile != "??" && e.topFile == file && e.topLine == line
  {
    if es != [] {
      GroupIs(es[..|es| - 1], file, line, e);
      assert es == es[..|es| - 1] + [es[|es| - 1]];
    }
  }

  /** The entries that count at all. */
  lemma {:induction false} ValidIs(es: seq<Resolved>, e: Resolved)
    ensures e in Valid(es) <==> e in es && e.topLine > 0 && e.topFile != "" && e.topFile != "??"
  {
    if es != [] {
      ValidIs(es[..|es| - 1], e);
      assert es == es[..|es| - 1] + [es[|es| - 1]];
    }
  }

  /** Entry n is one of this file and number, and counts. */
  ghost predicate Enters(es: seq<Resolved>, n: int, file: string, line: int) {
    && 0 <= n < |es| && es[n].topLine > 0 && es[n].topFile != "" && es[n].topFile != "??"
    && es[n].topFile == file && es[n].topLine == line
  }

  /** An entry of line i comes before every entry of line j. */
  ghost predicate EntersFirst(es: seq<Resolved>, l: Line, k: Line) {
    exists n :: Enters(es, n, l.file, l.line) && forall m :: Enters(es, m, k.file, k.line) ==> n < m
  }

  ghost predicate HasEntry(es: seq<Resolved>, l: Line) {
    exists n :: Enters(es, n, l.file, l.line)
  }

  /** Every entry that counts has a line, every line an entry, and lines come in the order of their first entries. */
  ghost predicate InOrder(lines: seq<Line>, es: seq<Resolved>) {
    && (forall n, file, line :: Enters(es, n, file, line) ==> FindLine(lines, file, line) < |lines|)
    && (forall i :: 0 <= i < |lines| ==> HasEntry(es, lines[i]))
    && forall i, j :: 0 <= i < j < |lines| ==> EntersFirst(es, lines[i], lines[j])
  }

  lemma {:induction false} LinesInOrder(es: seq<Resolved>)
    ensures InOrder(Lines(es), es)
  {
    hide InOrder, AddEntry;
    if es == [] {
      NoneInOrder();
    } else {
      var init, last := es[..|es| - 1], es[|es| - 1];
      LinesInOrder(init);
      assert es == init + [last];
      AddKeepsOrder(Lines(init), init, last);
    }
  }

  lemma NoneInOrder()
    ensures InOrder(Lines([]), [])
  {
  }

  lemma EntersMore(es: seq<Resolved>, e: Resolved, n: int, file: string, line: int)
    ensures Enters(es + [e], n, file, line) <==>
            Enters(es, n, file, line) || (n == |es| && IsValid(e) && e.topFile == file && e.topLine == line)
  {
  }

  lemma AddKeepsOrder(lines: seq<Line>, es: seq<Resolved>, e: Resolved)
    requires InOrder(lines, es)
    ensures InOrder(AddEntry(lines, e), es + [e])
  {
    hide Enters, EntersFirst, FindLine;
    var lines', es' := AddEntry(lines, e), es + [e];
    var at := FindLine(lines, e.topFile, e.topLine);
    KeysAfter(lines, e);
    forall n, file, line | Enters(es', n, file, line) ensures FindLine(lines', file, line) < |lines'| {
      EntersMore(es, e, n, file, line);
      FoundAfter(lines, e, file, line);
    }
    forall i | 0 <= i < |lines'| ensures HasEntry(es', lines'[i]) {
      if i < |lines| {
        var n :| Enters(es, n, lines[i].file, lines[i].line);
        EntersMore(es, e, n, lines[i].file, lines[i].line);
      } else {
        EntersMore(es, e, |es|, lines'[i].file, lines'[i].line);
      }
    }
    forall i, j | 0 <= i < j < |lines'| ensures EntersFirst(es', lines'[i], lines'[j]) {
      if j < |lines| {
        FirstKept(es, e, lines[i], lines[j], lines'[i], lines'[j]);
      } else {
        NewIsLast(lines, es, e, lines[i], lines'[i], lines'[j]);
      }
    }
  }

  /** An entry changes no line's file and number, and adds a line at the end only if it counts and there is none. */
  lemma KeysAfter(lines: seq<Line>, e: Resolved)
    ensures var lines', at := AddEntry(lines, e), FindLine(lines, e.topFile, e.topLine);
            && |lines'| == (if IsValid(e) && at == |lines| then |lines| + 1 else |lines|)
            && (forall i :: 0 <= i < |lines| ==> KeyOf(lines'[i]) == KeyOf(lines[i]))
            && (|lines'| > |lines| ==> KeyOf(lines'[|lines|]) == (e.topFile, e.topLine))
  {
  }

  lemma FoundAfter(lines: seq<Line>, e: Resolved, file: string, line: int)
    requires FindLine(lines, file, line) < |lines| || (IsValid(e) && e.topFile == file && e.topLine == line)
    ensures FindLine(AddEntry(lines, e), file, line) < |AddEntry(lines, e)|
  {
    hide AddEntry, FindLine;
    KeysAfter(lines, e);
    var i := FindLine(lines, file, line);
    assert KeyOf(AddEntry(lines, e)[i]) == (file, line);
  }

  lemma FirstKept(es: seq<Resolved>, e: Resolved, l: Line, k: Line, l': Line, k': Line)
    requires EntersFirst(es, l, k) && KeyOf(l') == KeyOf(l) && KeyOf(k') == KeyOf(k)
    ensures EntersFirst(es + [e], l', k')
  {
    hide Enters;
    var n :| Enters(es, n, l.file, l.line) && forall m :: Enters(es, m, k.file, k.line) ==> n < m;
    EntersMore(es, e, n, l.file, l.line);
    assert n < |es| by { EntersBounded(es, n, l.file, l.line); }
    forall m | Enters(es + [e], m, k'.file, k'.line) ensures n < m {
      EntersMore(es, e, m, k.file, k.line);
    }
  }

  lemma EntersBounded(es: seq<Resolved>, n: int, file: string, line: int)
    requires Enters(es, n, file, line)
    ensures 0 <= n < |es|
  {
  }

  lemma NewIsLast(lines: seq<Line>, es: seq<Resolved>, e: Resolved, l: Line, l': Line, k: Line)
    requires l in lines && KeyOf(l') == KeyOf(l) && KeyOf(k) == (e.topFile, e.topLine)
    requires HasEntry(es, l)
    requires forall m :: !Enters(es, m, k.file, k.line)
    ensures EntersFirst(es + [e], l', k)
  {
    hide Enters;
    var n :| Enters(es, n, l.file, l.line);
    EntersMore(es, e, n, l.file, l.line);
    EntersBounded(es, n, l.file, l.line);
    forall m | Enters(es + [e], m, k.file, k.line) ensures n < m {
      EntersMore(es, e, m, k.file, k.line);
    }
  }
}
