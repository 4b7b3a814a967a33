/** The scanner itself: loops that move a cursor over a line and feed the profiler's table. */
module HitScanner {
  import opened ProfileMap
  import opened HitText
  import opened HitEmitter
  import opened Numerals
  import opened Sequences
  import PC = ProfileCounter
  import Sorting
  import T = ProfileTable

  /** The text from the cursor on. */
  function From(s: string, c: nat): string
    requires c <= |s|
  {
    s[c..]
  }

  lemma FromNext(s: string, c: nat)
    requires c < |s|
    ensures From(s, c) != "" && From(s, c)[0] == s[c] && From(s, c)[1..] == From(s, c + 1)
  {
  }

  method SkipAt(p: char -> bool, s: string, c: nat) returns (c': nat)
    requires c <= |s|
    ensures c <= c' <= |s| && From(s, c') == Skip(p, From(s, c))
  {
    hide From;
    c' := c;
    while c' < |s| && p(s[c'])
      invariant c <= c' <= |s| && Skip(p, From(s, c')) == Skip(p, From(s, c))
    {
      FromNext(s, c');
      c' := c' + 1;
    }
    if c' < |s| {
      FromNext(s, c');
    } else {
      FromEnd(s);
    }
  }

  lemma FromEnd(s: string)
    ensures From(s, |s|) == ""
  {
  }

  method SkipOneAt(s: string, c: nat, ch: char) returns (c': nat)
    requires c <= |s|
    ensures c <= c' <= |s| && From(s, c') == SkipOne(From(s, c), ch)
  {
    if c < |s| && s[c] == ch {
      return c + 1;
    }
    return c;
  }

  lemma Between(s: string, c: nat, d: nat)
    requires c <= d <= |s|
    ensures From(s, c)[..|From(s, c)| - |From(s, d)|] == s[c..d]
    ensures |From(s, c)| - |From(s, d)| == d - c
  {
  }

  /** A key from its opening quote on, with its colon. */
  method ConsumeKey(s: string, c: nat) returns (key: string, c': nat)
    requires c < |s| && s[c] == '"'
    ensures c < c' <= |s| && key == KeyText(From(s, c)[1..]) && From(s, c') == AfterKey(From(s, c)[1..])
  {
    hide From, Skip;
    FromNext(s, c);
    var end := SkipAt(Unquoted, s, c + 1);
    Between(s, c + 1, end);
    key := Take(s[c + 1..end], KEY_MAX);
    c' := SkipOneAt(s, end, '"');
    c' := SkipAt(IsSpace, s, c');
    c' := SkipOneAt(s, c', ':');
    c' := SkipAt(IsSpace, s, c');
  }

  method ScanValueAt(key: string, s: string, c: nat, p: Partial) returns (p': Partial, c': nat)
    requires c <= |s|
    ensures c <= c' <= |s| && ScanValue(key, From(s, c), p) == (p', From(s, c'))
  {
    hide From, Skip, ParseHex, ParseDecimal;
    p' := p;
    if key == "pc" {
      c' := c;
      if c < |s| {
        FromNext(s, c);
      } else {
        FromEnd(s);
      }
      if c < |s| && s[c] == '"' {
        var end := SkipAt(Unquoted, s, c + 1);
        Between(s, c, end);
        assert From(s, c)[1..|From(s, c)| - |From(s, end)|] == s[c..end][1..] == s[c + 1..end];
        p' := Partial(true, p.report.(pc := ParseHex(Take(s[c + 1..end], PC_TEXT_MAX))));
        c' := SkipOneAt(s, end, '"');
      }
    } else {
      if key == "samples" {
        p' := p.(report := p.report.(samples := ParseDecimal(From(s, c))));
      } else if key == "cycles" {
        p' := p.(report := p.report.(cycles := ParseDecimal(From(s, c))));
      }
      c' := SkipAt(Unstructured, s, c);
    }
  }

  /** The keys of an object up to its closing brace; every turn takes some of the text. */
  method ScanObjectAt(s: string, c: nat) returns (p: Partial, c': nat)
    requires c <= |s|
    ensures c <= c' <= |s| && ScanObject(From(s, c), NOTHING) == (p, From(s, c'))
  {
    hide From, ScanValue, KeyText, AfterKey, SkipSpace;
    c', p := c, NOTHING;
    while c' < |s| && s[c'] != '}'
      invariant c <= c' <= |s| && ScanObject(From(s, c'), p) == ScanObject(From(s, c), NOTHING)
      decreases |s| - c'
    {
      FromNext(s, c');
      SpaceSkipped(From(s, c'));
      var t := SkipAt(IsSpace, s, c');
      if t == |s| || s[t] == '}' {
        if t < |s| {
          FromNext(s, t);
        } else {
          FromEnd(s);
        }
        c' := t;
        break;
      }
      FromNext(s, t);
      if s[t] != '"' {
        c' := t + 1;
        continue;
      }
      var key, v := ConsumeKey(s, t);
      p, v := ScanValueAt(key, s, v, p);
      SpaceSkipped(From(s, v));
      v := SkipAt(IsSpace, s, v);
      c' := SkipOneAt(s, v, ',');
    }
    if c' < |s| {
      FromNext(s, c');
    } else {
      FromEnd(s);
    }
  }

  lemma SpaceSkipped(s: string)
    ensures SkipSpace(s) == Skip(IsSpace, s)
  {
  }

  lemma InsertMore(m: map<nat, Entry>, rs: seq<Report>, r: Report)
    ensures InsertAll(m, rs + [r]) == Insert(InsertAll(m, rs), r)
  {
    assert (rs + [r])[..|rs|] == rs;
  }

  /** One line of the emulator's stream: its hits go into the table one after the other. */
  method ParseStreamLine(table: T.ProfileTable, line: string)
    requires table.Valid()
    modifies table, table.entries
    ensures table.Valid() && table.model == InsertAll(old(table.model), PacketReports(line))
    ensures table.entries == old(table.entries) || fresh(table.entries)
  {
    hide T.ProfileTable.Valid, ScanHits, Insert;
    if Find(line, STREAM_MARK) == |line| {
      return;
    }
    var hits := line[Find(line, HITS_MARK)..];
    var open := Find(hits, "[");
    if open == |hits| {
      return;
    }
    ScanFrom(table, hits, open + 1);
  }

  /** One turn of the loop over hit objects: past separators, a stray character or an object is taken. */
  method ScanOne(s: string, c: nat) returns (more: bool, p: Partial, c': nat)
    requires c < |s|
    ensures !more ==> ScanHits(From(s, c)) == []
    ensures more ==> c < c' <= |s| && ScanHits(From(s, c)) == Found(p) + ScanHits(From(s, c'))
  {
    hide ScanObject, From, Skip;
    more, p, c' := false, NOTHING, c;
    var t := SkipAt(IsSeparator, s, c);
    if t < |s| {
      FromNext(s, t);
    } else {
      FromEnd(s);
    }
    if t == |s| || s[t] == ']' {
      return;
    }
    more := true;
    if s[t] != '{' {
      c' := t + 1;
      assert [] + ScanHits(From(s, c')) == ScanHits(From(s, c'));
      return;
    }
    p, c' := ScanObjectAt(s, t + 1);
    c' := SkipOneAt(s, c', '}');
  }

  /** The loop over the hit objects. */
  method ScanFrom(table: T.ProfileTable, s: string, start: nat)
    requires table.Valid() && start <= |s|
    modifies table, table.entries
    ensures table.Valid() && table.model == InsertAll(old(table.model), ScanHits(s[start..]))
    ensures table.entries == old(table.entries) || fresh(table.entries)
  {
    hide T.ProfileTable.Valid, Insert, InsertAll, From, ScanHits;
    ghost var all, m, done := ScanHits(From(s, start)), table.model, [];
    var c := start;
    assert From(s, start) == s[start..] by { FromIsSuffix(s, start); }
    InsertNone(m);
    while c < |s|
      invariant start <= c <= |s| && table.Valid()
      invariant table.entries == old(table.entries) || fresh(table.entries)
      invariant done + ScanHits(From(s, c)) == all && table.model == InsertAll(m, done)
      decreases |s| - c
    {
      var more, p, next := ScanOne(s, c);
      if !more {
        break;
      }
      assert done + (Found(p) + ScanHits(From(s, next))) == (done + Found(p)) + ScanHits(From(s, next));
      if p.hasPc {
        InsertMore(m, done, p.report);
        table.Record(p.report);
      } else {
        assert done + [] == done;
      }
      done := done + Found(p);
      c := next;
    }
    Finished(s, c);
    assert done == all;
  }

  lemma FromIsSuffix(s: string, c: nat)
    requires c <= |s|
    ensures From(s, c) == s[c..]
  {
  }

  lemma InsertNone(m: map<nat, Entry>)
    ensures InsertAll(m, []) == m
  {
  }

  lemma Finished(s: string, c: nat)
    requires c <= |s|
    ensures c == |s| ==> ScanHits(From(s, c)) == []
  {
    FromEnd(s);
  }

  /** A packet printed for a list of hit objects adds exactly their reports, in order. */
  method ParsePacket(table: T.ProfileTable, head: string, g: ArrayGaps, hits: seq<Hit>, tail: string, ghost mark: nat)
    requires table.Valid() && AreGaps(g) && forall h :: h in hits ==> IsHit(h)
    requires Occurs(STREAM_MARK, PacketText(head, g, hits, tail), mark)
    requires forall j :: 0 <= j < |head| ==> !Occurs(HITS_MARK, PacketText(head, g, hits, tail), j)
    modifies table, table.entries
    ensures table.Valid() && table.model == InsertAll(old(table.model), ReportsOf(hits))
    ensures table.entries == old(table.entries) || fresh(table.entries)
  {
    hide T.ProfileTable.Valid;
    PacketRead(head, g, hits, tail, mark);
    ParseStreamLine(table, PacketText(head, g, hits, tail));
  }

  /** What an emulator sends goes into the table as it was sent. */
  method ParseEmitted(table: T.ProfileTable, enabled: bool, lead: bool, rs: seq<Report>)
    requires table.Valid()
    modifies table, table.entries
    ensures table.Valid() && table.model == InsertAll(old(table.model), OnBus(rs))
    ensures table.entries == old(table.entries) || fresh(table.entries)
  {
    hide T.ProfileTable.Valid;
    EmittedRead(enabled, lead, rs);
    ParseStreamLine(table, Emitted(enabled, lead, rs));
  }

  /** The reports of a stream of lines, one after the other. */
  function StreamReports(lines: seq<string>): seq<Report> {
    if lines == [] then [] else StreamReports(lines[..|lines| - 1]) + PacketReports(lines[|lines| - 1])
  }

  /** A whole stream: every line adds its reports to what the lines before it left. */
  method ParseStream(table: T.ProfileTable, lines: seq<string>)
    requires table.Valid()
    modifies table, table.entries
    ensures table.Valid() && table.model == InsertAll(old(table.model), StreamReports(lines))
    ensures table.entries == old(table.entries) || fresh(table.entries)
  {
    hide T.ProfileTable.Valid, InsertAll, PacketReports;
    InsertNone(table.model);
    assert lines[..0] == [];
    for i := 0 to |lines|
      invariant table.Valid() && (table.entries == old(table.entries) || fresh(table.entries))
      invariant table.model == InsertAll(old(table.model), StreamReports(lines[..i]))
    {
      assert lines[..i + 1][..i] == lines[..i];
      InsertInTurn(old(table.model), StreamReports(lines[..i]), PacketReports(lines[i]));
      ParseStreamLine(table, lines[i]);
    }
    assert lines[..|lines|] == lines;
  }

  lemma {:induction false} InsertInTurn(m: map<nat, Entry>, a: seq<Report>, b: seq<Report>)
    ensures InsertAll(InsertAll(m, a), b) == InsertAll(m, a + b)
  {
    hide Insert;
    if b == [] {
      assert a + b == a;
    } else {
      var init := b[..|b| - 1];
      assert (a + b)[..|a + b| - 1] == a + init;
      InsertInTurn(m, a, init);
    }
  }

  /** The sample of a pc that a stream of reports calls for. */
  predicate IsTotal(rs: seq<Report>, s: T.Sample) {
    && Samples(rs, s.pc) != [] && Cycles(rs, s.pc) != []
    && s.samples == PC.Total(Samples(rs, s.pc)) && s.cycles == PC.Total(Cycles(rs, s.pc))
  }

  /**
   From the text of a stream to the profile: the pcs of its reports, each once, with the totals of their own
   reports, by samples and then by address.
   */
  method ProfileOf(lines: seq<string>) returns (samples: seq<T.Sample>)
    ensures Sorting.Sorted(T.SampleLe, samples) && Sorting.Apart(T.PcOf, samples)
    ensures forall s: T.Sample :: s in samples <==> IsTotal(StreamReports(lines), s)
    ensures forall i, j :: 0 <= i < j < |samples| ==>
              || samples[i].samples > samples[j].samples
              || (samples[i].samples == samples[j].samples && samples[i].pc < samples[j].pc)
  {
    hide T.ProfileTable.Valid, InsertAll, StreamReports, IsTotal, Sorting.Sorted, Sorting.Apart;
    var table := new T.ProfileTable();
    ParseStream(table, lines);
    samples := table.Snapshot();
    forall s: T.Sample ensures s in samples <==> IsTotal(StreamReports(lines), s) {
      TotalOfPc(StreamReports(lines), s);
    }
  }

  lemma TotalOfPc(rs: seq<Report>, s: T.Sample)
    ensures var m := InsertAll(map[], rs); s.pc + 1 in m && s == T.SampleOf(m[s.pc + 1]) <==> IsTotal(rs, s)
  {
    hide InsertAll, Samples, Cycles, PC.Total;
    InsertAllTotals(rs, s.pc);
  }
}
