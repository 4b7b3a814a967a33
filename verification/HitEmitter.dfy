/** The packets the emulators send: what is in them is what the debugger reads. */
module HitEmitter {
  import opened Bits
  import opened Numerals
  import opened ProfileMap
  import opened HitText
  import opened Optional

  // ---------- The packets of the emulators ----------

  const ADDRESS_LIMIT := 0x100_0000

  function Padded(s: string, width: nat): string
    decreases width - |s|
  {
    if |s| >= width then s else Padded(['0'] + s, width)
  }

  /** %06X */
  function SixDigits(n: u32): string {
    Padded(Numeral(n, 16), 6)
  }

  /** One entry: the address bus has 24 lines. */
  function EntryText(r: Report): string {
    "{\"pc\":\"0x" + SixDigits(r.pc % ADDRESS_LIMIT) + "\",\"samples\":" + Numeral(r.samples, 10)
    + ",\"cycles\":" + Numeral(r.cycles, 10) + "}"
  }

  function EntryTexts(rs: seq<Report>): string {
    if rs == [] then "" else EntryText(rs[0]) + (if |rs| == 1 then "" else "," + EntryTexts(rs[1..]))
  }

  function Heading(enabled: bool): string {
    "{\"stream\":\"profiler\",\"enabled\":" + (if enabled then "\"enabled\"," else "\"disabled\",")
  }

  /** The Amiga emulator puts a comma in front when the first entries did not fit. */
  function Emitted(enabled: bool, lead: bool, rs: seq<Report>): string {
    Opening(enabled) + (Entries(lead, rs) + "]}")
  }

  function Opening(enabled: bool): string {
    Heading(enabled) + "\"hits\":["
  }

  function Entries(lead: bool, rs: seq<Report>): string {
    if lead && rs != [] then "," + EntryTexts(rs) else EntryTexts(rs)
  }

  /** The beginning of a packet, letter by letter. */
  lemma OpeningIs(enabled: bool)
    ensures Opening(enabled) ==
            if enabled then "{\"stream\":\"profiler\",\"enabled\":\"enabled\",\"hits\":["
            else "{\"stream\":\"profiler\",\"enabled\":\"disabled\",\"hits\":["
  {
    assert Heading(enabled) ==
           if enabled then "{\"stream\":\"profiler\",\"enabled\":\"enabled\","
           else "{\"stream\":\"profiler\",\"enabled\":\"disabled\",";
  }

  function OnBus(rs: seq<Report>): seq<Report> {
    seq(|rs|, i requires 0 <= i < |rs| => rs[i].(pc := rs[i].pc % ADDRESS_LIMIT))
  }

  // ---------- Six digits ----------

  lemma {:induction false} LeadingZero(s: string)
    ensures HexNumber(['0'] + s) == HexNumber(s)
  {
    if s == "" {
      assert ['0'] + s == "0" && "0"[..0] == "";
      assert HexNumber("0"[..0]) == 0;
    } else {
      assert (['0'] + s)[..|s|] == ['0'] + s[..|s| - 1];
      LeadingZero(s[..|s| - 1]);
    }
  }

  lemma {:induction false} PaddedIsNumber(s: string, width: nat)
    requires forall i :: 0 <= i < |s| ==> DigitValue(s[i]) < 16
    ensures var t := Padded(s, width);
            && HexNumber(t) == HexNumber(s) && |t| == (if |s| < width then width else |s|)
            && forall i :: 0 <= i < |t| ==> DigitValue(t[i]) < 16
    decreases width - |s|
  {
    hide HexNumber;
    if |s| < width {
      LeadingZero(s);
      forall i | 0 <= i < |['0'] + s| ensures DigitValue((['0'] + s)[i]) < 16 {
        if i > 0 {
          assert (['0'] + s)[i] == s[i - 1];
        }
      }
      PaddedIsNumber(['0'] + s, width);
    }
  }

  lemma {:induction false} NumeralIsNumber(n: nat)
    ensures HexNumber(Numeral(n, 16)) == n
  {
    hide DigitChar;
    var d := [DigitChar(n % 16)];
    DigitCharValue(n % 16);
    if n < 16 {
      assert d[..0] == "";
      assert HexNumber(d[..0]) == 0;
    } else {
      assert (Numeral(n / 16, 16) + d)[..|Numeral(n / 16, 16)|] == Numeral(n / 16, 16);
      NumeralIsNumber(n / 16);
    }
  }

  /** The printed digits of a 32-bit number are at least six and read back as the number. */
  lemma SixDigitsRead(n: u32)
    ensures IsHex(SixDigits(n)) && PcOf(SixDigits(n)) == n
    ensures |SixDigits(n)| >= 6 && (n < ADDRESS_LIMIT ==> |SixDigits(n)| == 6)
  {
    hide HexNumber, Padded, Numeral;
    assert Power(16, 6) == ADDRESS_LIMIT && Power(16, 8) == U32_LIMIT;
    NumeralIsNumber(n);
    NumeralLength(n, 16, 8);
    if n < ADDRESS_LIMIT {
      NumeralLength(n, 16, 6);
    }
    PaddedIsNumber(Numeral(n, 16), 6);
  }

  const ENTRY_CAP := 96

  /** An entry always fits the emulator's buffer, with a comma in front of it. */
  lemma EntryFits(r: Report)
    ensures 1 + |EntryText(r)| < ENTRY_CAP
  {
    hide Numeral, SixDigits;
    assert Power(10, 4) == 10000;
    assert Power(10, 8) == 1_0000_0000;
    assert Power(10, 12) == 1_0000_0000_0000;
    assert Power(10, 16) == 1_0000_0000_0000_0000;
    assert Power(10, 20) == 1_0000_0000_0000_0000_0000;
    NumeralLength(r.samples, 10, 20);
    NumeralLength(r.cycles, 10, 20);
    SixDigitsRead(r.pc % ADDRESS_LIMIT);
  }

  // ---------- An emitted packet is read as what was sent ----------

  function Tight(f: Field): Spaced {
    Spaced(f, "", "", "", "")
  }

  function CountFields(r: Report): seq<Spaced> {
    [Tight(SampleCount(r.samples)), Tight(CycleCount(r.cycles))]
  }

  /** The hit object an entry prints. */
  function HitOf(r: Report): Hit {
    Hit("", "", [Tight(Pc(SixDigits(r.pc % ADDRESS_LIMIT)))] + CountFields(r), "")
  }

  function HitsOf(rs: seq<Report>): (hits: seq<Hit>)
    ensures |hits| == |rs| && forall i :: 0 <= i < |rs| ==> hits[i] == HitOf(rs[i])
  {
    seq(|rs|, i requires 0 <= i < |rs| => HitOf(rs[i]))
  }

  lemma TightPc(digits: string, rest: string)
    ensures KeyedTo(Tight(Pc(digits)), rest) == "\"pc\":\"0x" + (digits + ("\"" + rest))
  {
    var value := ['"'] + (("0x" + digits) + (['"'] + rest));
    assert "" + rest == rest && "" + value == value && "" + ([':'] + value) == [':'] + value;
    assert ['"'] + ("pc" + (['"'] + ([':'] + value))) == "\"pc\":" + value;
    assert "\"pc\":" + value == "\"pc\":\"0x" + (digits + ("\"" + rest));
  }

  lemma TightCount(f: Field, rest: string)
    requires f.SampleCount? || f.CycleCount?
    ensures KeyedTo(Tight(f), rest) == "\"" + (KeyOf(f) + ("\":" + (Numeral(f.n, 10) + rest)))
  {
    hide Numeral, KeyOf;
    var value := Numeral(f.n, 10) + rest;
    assert "" + rest == rest && "" + value == value && "" + ([':'] + value) == [':'] + value;
    assert ['"'] + ([':'] + value) == "\":" + value;
  }

  lemma TightCounts(r: Report, rest: string)
    ensures FieldsTo(CountFields(r), rest) ==
            "\"samples\":" + (Numeral(r.samples, 10) + (",\"cycles\":" + (Numeral(r.cycles, 10) + rest)))
  {
    hide Numeral, KeyedTo;
    var s, c := Tight(SampleCount(r.samples)), Tight(CycleCount(r.cycles));
    var more := "\"" + ("cycles" + ("\":" + (Numeral(r.cycles, 10) + rest)));
    TightCount(SampleCount(r.samples), [','] + more);
    TightCount(CycleCount(r.cycles), rest);
    TwoFields(s, c, rest);
    assert "" + more == more;
    CountPieces(Numeral(r.samples, 10), Numeral(r.cycles, 10) + rest);
  }

  lemma TwoFields(f: Spaced, g: Spaced, rest: string)
    ensures FieldsTo([f, g], rest) == f.before + KeyedTo(f, [','] + (g.before + KeyedTo(g, rest)))
  {
    hide KeyedTo;
    assert [f, g][1..] == [g];
  }

  lemma CountPieces(samples: string, rest: string)
    ensures "" + ("\"" + ("samples" + ("\":" + (samples + ([','] + ("\"" + ("cycles" + ("\":" + rest)))))))) ==
            "\"samples\":" + (samples + (",\"cycles\":" + rest))
  {
    assert [','] + ("\"" + ("cycles" + ("\":" + rest))) == ",\"cycles\":" + rest;
    assert "\"" + ("samples" + ("\":" + (samples + (",\"cycles\":" + rest)))) ==
           "\"samples\":" + (samples + (",\"cycles\":" + rest));
  }

  lemma EntryIsHit(r: Report, rest: string)
    ensures HitTo(HitOf(r), rest) == EntryText(r) + rest
  {
    hide SixDigits, Numeral, FieldsTo, KeyedTo;
    var digits := SixDigits(r.pc % ADDRESS_LIMIT);
    var pc := Tight(Pc(digits));
    var close := ['}'] + ("" + rest);
    EntryFields(pc, r, close);
    TightCounts(r, close);
    TightPc(digits, [','] + FieldsTo(CountFields(r), close));
    EntryPieces(digits, Numeral(r.samples, 10), Numeral(r.cycles, 10), rest);
  }

  lemma EntryFields(pc: Spaced, r: Report, rest: string)
    requires pc.before == ""
    ensures FieldsTo([pc] + CountFields(r), rest) == KeyedTo(pc, [','] + FieldsTo(CountFields(r), rest))
  {
    hide KeyedTo;
    assert ([pc] + CountFields(r))[1..] == CountFields(r);
  }

  lemma EntryPieces(digits: string, samples: string, cycles: string, rest: string)
    ensures "" + (['{'] + ("" + ("\"pc\":\"0x" + (digits + ("\"" + ([','] + ("\"samples\":"
              + (samples + (",\"cycles\":" + (cycles + (['}'] + ("" + rest)))))))))))) ==
            ("{\"pc\":\"0x" + digits + "\",\"samples\":" + samples + ",\"cycles\":" + cycles + "}") + rest
  {
  }

  lemma {:induction false} EntriesAreHits(rs: seq<Report>)
    ensures EntryTexts(rs) + "]}" == HitsTo(HitsOf(rs), "}")
  {
    hide HitOf, HitTo, EntryText;
    if rs == [] {
      assert "" + "]}" == [']'] + "}";
    } else {
      var more := if |rs| == 1 then [']'] + "}" else [','] + HitsTo(HitsOf(rs[1..]), "}");
      assert HitsOf(rs)[1..] == HitsOf(rs[1..]);
      EntryIsHit(rs[0], more);
      if |rs| == 1 {
        assert EntryText(rs[0]) + "" + "]}" == EntryText(rs[0]) + more;
      } else {
        EntriesAreHits(rs[1..]);
        assert EntryText(rs[0]) + ("," + EntryTexts(rs[1..])) + "]}" ==
               EntryText(rs[0]) + ([','] + (EntryTexts(rs[1..]) + "]}"));
      }
    }
  }

  const NO_GAPS := ArrayGaps("", "", "")

  lemma EmittedIsPacket(enabled: bool, rs: seq<Report>)
    ensures Emitted(enabled, false, rs) == PacketText(Heading(enabled), NO_GAPS, HitsOf(rs), "}")
  {
    hide EntryTexts, Heading, HitsTo, ArrayText;
    EntriesAreHits(rs);
    EmittedIsArray(enabled, false, rs);
  }

  lemma EmittedIsArray(enabled: bool, lead: bool, rs: seq<Report>)
    ensures Emitted(enabled, lead, rs) == ArrayText(Heading(enabled), NO_GAPS, Entries(lead, rs) + "]}")
  {
    hide Entries, Heading;
    var body := Entries(lead, rs) + "]}";
    assert "\"hits\":[" + body == HITS_MARK + ("" + ([':'] + ("" + (['['] + ("" + body)))));
    assert (Heading(enabled) + "\"hits\":[") + body == Heading(enabled) + ("\"hits\":[" + body);
  }

  /** The heading names the stream, and no quote of it opens the key of the hits. */
  lemma HeadingIsClear(enabled: bool, body: string)
    requires body != "" && body[0] == '"'
    ensures Occurs(STREAM_MARK, Heading(enabled) + body, 1)
    ensures forall j :: 0 <= j < |Heading(enabled)| ==> !Occurs(HITS_MARK, Heading(enabled) + body, j)
  {
    hide Heading;
    var line := Heading(enabled) + body;
    HeadingStarts(enabled);
    HeadingHasNoH(enabled);
    assert line[1..] == STREAM_MARK + (Heading(enabled)[1 + |STREAM_MARK|..] + body);
    forall j | 0 <= j < |Heading(enabled)| ensures !Occurs(HITS_MARK, line, j) {
      NoMark(line[j..]);
    }
  }

  lemma NoMark(s: string)
    requires |s| > 1 && s[1] != 'h'
    ensures !(HITS_MARK <= s)
  {
  }

  lemma HeadingStarts(enabled: bool)
    ensures |Heading(enabled)| > |STREAM_MARK| + 1
    ensures Heading(enabled)[1..] == STREAM_MARK + Heading(enabled)[1 + |STREAM_MARK|..]
  {
  }

  lemma HeadingHasNoH(enabled: bool)
    ensures 'h' !in Heading(enabled)
  {
  }

  lemma {:induction false} HitsSay(rs: seq<Report>)
    ensures ReportsOf(HitsOf(rs)) == OnBus(rs)
  {
    hide IsHit, SixDigits, HitOf, ApplyAll;
    if rs != [] {
      HitSays(rs[0]);
      HitsSay(rs[1..]);
      assert HitsOf(rs)[1..] == HitsOf(rs[1..]);
      assert OnBus(rs) == [rs[0].(pc := rs[0].pc % ADDRESS_LIMIT)] + OnBus(rs[1..]);
    }
  }

  lemma HitsAreHits(rs: seq<Report>)
    ensures forall h :: h in HitsOf(rs) ==> IsHit(h)
  {
    hide IsHit, HitOf;
    forall i | 0 <= i < |rs| ensures IsHit(HitOf(rs[i])) {
      HitSays(rs[i]);
    }
  }

  lemma HitSays(r: Report)
    ensures IsHit(HitOf(r)) && ApplyAll(NOTHING, HitOf(r).fields) == Partial(true, r.(pc := r.pc % ADDRESS_LIMIT))
  {
    hide SixDigits, PcOf, IsHex;
    var fs := HitOf(r).fields;
    SixDigitsRead(r.pc % ADDRESS_LIMIT);
    assert fs == [fs[0], fs[1], fs[2]] && fs[1..] == [fs[1], fs[2]] && fs[1..][1..] == [fs[2]];
    assert ApplyAll(Apply(Apply(NOTHING, fs[0].field), fs[1].field), [fs[2]]) == Partial(true, r.(pc := r.pc % ADDRESS_LIMIT));
  }

  lemma EntriesRead(lead: bool, rs: seq<Report>)
    ensures ScanHits(Entries(lead, rs) + "]}") == OnBus(rs)
  {
    hide EntryTexts, HitsTo, IsHit, ReportsOf, OnBus, ScanHits;
    var body := EntryTexts(rs) + "]}";
    EntriesAreHits(rs);
    HitsSay(rs);
    HitsAreHits(rs);
    ObjectsRead(HitsOf(rs), "}");
    if lead && rs != [] {
      assert ("," + EntryTexts(rs)) + "]}" == [','] + body && ([','] + body)[1..] == body;
      HitsAfterGap("", [','] + body);
    }
  }

  /** Whatever hits an emulator sends, with any counts, the debugger reads exactly them, in order. */
  lemma EmittedRead(enabled: bool, lead: bool, rs: seq<Report>)
    ensures PacketReports(Emitted(enabled, lead, rs)) == OnBus(rs)
  {
    hide Heading, PacketReports, Entries, OnBus, Occurs, ScanHits, Emitted;
    var body := Entries(lead, rs) + "]}";
    EmittedIsArray(enabled, lead, rs);
    HeadingIsClear(enabled, HITS_MARK + ("" + ([':'] + ("" + (['['] + ("" + body))))));
    EntriesRead(lead, rs);
    ArrayFound(Heading(enabled), NO_GAPS, body, 1);
  }

  // ---------- The Amiga emulator's loop ----------

  /** The hits with something to say. */
  function Counted(rs: seq<Report>): (r: seq<Report>)
    ensures forall x :: x in r ==> x.samples != 0 || x.cycles != 0
  {
    if rs == [] then []
    else
      var last := rs[|rs| - 1];
      Counted(rs[..|rs| - 1]) + if last.samples == 0 && last.cycles == 0 then [] else [last]
  }

  /** Hit by hit, those without samples and cycles are left out. */
  lemma {:induction false} CountedIs(rs: seq<Report>, x: Report, ss: seq<Report>)
    ensures Counted([]) == [] && Counted([x]) == if x.samples == 0 && x.cycles == 0 then [] else [x]
    ensures Counted(rs + ss) == Counted(rs) + Counted(ss)
  {
    assert [x][..0] == [];
    if ss == [] {
      assert rs + ss == rs;
    } else {
      assert (rs + ss)[..|rs + ss| - 1] == rs + ss[..|ss| - 1];
      CountedIs(rs, x, ss[..|ss| - 1]);
    }
  }

  /** all is a and b put together, each in its own order. */
  ghost predicate IsMerge(all: seq<Report>, a: seq<Report>, b: seq<Report>) {
    if all == [] then a == [] && b == []
    else
      var last := all[|all| - 1];
      || (a != [] && a[|a| - 1] == last && IsMerge(all[..|all| - 1], a[..|a| - 1], b))
      || (b != [] && b[|b| - 1] == last && IsMerge(all[..|all| - 1], a, b[..|b| - 1]))
  }

  lemma MergeMore(all: seq<Report>, a: seq<Report>, b: seq<Report>, r: Report)
    requires IsMerge(all, a, b)
    ensures IsMerge(all + [r], a + [r], b) && IsMerge(all + [r], a, b + [r])
  {
    assert (all + [r])[..|all|] == all && (a + [r])[..|a|] == a && (b + [r])[..|b|] == b;
  }

  lemma {:induction false} MergeNone(rs: seq<Report>)
    ensures IsMerge(rs, [], rs)
  {
    if rs != [] {
      MergeNone(rs[..|rs| - 1]);
    }
  }

  lemma CountedMore(rs: seq<Report>, i: nat)
    requires i < |rs|
    ensures Counted(rs[..i + 1]) ==
            Counted(rs[..i]) + if rs[i].samples == 0 && rs[i].cycles == 0 then [] else [rs[i]]
  {
    assert rs[..i + 1][..i] == rs[..i];
  }

  lemma {:induction false} EntryTextsMore(rs: seq<Report>, r: Report)
    ensures EntryTexts(rs + [r]) == EntryTexts(rs) + ((if rs == [] then "" else ",") + EntryText(r))
  {
    hide EntryText;
    if rs == [] {
      assert [] + [r] == [r];
    } else {
      assert (rs + [r])[1..] == rs[1..] + [r];
      EntryTextsMore(rs[1..], r);
    }
  }

  /** One more entry; only the very first of the loop goes without a comma. */
  lemma EntriesMore(opening: string, lead: bool, rs: seq<Report>, r: Report, first: bool)
    requires first ==> rs == [] && !lead
    ensures var lead' := if rs == [] then !first else lead;
            (opening + Entries(lead, rs)) + ((if first then "" else ",") + EntryText(r)) == opening + Entries(lead', rs + [r])
  {
    hide EntryText, EntryTexts;
    var lead' := if rs == [] then !first else lead;
    var mark := if first then "" else ",";
    EntryTextsMore(rs, r);
    NoEntries();
    assert Entries(lead', rs + [r]) == Entries(lead, rs) + (mark + EntryText(r)) by {
      EntriesMark(EntryTexts(rs), mark, EntryText(r));
    }
    Regroup(opening, Entries(lead, rs), mark + EntryText(r));
  }

  lemma EntriesMark(texts: string, mark: string, entry: string)
    ensures "," + (texts + ("," + entry)) == ("," + texts) + ("," + entry)
    ensures "" + ("" + entry) == "" + entry == entry && "," + entry == "" + ("," + entry)
    ensures "," + ("" + entry) == "," + entry
    ensures "," + ("" + ("" + entry)) == "" + ("," + entry)
  {
  }

  lemma Regroup(a: string, b: string, c: string)
    ensures (a + b) + c == a + (b + c)
  {
  }

  lemma NoEntries()
    ensures EntryTexts([]) == ""
  {
  }

  /**
   The next packet of the stream, if there is one that fits, and the hits kept back for later. No hit is lost,
   none is sent twice, none is kept back that would still fit, and the debugger reads exactly those that were sent.
   */
  method NextPacket(enabled: bool, dirty: seq<Report>, cap: nat)
    returns (packet: Option<string>, kept: seq<Report>, ghost sent: seq<Report>)
    ensures IsMerge(Counted(dirty), sent, Counted(kept))
    ensures packet.Some? ==> |packet.value| < cap && PacketReports(packet.value) == OnBus(sent)
    ensures packet.Some? ==> packet.value == Emitted(enabled, false, sent) || packet.value == Emitted(enabled, true, sent)
    ensures packet.None? ==> sent == []
    ensures packet.None? <==> dirty == [] || |Opening(enabled)| + 2 >= cap
    ensures packet.Some? ==> forall r :: r in kept ==> |packet.value| + 1 + |EntryText(r)| >= cap
  {
    hide Opening, Entries, EntryText, Counted, IsMerge, PacketReports, OnBus;
    packet, kept, sent := None, dirty, [];
    MergeNone(Counted(dirty));
    var out := Opening(enabled);
    if dirty == [] || |out| >= cap {
      return;
    }
    kept := [];
    var first := true;
    ghost var lead := false;
    NothingCounted(enabled, dirty);
    for i := 0 to |dirty|
      invariant out == Opening(enabled) + Entries(lead, sent) && (first ==> sent == [] && !lead)
      invariant sent == [] ==> out == Opening(enabled)
      invariant IsMerge(Counted(dirty[..i]), sent, kept) && Counted(kept) == kept
      invariant |out| < cap && (sent != [] ==> |out| + 2 < cap)
      invariant forall r :: r in kept ==> |out| + 3 + |EntryText(r)| >= cap
    {
      var r := dirty[i];
      CountedMore(dirty, i);
      if r.samples == 0 && r.cycles == 0 {
        assert Counted(dirty[..i]) + [] == Counted(dirty[..i]);
        continue;
      }
      MergeMore(Counted(dirty[..i]), sent, kept, r);
      EntriesMore(Opening(enabled), lead, sent, r, first);
      var entry := (if first then "" else ",") + EntryText(r);
      if |out| + |entry| + 2 >= cap {
        KeptMore(kept, r);
        kept := kept + [r];
        if sent == [] {
          NothingSent(first, lead);
          lead := false;
        }
      } else {
        out := out + entry;
        lead := if sent == [] then !first else lead;
        sent := sent + [r];
      }
      first := false;
    }
    assert dirty[..|dirty|] == dirty;
    if |out| + 2 >= cap {
      return;
    }
    EmittedRead(enabled, lead, sent);
    packet := Some(out + "]}");
    assert (Opening(enabled) + Entries(lead, sent)) + "]}" == Opening(enabled) + (Entries(lead, sent) + "]}");
  }

  lemma NothingCounted(enabled: bool, rs: seq<Report>)
    ensures Counted(rs[..0]) == [] && IsMerge([], [], []) && Counted([]) == []
    ensures Opening(enabled) + Entries(false, []) == Opening(enabled)
  {
    hide Opening;
    NoEntries();
  }

  lemma KeptMore(kept: seq<Report>, r: Report)
    requires Counted(kept) == kept && (r.samples != 0 || r.cycles != 0)
    ensures Counted(kept + [r]) == kept + [r]
  {
    assert (kept + [r])[..|kept|] == kept;
  }

  lemma NothingSent(first: bool, lead: bool)
    ensures Entries(lead, []) == Entries(false, [])
  {
  }
}
