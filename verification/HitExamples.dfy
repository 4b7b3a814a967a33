/** Four arrays of hits with the name `a,b` in them: what the scanner reads in each, and what was printed. */
module HitExamples {
  import opened HitEmitter
  import opened HitLosses
  import opened HitStrings
  import opened HitText
  import opened ProfileMap

  const NAME := Tight(Other("n", Quoted("a,b")))
  const PC16 := Tight(Pc("10"))
  const PC32 := Tight(Pc("20"))
  const FIVE := Tight(SampleCount(5))

  function Bare(fs: seq<Spaced>): Hit {
    Hit("", "", fs, "")
  }

  // ---------- Their texts ----------

  lemma NameText(rest: string)
    ensures KeyedTo(NAME, rest) == "\"n\":\"a,b\"" + rest
  {
    assert "" + rest == rest;
    assert "\"" + ("a,b" + "\"") == "\"a,b\"";
    assert "" + ([':'] + ("" + ("\"a,b\"" + rest))) == ":\"a,b\"" + rest;
    assert ['"'] + ("n" + (['"'] + (":\"a,b\"" + rest))) == "\"n\":\"a,b\"" + rest;
  }

  lemma Pc16Text(rest: string)
    ensures KeyedTo(PC16, rest) == "\"pc\":\"0x10\"" + rest
  {
    TightPc("10", rest);
  }

  lemma Pc32Text(rest: string)
    ensures KeyedTo(PC32, rest) == "\"pc\":\"0x20\"" + rest
  {
    TightPc("20", rest);
  }

  lemma FiveText(rest: string)
    ensures KeyedTo(FIVE, rest) == "\"samples\":5" + rest
  {
    TightCount(SampleCount(5), rest);
    assert Numerals.Numeral(5, 10) == "5";
    assert "\"" + ("samples" + ("\":" + ("5" + rest))) == "\"samples\":5" + rest;
  }

  lemma LastField(f: Spaced, rest: string)
    requires f.before == ""
    ensures FieldsTo([f], rest) == KeyedTo(f, rest)
  {
    hide KeyedTo;
    assert "" + KeyedTo(f, rest) == KeyedTo(f, rest);
  }

  lemma FirstField(f: Spaced, fs: seq<Spaced>, rest: string)
    requires f.before == "" && fs != []
    ensures FieldsTo([f] + fs, rest) == KeyedTo(f, "," + FieldsTo(fs, rest))
  {
    hide KeyedTo;
    assert ([f] + fs)[1..] == fs;
  }

  lemma BareText(fs: seq<Spaced>, rest: string)
    ensures HitTo(Bare(fs), rest) == "{" + FieldsTo(fs, "}" + rest)
  {
    hide FieldsTo;
    assert "" + rest == rest;
  }

  const COMMA_FIRST := "{\"n\":\"a,b\",\"pc\":\"0x10\"}]"
  const COMMA_BETWEEN := "{\"pc\":\"0x10\",\"n\":\"a,b\",\"samples\":5}]"
  const COMMA_LAST := "{\"pc\":\"0x10\",\"samples\":5,\"n\":\"a,b\"}]"
  const COMMA_BEFORE_NEXT := "{\"pc\":\"0x10\",\"n\":\"a,b\"},{\"pc\":\"0x20\"}]"

  lemma FirstPieces()
    ensures "{" + ("\"n\":\"a,b\"" + ("," + ("\"pc\":\"0x10\"" + "}]"))) == COMMA_FIRST
  {
  }

  lemma BetweenPieces()
    ensures "{" + ("\"pc\":\"0x10\"" + ("," + ("\"n\":\"a,b\"" + ("," + ("\"samples\":5" + "}]"))))) == COMMA_BETWEEN
  {
  }

  lemma LastPieces()
    ensures "{" + ("\"pc\":\"0x10\"" + ("," + ("\"samples\":5" + ("," + ("\"n\":\"a,b\"" + "}]"))))) == COMMA_LAST
  {
  }

  lemma BeforeNextPieces()
    ensures "{" + ("\"pc\":\"0x10\"" + ("," + ("\"n\":\"a,b\"" + ("}" + ("," + ("{" + ("\"pc\":\"0x20\"" + "}]"))))))) ==
            COMMA_BEFORE_NEXT
  {
  }

  lemma OneBare(fs: seq<Spaced>)
    ensures HitsTo([Bare(fs)], "") == "{" + FieldsTo(fs, "}]")
  {
    hide FieldsTo, HitTo;
    OneHitText(Bare(fs), "");
    assert [']'] + "" == "]" && "}" + "]" == "}]";
    BareText(fs, "]");
  }

  lemma FirstText()
    ensures HitsTo([Bare([NAME, PC16])], "") == COMMA_FIRST
  {
    hide KeyedTo, HitsTo, NAME, PC16, COMMA_FIRST;
    Untouched();
    OneBare([NAME, PC16]);
    LastField(PC16, "}]");
    FirstField(NAME, [PC16], "}]");
    assert [NAME] + [PC16] == [NAME, PC16];
    Pc16Text("}]");
    NameText("," + FieldsTo([PC16], "}]"));
    FirstPieces();
  }

  lemma BetweenText()
    ensures HitsTo([Bare([PC16, NAME, FIVE])], "") == COMMA_BETWEEN
  {
    hide KeyedTo, HitsTo, NAME, PC16, FIVE, COMMA_BETWEEN;
    Untouched();
    OneBare([PC16, NAME, FIVE]);
    LastField(FIVE, "}]");
    FirstField(NAME, [FIVE], "}]");
    FirstField(PC16, [NAME, FIVE], "}]");
    assert [NAME] + [FIVE] == [NAME, FIVE] && [PC16] + [NAME, FIVE] == [PC16, NAME, FIVE];
    FiveText("}]");
    NameText("," + FieldsTo([FIVE], "}]"));
    Pc16Text("," + FieldsTo([NAME, FIVE], "}]"));
    BetweenPieces();
  }

  lemma LastText()
    ensures HitsTo([Bare([PC16, FIVE, NAME])], "") == COMMA_LAST
  {
    hide KeyedTo, HitsTo, NAME, PC16, FIVE, COMMA_LAST;
    Untouched();
    OneBare([PC16, FIVE, NAME]);
    LastField(NAME, "}]");
    FirstField(FIVE, [NAME], "}]");
    FirstField(PC16, [FIVE, NAME], "}]");
    assert [FIVE] + [NAME] == [FIVE, NAME] && [PC16] + [FIVE, NAME] == [PC16, FIVE, NAME];
    NameText("}]");
    FiveText("," + FieldsTo([NAME], "}]"));
    Pc16Text("," + FieldsTo([FIVE, NAME], "}]"));
    LastPieces();
  }

  lemma BeforeNextText()
    ensures HitsTo([Bare([PC16, NAME]), Bare([PC32])], "") == COMMA_BEFORE_NEXT
  {
    hide KeyedTo, HitTo, NAME, PC16, PC32, COMMA_BEFORE_NEXT;
    Untouched();
    var h, next := Bare([PC16, NAME]), Bare([PC32]);
    assert [h, next][1..] == [next];
    OneBare([PC32]);
    LastField(PC32, "}]");
    Pc32Text("}]");
    var more := "," + HitsTo([next], "");
    BareText([PC16, NAME], more);
    LastField(NAME, "}" + more);
    FirstField(PC16, [NAME], "}" + more);
    assert [PC16] + [NAME] == [PC16, NAME];
    NameText("}" + more);
    Pc16Text("," + FieldsTo([NAME], "}" + more));
    BeforeNextPieces();
  }

  // ---------- What is read ----------

  lemma Untouched()
    ensures NAME.before == "" && PC16.before == "" && PC32.before == "" && FIVE.before == ""
  {
  }

  lemma AreExamples()
    ensures IsItem(NAME.field) && IsItem(PC16.field) && IsItem(PC32.field) && IsItem(FIVE.field)
    ensures HasGaps(NAME) && HasGaps(PC16) && HasGaps(PC32) && HasGaps(FIVE)
    ensures Spills(NAME.field) && !Breaks(PC16.field) && !Breaks(PC32.field) && !Breaks(FIVE.field)
  {
    QuotedIsString("a,b");
    assert "a,b"[1] == ',';
    assert IsHex("10") && IsHex("20");
    assert IsName("n");
  }

  lemma BareIsHit(fs: seq<Spaced>)
    requires forall i :: 0 <= i < |fs| ==> IsItem(fs[i].field) && HasGaps(fs[i])
    ensures IsItemHit(Bare(fs))
  {
  }

  lemma Applied()
    ensures forall p :: Apply(p, NAME.field) == p
    ensures Apply(NOTHING, PC16.field) == Partial(true, Report(16, 0, 0))
    ensures Apply(NOTHING, PC32.field) == Partial(true, Report(32, 0, 0))
    ensures Apply(Partial(true, Report(16, 0, 0)), FIVE.field) == Partial(true, Report(16, 5, 0))
  {
    assert "10"[..1] == "1" && "20"[..1] == "2" && "1"[..0] == "" && "2"[..0] == "";
    assert HexNumber("") == 0;
    assert HexNumber("1") == 1 && HexNumber("2") == 2;
    assert HexNumber("10") == 16 && HexNumber("20") == 32;
  }

  lemma {:induction false} ApplyFirst(p: Partial, f: Spaced, fs: seq<Spaced>)
    ensures ApplyAll(p, [f] + fs) == ApplyAll(Apply(p, f.field), fs)
    ensures ApplyAll(p, []) == p
  {
    hide Apply;
    assert ([f] + fs)[1..] == fs;
  }

  lemma SaidByExamples()
    ensures Found(ApplyAll(NOTHING, [])) == []
    ensures Found(ApplyAll(NOTHING, [PC16])) == [Report(16, 0, 0)] && Found(ApplyAll(NOTHING, [PC32])) == [Report(32, 0, 0)]
    ensures Found(ApplyAll(NOTHING, [NAME, PC16])) == [Report(16, 0, 0)] == Found(ApplyAll(NOTHING, [PC16, NAME]))
    ensures Found(ApplyAll(NOTHING, [PC16, NAME, FIVE])) == [Report(16, 5, 0)] == Found(ApplyAll(NOTHING, [PC16, FIVE, NAME]))
  {
    hide ApplyAll, Apply, NAME, PC16, PC32, FIVE;
    var p, q, r := Partial(true, Report(16, 0, 0)), Partial(true, Report(16, 5, 0)), Partial(true, Report(32, 0, 0));
    Applied();
    ApplyFirst(NOTHING, PC16, []);
    ApplyFirst(NOTHING, PC32, []);
    ApplyFirst(NOTHING, NAME, [PC16]);
    ApplyFirst(p, NAME, []);
    ApplyFirst(q, NAME, []);
    ApplyFirst(r, NAME, []);
    ApplyFirst(NOTHING, PC16, [NAME]);
    ApplyFirst(p, FIVE, []);
    ApplyFirst(p, NAME, [FIVE]);
    ApplyFirst(p, FIVE, [NAME]);
    ApplyFirst(NOTHING, PC16, [NAME, FIVE]);
    ApplyFirst(NOTHING, PC16, [FIVE, NAME]);
    assert [PC16] + [] == [PC16] && [PC32] + [] == [PC32] && [NAME] + [PC16] == [NAME, PC16] && [NAME] + [] == [NAME];
    assert [PC16] + [NAME] == [PC16, NAME] && [FIVE] + [] == [FIVE] && [NAME] + [FIVE] == [NAME, FIVE];
    assert [FIVE] + [NAME] == [FIVE, NAME] && [PC16] + [NAME, FIVE] == [PC16, NAME, FIVE];
    assert [PC16] + [FIVE, NAME] == [PC16, FIVE, NAME];
  }

  lemma Alone(hits: seq<Hit>, rest: seq<Report>)
    ensures [] + (hits + []) == hits && [] + (rest + []) == rest && ReportsOf([]) == []
  {
  }

  /** In front of the pc the comma loses the hit. */
  lemma CommaLosesTheHit()
    ensures ScanHits(COMMA_FIRST) == [] && ReportsOf([Bare([NAME, PC16])]) == [Report(16, 0, 0)]
  {
    hide ScanHits, HitsTo, COMMA_FIRST, NAME, PC16, ApplyAll, IsItem, HasGaps, Breaks, Spills, ReportsOf, IsItemHit;
    var fs := [NAME, PC16];
    AreExamples();
    BareIsHit(fs);
    FirstText();
    SaidByExamples();
    OneHit(Bare(fs));
    Alone([Bare(fs)], []);
    assert Without(fs, 0) == [];
    SpilledHitRead([], Bare(fs), [], 0, "");
  }

  /** In front of a count it loses the count. */
  lemma CommaLosesTheCount()
    ensures ScanHits(COMMA_BETWEEN) == [Report(16, 0, 0)] && ReportsOf([Bare([PC16, NAME, FIVE])]) == [Report(16, 5, 0)]
  {
    hide ScanHits, HitsTo, COMMA_BETWEEN, NAME, PC16, FIVE, ApplyAll, IsItem, HasGaps, Breaks, Spills, ReportsOf, IsItemHit;
    var fs := [PC16, NAME, FIVE];
    AreExamples();
    BareIsHit(fs);
    BetweenText();
    SaidByExamples();
    OneHit(Bare(fs));
    Alone([Bare(fs)], [Report(16, 0, 0)]);
    assert Without(fs, 1) == [PC16];
    SpilledHitRead([], Bare(fs), [], 1, "");
  }

  /** At the end of the last hit it loses nothing. */
  lemma CommaLosesNothing()
    ensures ScanHits(COMMA_LAST) == [Report(16, 5, 0)] == ReportsOf([Bare([PC16, FIVE, NAME])])
  {
    hide ScanHits, HitsTo, COMMA_LAST, NAME, PC16, FIVE, ApplyAll, IsItem, HasGaps, Breaks, Spills, ReportsOf, IsItemHit;
    var fs := [PC16, FIVE, NAME];
    AreExamples();
    BareIsHit(fs);
    LastText();
    SaidByExamples();
    OneHit(Bare(fs));
    SpillBreaks(NAME.field);
    assert fs[..2] == [PC16, FIVE] && [] + [Bare(fs)] == [Bare(fs)];
    LastStringIsHarmless([], Bare(fs), "");
  }

  lemma SpillBreaks(f: Field)
    requires Spills(f)
    ensures Breaks(f)
  {
  }

  /** At the end of another it loses the next hit, which has no string at all. */
  lemma CommaLosesTheNextHit()
    ensures ScanHits(COMMA_BEFORE_NEXT) == [Report(16, 0, 0)]
    ensures ReportsOf([Bare([PC16, NAME]), Bare([PC32])]) == [Report(16, 0, 0), Report(32, 0, 0)]
  {
    hide ScanHits, HitsTo, COMMA_BEFORE_NEXT, NAME, PC16, PC32, ApplyAll, IsItem, HasGaps, Breaks, Spills, ReportsOf, IsItemHit;
    var h, next := Bare([PC16, NAME]), Bare([PC32]);
    AreExamples();
    BareIsHit([PC16, NAME]);
    BareIsHit([PC32]);
    BeforeNextText();
    SaidByExamples();
    OneHit(h);
    OneHit(next);
    ReportsJoin([h], [next]);
    assert [h] + [next] == [h, next];
    Alone([h, next], [Report(16, 0, 0)]);
    assert next.fields[1..] == [] && h.fields + [] == h.fields;
    StringJoinsHits([], h, next, [], "");
  }
}
