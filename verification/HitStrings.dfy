/**
 Hits with strings for the values of keys the scanner does not know. The scanner skips such a value up to a
 comma or a closing bracket without heeding its quotes; what it makes of the rest is followed here field by field.
 */
module HitStrings {
  import opened Numerals
  import opened HitText
  import opened ProfileMap
  import opened Sequences

  function Quoted(body: string): string {
    "\"" + (body + "\"")
  }

  predicate IsString(raw: string) {
    |raw| >= 2 && raw[0] == '"' && raw[|raw| - 1] == '"' && '"' !in BodyOf(raw)
  }

  function BodyOf(raw: string): string
    requires |raw| >= 2
  {
    raw[1..|raw| - 1]
  }

  /** A number or a word: nothing in it means anything to the scanner. */
  predicate IsScalar(raw: string) {
    Plain(raw) && '"' !in raw && '{' !in raw
  }

  predicate IsName(key: string) {
    IsOtherKey(key) && Plain(key) && '{' !in key
  }

  /** Any field of which the value of an unknown key may be any string without quotes inside. */
  predicate IsItem(f: Field) {
    match f
    case Pc(digits) => IsHex(digits)
    case SampleCount(_) => true
    case CycleCount(_) => true
    case Other(key, raw) => IsName(key) && (IsString(raw) || IsScalar(raw))
  }

  predicate AreItems(fs: seq<Spaced>) {
    forall i :: 0 <= i < |fs| ==> IsItem(fs[i].field) && HasGaps(fs[i])
  }

  predicate IsItemHit(h: Hit) {
    IsGap(h.before) && IsGap(h.inside) && IsGap(h.after) && AreItems(h.fields)
  }

  predicate AreItemHits(hits: seq<Hit>) {
    forall i :: 0 <= i < |hits| ==> IsItemHit(hits[i])
  }

  /** The field ends in the scanner's eyes before its own end. */
  predicate Breaks(f: Field) {
    f.Other? && IsString(f.raw) && !Plain(BodyOf(f.raw))
  }

  // ---------- What the scanner takes the text for ----------

  /**
   In an object; in what it takes for a key, up to the next quote; between objects; or after the array.
   */
  datatype Mode = Inside(p: Partial) | Swallowing(p: Partial) | Outside | Finished

  function WalkChar(m: Mode, c: char): (Mode, seq<Report>) {
    if m.Inside? && c == '}' then (Outside, Found(m.p))
    else if m.Outside? && c == '{' then (Inside(NOTHING), [])
    else if m.Outside? && c == ']' then (Finished, [])
    else (m, [])
  }

  /** Through text without quotes. */
  function Walk(m: Mode, v: string): (Mode, seq<Report>)
    decreases |v|
  {
    if v == "" then (m, [])
    else
      var (m1, r1) := WalkChar(m, v[0]);
      var (m2, r2) := Walk(m1, v[1..]);
      (m2, r1 + r2)
  }

  /** A closing quote opens a key, inside an object. */
  function Close(m: Mode): Mode {
    if m.Inside? then Swallowing(m.p) else m
  }

  /** What is left of a string after its plain beginning has been skipped. */
  function Leftover(body: string): string {
    Skip(Unstructured, body)
  }

  function FieldSeen(m: Mode, f: Field): (Mode, seq<Report>) {
    match m
    case Finished => (Finished, [])
    case Outside =>
      if f.Other? && IsString(f.raw) then
        var (m', r) := Walk(Outside, BodyOf(f.raw));
        (Close(m'), r)
      else (Outside, [])
    case Inside(p) =>
      if Breaks(f) then BrokenSeen(p, f) else (Inside(Apply(p, f)), [])
    case Swallowing(p) =>
      if Breaks(f) then BrokenSeen(p, f) else (Inside(p), [])
  }

  function BrokenSeen(p: Partial, f: Field): (Mode, seq<Report>)
    requires Breaks(f)
  {
    var (m', r) := Walk(Inside(p), Leftover(BodyOf(f.raw)));
    (Close(m'), r)
  }

  function FieldsSeen(m: Mode, fs: seq<Spaced>): (Mode, seq<Report>)
    decreases |fs|
  {
    if fs == [] then (m, [])
    else
      var (m1, r1) := FieldSeen(m, fs[0].field);
      var (m2, r2) := FieldsSeen(m1, fs[1..]);
      (m2, r1 + r2)
  }

  function HitSeen(m: Mode, h: Hit): (Mode, seq<Report>) {
    var (m1, r1) := FieldsSeen(if m.Outside? then Inside(NOTHING) else m, h.fields);
    var (m2, r2) := WalkChar(m1, '}');
    (m2, r1 + r2)
  }

  function HitsSeen(m: Mode, hits: seq<Hit>): (Mode, seq<Report>)
    decreases |hits|
  {
    if hits == [] then (m, [])
    else
      var (m1, r1) := HitSeen(m, hits[0]);
      var (m2, r2) := HitsSeen(m1, hits[1..]);
      (m2, r1 + r2)
  }

  /** The reports of an array that no quote follows. */
  function Seen(hits: seq<Hit>): seq<Report> {
    var (m, r) := HitsSeen(Outside, hits);
    r + if m.Swallowing? then Found(m.p) else []
  }

  // ---------- The scanner's own view ----------

  /** Past what is taken for a key and its value, up to the next comma or bracket. */
  function AfterSwallow(s: string): string {
    SkipOne(SkipSpace(Skip(Unstructured, AfterKey(s))), ',')
  }

  function Finish(r: (Partial, string)): seq<Report> {
    Found(r.0) + ScanHits(SkipOne(r.1, '}'))
  }

  /** What the scanner reports from a text on. */
  function Rest(m: Mode, s: string): seq<Report> {
    match m
    case Inside(p) => Finish(ScanObject(s, p))
    case Swallowing(p) => Finish(ScanObject(AfterSwallow(s), p))
    case Outside => ScanHits(s)
    case Finished => []
  }

  // ---------- Inside an object ----------

  lemma LeadingSpace(s: string, p: Partial)
    ensures ScanObject(s, p) == ScanObject(SkipSpace(s), p)
  {
    if s != "" && s[0] != '}' {
      SpaceTwice(s);
    }
  }

  lemma SpaceTwice(s: string)
    ensures SkipSpace(SkipSpace(s)) == SkipSpace(s)
  {
  }

  /** A character that neither ends an object nor opens a key. */
  lemma StrayInside(c: char, s: string, p: Partial)
    requires c != '"' && c != '}'
    ensures ScanObject([c] + s, p) == ScanObject(s, p)
  {
    assert ([c] + s)[1..] == s;
    if IsSpace(c) {
      LeadingSpace([c] + s, p);
      LeadingSpace(s, p);
    }
  }

  predicate AtStructured(s: string) {
    s == "" || !Unstructured(s[0])
  }

  lemma CommaInside(s: string, p: Partial)
    requires AtStructured(s)
    ensures SkipSpace(s) == s && ScanObject(SkipOne(s, ','), p) == ScanObject(s, p)
  {
    if s != "" {
      StructuredIsNoSpace(s[0]);
      if s[0] == ',' {
        StrayInside(',', s[1..], p);
        assert [','] + s[1..] == s;
      }
    }
  }

  lemma StructuredIsNoSpace(c: char)
    requires !Unstructured(c)
    ensures !IsSpace(c) && c != '"'
  {
  }

  /** A quote opens a key, and what follows up to the next quote is not a key the scanner knows. */
  lemma QuoteInside(s: string, p: Partial)
    requires s != "" && (IsSeparator(s[0]) || s[0] == '}')
    ensures ScanObject(['"'] + s, p) == ScanObject(AfterSwallow(s), p)
  {
    hide AfterKey, Skip, Unquoted;
    assert (['"'] + s)[1..] == s;
    QuoteIsNoSpace(['"'] + s);
    KeyTextStarts(s);
  }

  lemma QuoteIsNoSpace(s: string)
    requires s != "" && s[0] == '"'
    ensures SkipSpace(s) == s
  {
  }

  lemma KeyTextStarts(s: string)
    requires s != "" && (IsSeparator(s[0]) || s[0] == '}')
    ensures KeyText(s) != "pc" && KeyText(s) != "samples" && KeyText(s) != "cycles"
  {
    SkipShorter(s);
    var n := |s| - |Skip(Unquoted, s)|;
    assert s[..n][0] == s[0] && KeyText(s)[0] == s[..n][0];
  }

  lemma SkipShorter(s: string)
    requires s != "" && s[0] != '"'
    ensures |Skip(Unquoted, s)| < |s|
  {
  }

  /** A text that is swallowed grows by anything without a quote. */
  lemma SwallowMore(x: string, s: string)
    requires '"' !in x
    ensures AfterSwallow(x + s) == AfterSwallow(s)
  {
    SkipOver(Unquoted, x, s);
  }

  lemma {:induction false} UnstructuredFirst(s: string)
    ensures Skip(Unstructured, SkipSpace(s)) == Skip(Unstructured, s)
    ensures Skip(Unstructured, SkipOne(s, ':')) == Skip(Unstructured, s)
  {
    if s != "" && IsSpace(s[0]) {
      SpaceIsNoDigit(s[0]);
      UnstructuredFirst(s[1..]);
    }
  }

  /** The quote of the next key ends what is swallowed, and its field goes for the value. */
  lemma SwallowField(x: string, s: string, p: Partial)
    requires Plain(x) && AtStructured(s)
    ensures ScanObject(AfterSwallow(['"'] + (x + s)), p) == ScanObject(s, p)
  {
    hide ScanObject;
    var y := x + s;
    assert (['"'] + y)[1..] == y && Skip(Unquoted, ['"'] + y) == ['"'] + y;
    UnstructuredFirst(y);
    UnstructuredFirst(SkipSpace(y));
    UnstructuredFirst(SkipOne(SkipSpace(y), ':'));
    SkipOver(Unstructured, x, s);
    CommaInside(s, p);
  }

  // ---------- One character, or a gap, in any mode ----------

  /** Between objects everything up to an opening brace or the closing bracket is passed over. */
  lemma {:induction false} StraySkipped(x: string, s: string)
    requires '{' !in x && ']' !in x
    ensures ScanHits(x + s) == ScanHits(s)
  {
    if x == "" {
      assert x + s == s;
    } else {
      assert (x + s)[1..] == x[1..] + s;
      StraySkipped(x[1..], s);
      if !IsSeparator(x[0]) {
        assert Skip(IsSeparator, x + s) == x + s;
      }
    }
  }

  lemma CharRead(m: Mode, c: char, s: string)
    requires c != '"' && !m.Swallowing?
    ensures Rest(m, [c] + s) == WalkChar(m, c).1 + Rest(WalkChar(m, c).0, s)
  {
    hide ScanObject, Skip, SkipOne;
    match m
    case Inside(p) =>
      if c == '}' {
        BraceInside(s, p);
      } else {
        StrayInside(c, s, p);
      }
    case Outside =>
      if c == '{' || c == ']' {
        BracketOutside(c, s);
      } else {
        StraySkipped([c], s);
      }
    case Finished =>
  }

  lemma BraceInside(s: string, p: Partial)
    ensures Finish(ScanObject(['}'] + s, p)) == Found(p) + ScanHits(s)
  {
    assert (['}'] + s)[1..] == s;
  }

  lemma BracketOutside(c: char, s: string)
    requires c == '{' || c == ']'
    ensures ScanHits([c] + s) == if c == '{' then Finish(ScanObject(s, NOTHING)) else []
  {
    assert ([c] + s)[1..] == s && Skip(IsSeparator, [c] + s) == [c] + s;
  }

  lemma {:induction false} TextRead(m: Mode, v: string, s: string)
    requires '"' !in v && !m.Swallowing?
    ensures Rest(m, v + s) == Walk(m, v).1 + Rest(Walk(m, v).0, s)
    ensures !Walk(m, v).0.Swallowing?
    decreases |v|
  {
    hide Rest, WalkChar;
    if v == "" {
      assert v + s == s;
    } else {
      var (m1, r1) := WalkChar(m, v[0]);
      assert v + s == [v[0]] + (v[1..] + s);
      CharRead(m, v[0], v[1..] + s);
      WalkCharStays(m, v[0]);
      TextRead(m1, v[1..], s);
    }
  }

  lemma WalkCharStays(m: Mode, c: char)
    requires !m.Swallowing?
    ensures !WalkChar(m, c).0.Swallowing?
  {
  }

  lemma {:induction false} SeparatorsWalk(m: Mode, x: string)
    requires forall i :: 0 <= i < |x| ==> IsSeparator(x[i])
    ensures Walk(m, x) == (m, [])
  {
    if x != "" {
      SeparatorsWalk(m, x[1..]);
      assert WalkChar(m, x[0]) == (m, []) && WalkChar(m, x[0]).1 + Walk(m, x[1..]).1 == [];
    }
  }

  /** White space and commas make no difference. */
  lemma SeparatorsRead(m: Mode, x: string, s: string)
    requires forall i :: 0 <= i < |x| ==> IsSeparator(x[i])
    ensures Rest(m, x + s) == Rest(m, s)
  {
    hide Walk, ScanObject, ScanHits, AfterSwallow;
    if m.Swallowing? {
      SwallowMore(x, s);
    } else {
      SeparatorsWalk(m, x);
      TextRead(m, x, s);
    }
  }

  lemma QuoteRead(m: Mode, s: string)
    requires !m.Swallowing? && s != "" && (IsSeparator(s[0]) || s[0] == '}')
    ensures Rest(m, ['"'] + s) == Rest(Close(m), s)
  {
    hide ScanObject, ScanHits, AfterSwallow;
    match m
    case Inside(p) => QuoteInside(s, p);
    case Outside => StraySkipped(['"'], s);
    case Finished =>
  }

  // ---------- A field, in any mode ----------

  lemma {:induction false} SkipInto(p: char -> bool, x: string, s: string)
    requires Skip(p, x) != ""
    ensures Skip(p, x + s) == Skip(p, x) + s
  {
    if p(x[0]) {
      assert (x + s)[1..] == x[1..] + s;
      SkipInto(p, x[1..], s);
    }
  }

  lemma {:induction false} LeftoverIsEnd(body: string)
    ensures Leftover(body) == "" <==> Plain(body)
    ensures forall c :: c in Leftover(body) ==> c in body
  {
    if body != "" {
      LeftoverIsEnd(body[1..]);
      assert body == [body[0]] + body[1..];
    }
  }

  lemma RawIsQuoted(raw: string)
    requires IsString(raw)
    ensures raw == ['"'] + (BodyOf(raw) + ['"'])
  {
  }

  /** From a field's key on, without the quote that opens the key. */
  function Keyed(f: Spaced): string {
    KeyOf(f.field) + (['"'] + (f.beforeColon + ([':'] + (f.afterColon + (ValueTo(f.field, "") + f.after)))))
  }

  lemma ValueThen(f: Field, rest: string)
    ensures ValueTo(f, rest) == ValueTo(f, "") + rest
  {
    hide Numeral;
  }

  lemma KeyedThen(f: Spaced, rest: string)
    ensures KeyedTo(f, rest) == ['"'] + (Keyed(f) + rest)
  {
    hide KeyOf, ValueTo;
    ValueThen(f.field, f.after + rest);
    var v := ValueTo(f.field, "");
    assert f.afterColon + (v + (f.after + rest)) == (f.afterColon + (v + f.after)) + rest;
  }

  lemma PlainJoins(x: string, y: string)
    requires Plain(x) && Plain(y) && '{' !in x && '{' !in y
    ensures Plain(x + y) && '{' !in x + y
  {
  }

  lemma GapIsPlain(gap: string)
    requires IsGap(gap)
    ensures Plain(gap) && '{' !in gap && '"' !in gap
  {
  }

  lemma HexIsPlain(digits: string)
    requires IsHex(digits)
    ensures Plain(digits) && '{' !in digits
  {
  }

  lemma NumberIsPlain(n: nat)
    ensures Plain(Numeral(n, 10)) && '{' !in Numeral(n, 10)
  {
  }

  lemma PlainValue(f: Field)
    requires IsItem(f) && !(f.Other? && IsString(f.raw))
    ensures Plain(ValueTo(f, "")) && '{' !in ValueTo(f, "")
  {
    hide Numeral, IsHex;
    match f
    case Pc(digits) =>
      HexIsPlain(digits);
      assert ValueTo(f, "") == "\"0x" + digits + "\"";
    case SampleCount(n) => NumberIsPlain(n);
    case CycleCount(n) => NumberIsPlain(n);
    case Other(_, raw) => assert raw + "" == raw;
  }

  lemma PlainKey(f: Field)
    requires IsItem(f)
    ensures Plain(KeyOf(f)) && '{' !in KeyOf(f) && '"' !in KeyOf(f)
  {
    assert Plain("pc") && Plain("samples") && Plain("cycles");
  }

  /** The text of a field up to its value. */
  function BeforeValue(f: Spaced): string {
    KeyOf(f.field) + (['"'] + (f.beforeColon + ([':'] + f.afterColon)))
  }

  lemma BeforeValueIsPlain(f: Spaced)
    requires IsItem(f.field) && HasGaps(f)
    ensures Plain(BeforeValue(f)) && '{' !in BeforeValue(f)
  {
    hide KeyOf, IsGap;
    PlainKey(f.field);
    GapIsPlain(f.beforeColon);
    GapIsPlain(f.afterColon);
    assert Plain("\"") && Plain(":");
  }

  lemma KeyedIsPlain(f: Spaced)
    requires IsItem(f.field) && HasGaps(f) && !(f.field.Other? && IsString(f.field.raw))
    ensures Plain(Keyed(f)) && '{' !in Keyed(f)
  {
    hide KeyOf, ValueTo, IsGap, BeforeValue;
    BeforeValueIsPlain(f);
    PlainValue(f.field);
    GapIsPlain(f.after);
    KeyedParts(f);
    PlainJoins(ValueTo(f.field, ""), f.after);
    PlainJoins(BeforeValue(f), ValueTo(f.field, "") + f.after);
  }

  lemma KeyedParts(f: Spaced)
    ensures Keyed(f) == BeforeValue(f) + (ValueTo(f.field, "") + f.after)
  {
    hide KeyOf, ValueTo;
  }

  lemma KeyedString(f: Spaced, rest: string)
    requires f.field.Other? && IsString(f.field.raw)
    ensures KeyedTo(f, rest) == ['"'] + ((BeforeValue(f) + ['"']) + (BodyOf(f.field.raw) + (['"'] + (f.after + rest))))
  {
    hide KeyOf, BeforeValue;
    KeyedThen(f, rest);
    KeyedParts(f);
    RawIsQuoted(f.field.raw);
    assert ValueTo(f.field, "") == f.field.raw + "" == f.field.raw;
  }

  /** Past a broken string: its closing quote, and the white space after it. */
  lemma StringCloses(m: Mode, after: string, rest: string)
    requires !m.Swallowing? && IsGap(after) && EndsField(rest)
    ensures Rest(m, ['"'] + (after + rest)) == Rest(Close(m), rest)
  {
    hide Rest;
    QuoteRead(m, after + rest);
    SeparatorsRead(Close(m), after, rest);
  }

  /** From the first structured character of a string on. */
  lemma LeftoverRead(p: Partial, f: Spaced, rest: string)
    requires Breaks(f.field) && HasGaps(f) && EndsField(rest)
    ensures var s := Leftover(BodyOf(f.field.raw)) + (['"'] + (f.after + rest));
            Rest(Inside(p), s) == BrokenSeen(p, f.field).1 + Rest(BrokenSeen(p, f.field).0, rest)
  {
    hide Rest, Walk, Leftover, EndsField;
    var v := Leftover(BodyOf(f.field.raw));
    LeftoverIsEnd(BodyOf(f.field.raw));
    TextRead(Inside(p), v, ['"'] + (f.after + rest));
    StringCloses(Walk(Inside(p), v).0, f.after, rest);
  }

  /** In an object the key of a broken string is read, and its value up to its first structured character. */
  lemma BrokenInside(f: Spaced, p: Partial, rest: string)
    requires Breaks(f.field) && IsOtherKey(f.field.key) && HasGaps(f)
    ensures ScanObject(KeyedTo(f, rest), p) ==
            ScanObject(Leftover(BodyOf(f.field.raw)) + (['"'] + (f.after + rest)), p)
  {
    hide KeyText, AfterKey, IsGap, Take, IsScalar, SkipSpace, SkipOne;
    var key, body, s := KeyOf(f.field), BodyOf(f.field.raw), ['"'] + (f.after + rest);
    var value := ValueTo(f.field, f.after + rest);
    assert IsString(f.field.raw);
    RawIsQuoted(f.field.raw);
    assert value == (['"'] + body) + s;
    LeftoverIsEnd(body);
    var left := Leftover(body) + s;
    assert Skip(Unstructured, value) == left by {
      SkipOverQuote(body, s);
    }
    LeftoverStarts(body);
    CommaInside(left, p);
    KeyRead(key, f.beforeColon, f.afterColon, value);
    UnknownKey(key);
    QuoteIsNoSpace(value);
    QuoteIsNoSpace(KeyedTo(f, rest));
    assert KeyedTo(f, rest)[1..] == key + (['"'] + (f.beforeColon + ([':'] + (f.afterColon + value))));
  }

  lemma SkipOverQuote(body: string, s: string)
    requires Leftover(body) != ""
    ensures Skip(Unstructured, (['"'] + body) + s) == Leftover(body) + s
  {
    assert ((['"'] + body) + s)[1..] == body + s;
    SkipInto(Unstructured, body, s);
  }

  lemma LeftoverStarts(body: string)
    requires !Plain(body)
    ensures Leftover(body) != "" && !Unstructured(Leftover(body)[0])
  {
    LeftoverIsEnd(body);
  }

  /** A value that does not break is plain, with its key and all. */
  lemma UnbrokenIsPlain(f: Spaced)
    requires IsItem(f.field) && HasGaps(f) && !Breaks(f.field)
    ensures IsSpaced(f) && Plain(Keyed(f))
  {
    hide IsGap, Keyed, IsHex;
    if f.field.Other? && IsString(f.field.raw) {
      RawIsQuoted(f.field.raw);
      PlainString(f);
    } else {
      KeyedIsPlain(f);
    }
  }

  lemma PlainString(f: Spaced)
    requires IsItem(f.field) && HasGaps(f) && f.field.Other? && IsString(f.field.raw) && Plain(BodyOf(f.field.raw))
    ensures Plain(f.field.raw) && Plain(Keyed(f))
  {
    hide KeyOf, IsGap, BeforeValue, BodyOf;
    var raw := f.field.raw;
    RawIsQuoted(raw);
    BeforeValueIsPlain(f);
    GapIsPlain(f.after);
    KeyedParts(f);
    assert ValueTo(f.field, "") == raw + "" == raw;
    AllPlain([['"'], BodyOf(raw), ['"']]);
  }

  lemma AllPlain(parts: seq<string>)
    requires |parts| == 3 && Plain(parts[0]) && Plain(parts[1]) && Plain(parts[2])
    ensures Plain(parts[0] + (parts[1] + parts[2]))
  {
  }

  /** What has been skipped, and what is left. */
  lemma {:induction false} SkipSplits(p: char -> bool, s: string) returns (x: string)
    ensures s == x + Skip(p, s) && forall i :: 0 <= i < |x| ==> p(x[i])
  {
    if s != "" && p(s[0]) {
      var y := SkipSplits(p, s[1..]);
      x := [s[0]] + y;
    } else {
      x := "";
    }
  }

  /** When a key is being swallowed, a broken string is entered in the same place. */
  lemma BrokenSwallowed(f: Spaced, p: Partial, rest: string)
    requires IsItem(f.field) && Breaks(f.field) && HasGaps(f)
    ensures ScanObject(AfterSwallow(KeyedTo(f, rest)), p) ==
            ScanObject(Leftover(BodyOf(f.field.raw)) + (['"'] + (f.after + rest)), p)
  {
    hide ScanObject, AfterSwallow, BeforeValue, Skip, IsItem, HasGaps;
    var body, s := BodyOf(f.field.raw), ['"'] + (f.after + rest);
    var u := SkipSplits(Unstructured, body);
    LeftoverStarts(body);
    BeforeValueIsPlain(f);
    KeyedString(f, rest);
    var x := (BeforeValue(f) + ['"']) + u;
    assert (BeforeValue(f) + ['"']) + (body + s) == x + (Leftover(body) + s);
    SwallowField(x, Leftover(body) + s, p);
  }

  lemma StringOutside(f: Spaced, rest: string)
    requires IsItem(f.field) && HasGaps(f) && f.field.Other? && IsString(f.field.raw) && EndsField(rest)
    ensures ScanHits(KeyedTo(f, rest)) == FieldSeen(Outside, f.field).1 + Rest(FieldSeen(Outside, f.field).0, rest)
  {
    hide ScanHits, BeforeValue, Walk, EndsField, BodyOf;
    var body, s := BodyOf(f.field.raw), ['"'] + (f.after + rest);
    BeforeValueIsPlain(f);
    KeyedString(f, rest);
    var x := ['"'] + (BeforeValue(f) + ['"']);
    assert ['"'] + ((BeforeValue(f) + ['"']) + (body + s)) == x + (body + s);
    StraySkipped(x, body + s);
    assert Rest(Outside, body + s) == ScanHits(body + s);
    hide Rest;
    TextRead(Outside, body, s);
    StringCloses(Walk(Outside, body).0, f.after, rest);
  }

  lemma PlainOutside(f: Spaced, rest: string)
    requires IsItem(f.field) && HasGaps(f) && !(f.field.Other? && IsString(f.field.raw))
    ensures ScanHits(KeyedTo(f, rest)) == ScanHits(rest)
  {
    hide ScanHits, Keyed, IsItem, HasGaps, IsString;
    KeyedIsPlain(f);
    KeyedThen(f, rest);
    assert ['"'] + (Keyed(f) + rest) == (['"'] + Keyed(f)) + rest;
    StraySkipped(['"'] + Keyed(f), rest);
  }

  lemma UnbrokenRead(f: Spaced, p: Partial, rest: string)
    requires IsItem(f.field) && HasGaps(f) && !Breaks(f.field) && EndsField(rest)
    ensures ScanObject(KeyedTo(f, rest), p) == ScanObject(rest, Apply(p, f.field))
    ensures ScanObject(AfterSwallow(KeyedTo(f, rest)), p) == ScanObject(rest, p)
  {
    hide ScanObject, AfterSwallow, KeyedTo, Keyed, IsItem, HasGaps, IsSpaced, Breaks, Apply;
    UnbrokenIsPlain(f);
    FieldRead(f, p, rest);
    CommaInside(rest, Apply(p, f.field));
    KeyedThen(f, rest);
    SwallowField(Keyed(f), rest, p);
  }

  lemma ItemHasName(f: Field)
    requires IsItem(f) && f.Other?
    ensures IsName(f.key)
  {
  }

  lemma FieldSeenRead(m: Mode, f: Spaced, rest: string)
    requires IsItem(f.field) && HasGaps(f) && EndsField(rest)
    ensures Rest(m, KeyedTo(f, rest)) == FieldSeen(m, f.field).1 + Rest(FieldSeen(m, f.field).0, rest)
  {
    hide ScanObject, ScanHits, AfterSwallow, KeyedTo, IsItem, HasGaps, Finish, Leftover, EndsField, Apply, BrokenSeen;
    match m
    case Finished =>
    case Outside =>
      if f.field.Other? && IsString(f.field.raw) {
        StringOutside(f, rest);
      } else {
        PlainOutside(f, rest);
      }
    case Inside(p) =>
      if Breaks(f.field) {
        ItemHasName(f.field);
        BrokenInside(f, p, rest);
        LeftoverRead(p, f, rest);
      } else {
        UnbrokenRead(f, p, rest);
      }
    case Swallowing(p) =>
      if Breaks(f.field) {
        BrokenSwallowed(f, p, rest);
        LeftoverRead(p, f, rest);
      } else {
        UnbrokenRead(f, p, rest);
      }
  }

  // ---------- Whole packets ----------

  lemma {:induction false} FieldsSeenRead(m: Mode, fs: seq<Spaced>, end: string)
    requires AreItems(fs) && EndsField(end)
    ensures Rest(m, FieldsTo(fs, end)) == FieldsSeen(m, fs).1 + Rest(FieldsSeen(m, fs).0, end)
    decreases |fs|
  {
    hide Rest, KeyedTo, IsItem, HasGaps, FieldSeen, EndsField;
    if fs != [] {
      var m1, r1 := FieldSeen(m, fs[0].field).0, FieldSeen(m, fs[0].field).1;
      var more := if |fs| == 1 then end else [','] + FieldsTo(fs[1..], end);
      CommaEndsField(FieldsTo(fs[1..], end));
      SpacedRead(m, fs[0], more);
      FieldsSeenRead(m1, fs[1..], end);
      if |fs| > 1 {
        SeparatorsRead(m1, [','], FieldsTo(fs[1..], end));
      } else {
        assert FieldsTo(fs[1..], end) == end;
      }
      assert r1 + (FieldsSeen(m1, fs[1..]).1 + Rest(FieldsSeen(m, fs).0, end)) ==
             (r1 + FieldsSeen(m1, fs[1..]).1) + Rest(FieldsSeen(m, fs).0, end);
    }
  }

  lemma CommaEndsField(s: string)
    ensures EndsField([','] + s)
  {
  }

  lemma SpacedRead(m: Mode, f: Spaced, rest: string)
    requires IsItem(f.field) && HasGaps(f) && EndsField(rest)
    ensures Rest(m, f.before + KeyedTo(f, rest)) == FieldSeen(m, f.field).1 + Rest(FieldSeen(m, f.field).0, rest)
  {
    hide Rest, KeyedTo, IsItem, FieldSeen, EndsField;
    BeforeIsSeparator(f);
    SeparatorsRead(m, f.before, KeyedTo(f, rest));
    FieldSeenRead(m, f, rest);
  }

  lemma BeforeIsSeparator(f: Spaced)
    requires HasGaps(f)
    ensures forall i :: 0 <= i < |f.before| ==> IsSeparator(f.before[i])
  {
  }

  lemma GapIsSeparator(gap: string)
    requires IsGap(gap)
    ensures '"' !in gap && forall i :: 0 <= i < |gap| ==> IsSeparator(gap[i])
  {
  }

  /** An opening brace, unless it belongs to what is being swallowed. */
  lemma HitOpens(m: Mode, h: Hit, s: string)
    requires IsGap(h.before) && IsGap(h.inside) && !m.Inside?
    ensures Rest(m, h.before + (['{'] + (h.inside + s))) == Rest(if m.Outside? then Inside(NOTHING) else m, s)
  {
    hide ScanObject, ScanHits, AfterSwallow, Finish, IsGap, AreItems;
    GapIsSeparator(h.before);
    GapIsSeparator(h.inside);
    SeparatorsRead(m, h.before, ['{'] + (h.inside + s));
    SeparatorsRead(Inside(NOTHING), h.inside, s);
    match m
    case Outside => BracketOutside('{', h.inside + s);
    case Finished =>
    case Swallowing(p) =>
      assert ['{'] + (h.inside + s) == (['{'] + h.inside) + s;
      SwallowMore(['{'] + h.inside, s);
  }

  lemma HitCloses(m: Mode, after: string, rest: string)
    requires IsGap(after)
    ensures Rest(m, ['}'] + (after + rest)) == WalkChar(m, '}').1 + Rest(WalkChar(m, '}').0, rest)
  {
    hide ScanObject, ScanHits, AfterSwallow, Finish, IsGap;
    GapIsSeparator(after);
    SeparatorsRead(WalkChar(m, '}').0, after, rest);
    if m.Swallowing? {
      SwallowMore(['}'], after + rest);
    } else {
      CharRead(m, '}', after + rest);
    }
  }

  lemma HitSeenRead(m: Mode, h: Hit, rest: string)
    requires IsItemHit(h) && !m.Inside?
    ensures Rest(m, HitTo(h, rest)) == HitSeen(m, h).1 + Rest(HitSeen(m, h).0, rest)
    ensures !HitSeen(m, h).0.Inside?
  {
    hide Rest, FieldsTo, FieldsSeen, IsGap, AreItems;
    var end := ['}'] + (h.after + rest);
    var start := if m.Outside? then Inside(NOTHING) else m;
    HitOpens(m, h, FieldsTo(h.fields, end));
    FieldsSeenRead(start, h.fields, end);
    HitCloses(FieldsSeen(start, h.fields).0, h.after, rest);
  }

  /** The scanner reports from an array what its fields are seen as, and then what follows the array. */
  lemma {:induction false} HitsSeenRead(m: Mode, hits: seq<Hit>, tail: string)
    requires AreItemHits(hits) && !m.Inside?
    ensures Rest(m, HitsTo(hits, tail)) == HitsSeen(m, hits).1 + Rest(HitsSeen(m, hits).0, [']'] + tail)
    ensures !HitsSeen(m, hits).0.Inside?
    decreases |hits|
  {
    hide Rest, HitTo, HitSeen, IsItemHit;
    if hits != [] {
      var m1 := HitSeen(m, hits[0]).0;
      var more := if |hits| == 1 then [']'] + tail else [','] + HitsTo(hits[1..], tail);
      HitSeenRead(m, hits[0], more);
      HitsSeenRead(m1, hits[1..], tail);
      if |hits| > 1 {
        SeparatorsRead(m1, [','], HitsTo(hits[1..], tail));
      }
    }
  }

  lemma ArrayCloses(m: Mode, tail: string)
    requires !m.Inside? && (m.Swallowing? ==> '"' !in tail)
    ensures Rest(m, [']'] + tail) == if m.Swallowing? then Found(m.p) else []
  {
    hide Skip, AfterKey;
    match m
    case Outside => BracketOutside(']', tail);
    case Finished =>
    case Swallowing(p) =>
      assert ([']'] + tail) + "" == [']'] + tail;
      SwallowMore([']'] + tail, "");
      NothingSwallowed();
  }

  lemma NothingSwallowed()
    ensures AfterSwallow("") == ""
  {
  }

  /** What the scanner makes of any hits with any strings, in terms of their fields. */
  lemma SeenRead(hits: seq<Hit>, tail: string)
    requires AreItemHits(hits) && (HitsSeen(Outside, hits).0.Swallowing? ==> '"' !in tail)
    ensures ScanHits(HitsTo(hits, tail)) == Seen(hits)
  {
    hide ScanHits, HitsTo, HitsSeen, AreItemHits;
    HitsSeenRead(Outside, hits, tail);
    ArrayCloses(HitsSeen(Outside, hits).0, tail);
    assert Rest(Outside, HitsTo(hits, tail)) == ScanHits(HitsTo(hits, tail));
  }

  /** The same of a whole packet. */
  lemma PacketSeen(head: string, g: ArrayGaps, hits: seq<Hit>, tail: string, mark: nat)
    requires AreGaps(g) && AreItemHits(hits) && (HitsSeen(Outside, hits).0.Swallowing? ==> '"' !in tail)
    requires Occurs(STREAM_MARK, PacketText(head, g, hits, tail), mark)
    requires forall j :: 0 <= j < |head| ==> !Occurs(HITS_MARK, PacketText(head, g, hits, tail), j)
    ensures PacketReports(PacketText(head, g, hits, tail)) == Seen(hits)
  {
    hide HitsTo, ScanHits, AreItemHits, HitsSeen, PacketReports, ArrayText, Occurs, AreGaps;
    ArrayFound(head, g, HitsTo(hits, tail), mark);
    SeenRead(hits, tail);
  }
}
