/**
 The text of a profiler packet: how its hits are scanned, and a printer for them. Scanning is written
 on the text that is left; every step takes some of it.
 */
module HitText {
  import opened Bits
  import opened Numerals
  import opened ProfileMap
  import opened Sequences

  // ---------- Small scanners ----------

  predicate IsSeparator(c: char) {
    IsSpace(c) || c == ','
  }

  /** Part of a scalar value: anything up to a comma or a closing bracket. */
  predicate Unstructured(c: char) {
    c != ',' && c != '}' && c != ']'
  }

  predicate Unquoted(c: char) {
    c != '"'
  }

  /** What is left after the leading characters of one kind. */
  function Skip(p: char -> bool, s: string): (r: string)
    ensures |r| <= |s| && (r != "" ==> !p(r[0]))
  {
    if s != "" && p(s[0]) then Skip(p, s[1..]) else s
  }

  function SkipSpace(s: string): (r: string)
    ensures |r| <= |s|
  {
    Skip(IsSpace, s)
  }

  function SkipOne(s: string, c: char): (r: string)
    ensures |s| - 1 <= |r| <= |s|
  {
    if s != "" && s[0] == c then s[1..] else s
  }

  // ---------- Numbers ----------

  /** The leading digits of s, accumulated onto acc; a value that does not fit sticks at the top. */
  function Digits(s: string, base: nat, acc: nat): nat
    requires base == 10 || base == 16
  {
    if s == "" || DigitValue(s[0]) >= base then acc
    else
      var next := (if base == 10 then acc * 10 else acc * 16) + DigitValue(s[0]);
      Digits(s[1..], base, if acc == U64_LIMIT || next >= U64_LIMIT then U64_LIMIT else next)
  }

  function Signed(s: string): (bool, string) {
    if s != "" && s[0] == '-' then (true, s[1..])
    else if s != "" && s[0] == '+' then (false, s[1..])
    else (false, s)
  }

  function SkipHexPrefix(s: string): string {
    if |s| > 2 && s[0] == '0' && (s[1] == 'x' || s[1] == 'X') && DigitValue(s[2]) < 16 then s[2..] else s
  }

  /** strtoul and strtoull: spaces, a sign, for base 16 a prefix, then digits; too large sticks at 2^64 - 1. */
  function StrToUnsigned(s: string, base: nat): u64
    requires base == 10 || base == 16
  {
    var (negative, rest) := Signed(SkipSpace(s));
    var v := Digits(if base == 16 then SkipHexPrefix(rest) else rest, base, 0);
    if v >= U64_LIMIT then U64_LIMIT - 1
    else if negative && v > 0 then U64_LIMIT - v
    else v
  }

  /** Drops a prefix of its own, then reads hexadecimal and keeps 32 bits. */
  function ParseHex(s: string): u32 {
    var digits := if |s| >= 2 && s[0] == '0' && (s[1] == 'x' || s[1] == 'X') then s[2..] else s;
    StrToUnsigned(digits, 16) % U32_LIMIT
  }

  function ParseDecimal(s: string): u64 {
    StrToUnsigned(s, 10)
  }

  // ---------- Scanning ----------

  const KEY_MAX := 15
  const PC_TEXT_MAX := 31

  /** What an object has said so far. */
  datatype Partial = Partial(hasPc: bool, report: Report)

  const NOTHING := Partial(false, Report(0, 0, 0))

  /** The report of an object, if it had a pc. */
  function Found(p: Partial): seq<Report> {
    if p.hasPc then [p.report] else []
  }

  /** A key after its opening quote, cut to the key buffer. */
  function KeyText(s: string): string {
    Take(s[..|s| - |Skip(Unquoted, s)|], KEY_MAX)
  }

  /** Past a key, its colon and the spaces around it. */
  function AfterKey(s: string): (r: string)
    ensures |r| <= |s|
  {
    SkipSpace(SkipOne(SkipSpace(SkipOne(Skip(Unquoted, s), '"')), ':'))
  }

  /** The value of a key: what the object says afterwards, and the text left. */
  function ScanValue(key: string, s: string, p: Partial): (r: (Partial, string))
    ensures |r.1| <= |s|
  {
    if key == "pc" then
      if s != "" && s[0] == '"' then
        var end := Skip(Unquoted, s[1..]);
        var text := Take(s[1..|s| - |end|], PC_TEXT_MAX);
        (Partial(true, p.report.(pc := ParseHex(text))), SkipOne(end, '"'))
      else (p, s)
    else if key == "samples" then (p.(report := p.report.(samples := ParseDecimal(s))), Skip(Unstructured, s))
    else if key == "cycles" then (p.(report := p.report.(cycles := ParseDecimal(s))), Skip(Unstructured, s))
    else (p, Skip(Unstructured, s))
  }

  /** The keys of an object up to its closing brace. */
  function ScanObject(s: string, p: Partial): (r: (Partial, string))
    ensures |r.1| <= |s|
    decreases |s|
  {
    if s == "" || s[0] == '}' then (p, s)
    else
      var t := SkipSpace(s);
      if t == "" || t[0] == '}' then (p, t)
      else if t[0] != '"' then ScanObject(t[1..], p)
      else
        var (p', rest) := ScanValue(KeyText(t[1..]), AfterKey(t[1..]), p);
        ScanObject(SkipOne(SkipSpace(rest), ','), p')
  }

  /** The hits of an array; objects without a pc are skipped. */
  function ScanHits(s: string): seq<Report>
    decreases |s|
  {
    var t := Skip(IsSeparator, s);
    if t == "" || t[0] == ']' then []
    else if t[0] != '{' then ScanHits(t[1..])
    else
      var (p, rest) := ScanObject(t[1..], NOTHING);
      Found(p) + ScanHits(SkipOne(rest, '}'))
  }

  // ---------- Finding the array ----------

  /** strstr: the first position of a pattern, or the length. */
  function Find(s: string, pattern: string): (i: nat)
    ensures i <= |s|
  {
    if s == "" || pattern <= s then 0 else 1 + Find(s[1..], pattern)
  }

  const STREAM_MARK := "\"stream\":\"profiler\""
  const HITS_MARK := "\"hits\""

  /** The reports of one line: none unless it is a profiler line with a hits array. */
  function PacketReports(line: string): seq<Report> {
    if Find(line, STREAM_MARK) == |line| then []
    else
      var hits := line[Find(line, HITS_MARK)..];
      var open := Find(hits, "[");
      if open == |hits| then [] else ScanHits(hits[open + 1..])
  }

  // ---------- A printer of packets ----------

  /**
   A key and value of a hit object. A pc carries the hexadecimal digits it is spelled with; `Other` is
   any key the scanner does not know, with the text of its scalar value.
   */
  datatype Field = Pc(digits: string) | SampleCount(n: u64) | CycleCount(n: u64) | Other(key: string, raw: string)

  predicate IsHex(digits: string) {
    digits != "" && |digits| <= 29 && forall i :: 0 <= i < |digits| ==> DigitValue(digits[i]) < 16
  }

  predicate IsField(f: Field) {
    match f
    case Pc(digits) => IsHex(digits)
    case SampleCount(_) => true
    case CycleCount(_) => true
    case Other(key, raw) => IsOtherKey(key) && Plain(raw)
  }

  predicate IsOtherKey(key: string) {
    '"' !in key && key != "pc" && key != "samples" && key != "cycles"
  }

  /** No comma and no closing bracket. */
  predicate Plain(raw: string) {
    forall i :: 0 <= i < |raw| ==> Unstructured(raw[i])
  }

  /** The number some hexadecimal digits stand for. */
  function HexNumber(digits: string): nat {
    if digits == "" then 0 else 16 * HexNumber(digits[..|digits| - 1]) + DigitValue(digits[|digits| - 1])
  }

  /** The pc that is read: the number, stuck at 2^64 - 1, in 32 bits. */
  function PcOf(digits: string): u32 {
    (if HexNumber(digits) >= U64_LIMIT then U64_LIMIT - 1 else HexNumber(digits)) % U32_LIMIT
  }

  function KeyOf(f: Field): string {
    match f
    case Pc(_) => "pc"
    case SampleCount(_) => "samples"
    case CycleCount(_) => "cycles"
    case Other(key, _) => key
  }

  predicate IsGap(gap: string) {
    forall i :: 0 <= i < |gap| ==> IsSpace(gap[i])
  }

  /** A field as it stands in a text: white space before the key, around the colon and after the value. */
  datatype Spaced = Spaced(field: Field, before: string, beforeColon: string, afterColon: string, after: string)

  predicate IsSpaced(f: Spaced) {
    IsField(f.field) && HasGaps(f)
  }

  predicate HasGaps(f: Spaced) {
    IsGap(f.before) && IsGap(f.beforeColon) && IsGap(f.afterColon) && IsGap(f.after)
  }

  /** A hit object: white space before and after it, and after its opening brace. */
  datatype Hit = Hit(before: string, inside: string, fields: seq<Spaced>, after: string)

  predicate IsHit(h: Hit) {
    IsGap(h.before) && IsGap(h.inside) && IsGap(h.after) && forall f :: f in h.fields ==> IsSpaced(f)
  }

  /** The printers take the text that follows. */
  function ValueTo(f: Field, rest: string): string {
    match f
    case Pc(digits) => ['"'] + (("0x" + digits) + (['"'] + rest))
    case SampleCount(n) => Numeral(n, 10) + rest
    case CycleCount(n) => Numeral(n, 10) + rest
    case Other(_, raw) => raw + rest
  }

  /** A field from its key on. */
  function KeyedTo(f: Spaced, rest: string): string {
    ['"'] + (KeyOf(f.field) + (['"'] + (f.beforeColon + ([':'] + (f.afterColon + ValueTo(f.field, f.after + rest))))))
  }

  function FieldsTo(fs: seq<Spaced>, rest: string): string {
    if fs == [] then rest
    else fs[0].before + KeyedTo(fs[0], if |fs| == 1 then rest else [','] + FieldsTo(fs[1..], rest))
  }

  function HitTo(h: Hit, rest: string): string {
    h.before + (['{'] + (h.inside + FieldsTo(h.fields, ['}'] + (h.after + rest))))
  }

  function HitsTo(hits: seq<Hit>, tail: string): string {
    if hits == [] then [']'] + tail
    else HitTo(hits[0], if |hits| == 1 then [']'] + tail else [','] + HitsTo(hits[1..], tail))
  }

  /** What a list of fields says; a repeated key overrides. */
  function Apply(p: Partial, f: Field): Partial {
    match f
    case Pc(digits) => Partial(true, p.report.(pc := PcOf(digits)))
    case SampleCount(n) => p.(report := p.report.(samples := n))
    case CycleCount(n) => p.(report := p.report.(cycles := n))
    case Other(_, _) => p
  }

  function ApplyAll(p: Partial, fs: seq<Spaced>): Partial
    decreases |fs|
  {
    if fs == [] then p else ApplyAll(Apply(p, fs[0].field), fs[1..])
  }

  function ReportsOf(hits: seq<Hit>): seq<Report> {
    if hits == [] then []
    else
      Found(ApplyAll(NOTHING, hits[0].fields)) + ReportsOf(hits[1..])
  }

  // ---------- The scanner reads what the printer prints ----------

  lemma {:induction false} SkipOver(p: char -> bool, x: string, rest: string)
    requires forall i :: 0 <= i < |x| ==> p(x[i])
    ensures Skip(p, x + rest) == Skip(p, rest)
  {
    if x == "" {
      assert x + rest == rest;
    } else {
      assert (x + rest)[1..] == x[1..] + rest;
      SkipOver(p, x[1..], rest);
    }
  }

  lemma SkipGap(gap: string, rest: string)
    requires IsGap(gap)
    ensures SkipSpace(gap + rest) == SkipSpace(rest)
    ensures rest != "" && !IsSpace(rest[0]) ==> SkipSpace(gap + rest) == rest
  {
    SkipOver(IsSpace, gap, rest);
  }

  lemma {:induction false} SkipUnstructured(x: string, rest: string)
    requires forall i :: 0 <= i < |x| ==> Unstructured(x[i])
    requires rest != "" && !Unstructured(rest[0])
    ensures Skip(Unstructured, x + rest) == rest
    ensures Skip(Unstructured, SkipSpace(x + rest)) == rest
  {
    SkipOver(Unstructured, x, rest);
    if x != "" && IsSpace(x[0]) {
      assert (x + rest)[1..] == x[1..] + rest;
      SkipUnstructured(x[1..], rest);
    } else if x == "" {
      assert x + rest == rest;
      if IsSpace(rest[0]) {
        SpaceIsNoDigit(rest[0]);
      }
    }
  }

  lemma SkipQuoteFree(x: string, rest: string)
    requires '"' !in x
    ensures Skip(Unquoted, x + (['"'] + rest)) == ['"'] + rest
  {
    SkipOver(Unquoted, x, ['"'] + rest);
  }

  lemma DigitsStep(d: nat, rest: string, base: nat, acc: nat)
    requires (base == 10 || base == 16) && d < base
    requires (if base == 10 then acc * 10 else acc * 16) + d < U64_LIMIT
    ensures Digits([DigitChar(d)] + rest, base, acc) == Digits(rest, base, (if base == 10 then acc * 10 else acc * 16) + d)
  {
    DigitCharValue(d);
    assert ([DigitChar(d)] + rest)[1..] == rest;
  }

  lemma {:induction false} DigitsOfNumeral(n: nat, base: nat, rest: string)
    requires (base == 10 || base == 16) && n < U64_LIMIT
    ensures Digits(Numeral(n, base) + rest, base, 0) == Digits(rest, base, n)
  {
    hide Digits, DigitChar;
    var last := if base == 10 then n % 10 else n % 16;
    if n < base {
      DigitsStep(last, rest, base, 0);
    } else {
      var q := if base == 10 then n / 10 else n / 16;
      assert Numeral(n, base) + rest == Numeral(q, base) + ([DigitChar(last)] + rest);
      DigitsOfNumeral(q, base, [DigitChar(last)] + rest);
      DigitsStep(last, rest, base, q);
    }
  }

  predicate EndsNumber(rest: string, base: nat) {
    rest == "" || DigitValue(rest[0]) >= base
  }

  lemma DecimalRead(n: u64, rest: string)
    requires EndsNumber(rest, 10)
    ensures ParseDecimal(Numeral(n, 10) + rest) == n
  {
    var s := Numeral(n, 10) + rest;
    assert s[0] == Numeral(n, 10)[0];
    DigitsOfNumeral(n, 10, rest);
  }

  /** Digits read one after the other: the last one is the last step. */
  lemma {:induction false} DigitsSnoc(s: string, c: char, acc: nat)
    requires (forall i :: 0 <= i < |s| ==> DigitValue(s[i]) < 16) && DigitValue(c) < 16
    ensures Digits(s + [c], 16, acc) ==
            (var before, next := Digits(s, 16, acc), Digits(s, 16, acc) * 16 + DigitValue(c);
             if before == U64_LIMIT || next >= U64_LIMIT then U64_LIMIT else next)
  {
    if s == "" {
      assert "" + [c] == [c] && [c][1..] == "";
      assert Digits([c][1..], 16, 0) == 0;
    } else {
      assert (s + [c])[1..] == s[1..] + [c];
      var next := acc * 16 + DigitValue(s[0]);
      DigitsSnoc(s[1..], c, if acc == U64_LIMIT || next >= U64_LIMIT then U64_LIMIT else next);
    }
  }

  lemma {:induction false} DigitsAreNumber(s: string)
    requires forall i :: 0 <= i < |s| ==> DigitValue(s[i]) < 16
    ensures Digits(s, 16, 0) == if HexNumber(s) >= U64_LIMIT then U64_LIMIT else HexNumber(s)
  {
    if s != "" {
      var init, c := s[..|s| - 1], s[|s| - 1];
      assert s == init + [c];
      DigitsAreNumber(init);
      DigitsSnoc(init, c, 0);
    }
  }

  /** A pc is read from its digits in any spelling: either case, leading zeros, too large or not. */
  lemma HexRead(digits: string)
    requires IsHex(digits)
    ensures ParseHex("0x" + digits) == PcOf(digits)
  {
    hide Digits, HexNumber;
    assert ("0x" + digits)[2..] == digits && ("0x" + digits)[0] == '0' && ("0x" + digits)[1] == 'x';
    DigitsAreNumber(digits);
    DigitIsNoMark(digits[0]);
    assert SkipSpace(digits) == digits;
    if |digits| > 1 {
      DigitIsNoMark(digits[1]);
    }
  }

  lemma DigitIsNoMark(c: char)
    requires DigitValue(c) < 16
    ensures c != 'x' && c != 'X' && c != '-' && c != '+' && !IsSpace(c)
  {
  }

  /** The number some decimal digits stand for. */
  function DecimalNumber(digits: string): nat {
    if digits == "" then 0 else 10 * DecimalNumber(digits[..|digits| - 1]) + DigitValue(digits[|digits| - 1])
  }

  predicate IsDecimal(digits: string) {
    digits != "" && forall i :: 0 <= i < |digits| ==> '0' <= digits[i] <= '9'
  }

  lemma {:induction false} DecimalSnoc(s: string, c: char, acc: nat)
    requires (forall i :: 0 <= i < |s| ==> DigitValue(s[i]) < 10) && DigitValue(c) < 10
    ensures Digits(s + [c], 10, acc) ==
            (var before, next := Digits(s, 10, acc), Digits(s, 10, acc) * 10 + DigitValue(c);
             if before == U64_LIMIT || next >= U64_LIMIT then U64_LIMIT else next)
  {
    if s == "" {
      assert "" + [c] == [c] && [c][1..] == "";
      assert Digits([c][1..], 10, 0) == 0;
    } else {
      assert (s + [c])[1..] == s[1..] + [c];
      var next := acc * 10 + DigitValue(s[0]);
      DecimalSnoc(s[1..], c, if acc == U64_LIMIT || next >= U64_LIMIT then U64_LIMIT else next);
    }
  }

  lemma {:induction false} DecimalDigits(s: string)
    requires forall i :: 0 <= i < |s| ==> DigitValue(s[i]) < 10
    ensures Digits(s, 10, 0) == if DecimalNumber(s) >= U64_LIMIT then U64_LIMIT else DecimalNumber(s)
  {
    if s != "" {
      var init, c := s[..|s| - 1], s[|s| - 1];
      assert s == init + [c];
      DecimalDigits(init);
      DecimalSnoc(init, c, 0);
    }
  }

  lemma {:induction false} DigitsEnd(s: string, rest: string, base: nat, acc: nat)
    requires (base == 10 || base == 16) && EndsNumber(rest, base)
    ensures Digits(s + rest, base, acc) == Digits(s, base, acc)
  {
    hide DigitValue, IsSpace;
    if s == "" {
      assert s + rest == rest;
    } else {
      assert (s + rest)[1..] == s[1..] + rest && (s + rest)[0] == s[0];
      if DigitValue(s[0]) < base {
        var next := (if base == 10 then acc * 10 else acc * 16) + DigitValue(s[0]);
        DigitsEnd(s[1..], rest, base, if acc == U64_LIMIT || next >= U64_LIMIT then U64_LIMIT else next);
      }
    }
  }

  /**
   Any count: white space, a sign or none, digits, and whatever follows. A number too large is read as 2^64 - 1
   and a negative one as what it leaves of 2^64.
   */
  lemma CountIs(gap: string, sign: string, digits: string, rest: string)
    requires IsGap(gap) && sign in {"", "+", "-"} && IsDecimal(digits)
    requires rest == "" || !('0' <= rest[0] <= '9')
    ensures var n := DecimalNumber(digits);
            ParseDecimal(gap + (sign + (digits + rest))) == In64(n, sign == "-")
  {
    hide Digits, DecimalNumber;
    assert forall i :: 0 <= i < |digits| ==> DigitValue(digits[i]) < 10;
    DecimalDigits(digits);
    DigitsEnd(digits, rest, 10, 0);
    SignRead(gap, sign, digits, rest);
  }

  lemma SignRead(gap: string, sign: string, digits: string, rest: string)
    requires IsGap(gap) && sign in {"", "+", "-"} && digits != "" && DigitValue(digits[0]) < 16
    ensures Signed(SkipSpace(gap + (sign + (digits + rest)))) == (sign == "-", digits + rest)
  {
    var s := sign + (digits + rest);
    DigitIsNoMark(digits[0]);
    assert s[0] == if sign == "" then digits[0] else sign[0];
    SkipGap(gap, s);
    if sign == "" {
      assert s == digits + rest;
    } else {
      assert s[1..] == digits + rest;
    }
  }

  predicate IsPrefix(s: string) {
    s == "" || s == "0x" || s == "0X"
  }

  /** What a number is read as, in 64 bits. */
  function In64(n: nat, negative: bool): nat {
    if n >= 0x1_0000_0000_0000_0000 then 0xffff_ffff_ffff_ffff
    else if negative && n > 0 then 0x1_0000_0000_0000_0000 - n
    else n
  }

  lemma HexIs(gap: string, sign: string, prefix: string, digits: string)
    requires IsGap(gap) && sign in {"", "+", "-"} && IsPrefix(prefix)
    requires digits != "" && forall i :: 0 <= i < |digits| ==> DigitValue(digits[i]) < 16
    ensures StrToUnsigned(gap + (sign + (prefix + digits)), 16) == In64(HexNumber(digits), sign == "-")
  {
    hide Digits, HexNumber, SkipHexPrefix, SkipSpace, Signed, DigitValue, IsSpace;
    DigitsAreNumber(digits);
    PrefixSkipped(prefix, digits);
    SignRead(gap, sign, prefix + digits, "");
    assert (prefix + digits) + "" == prefix + digits;
  }

  lemma PrefixSkipped(prefix: string, digits: string)
    requires IsPrefix(prefix) && digits != "" && forall i :: 0 <= i < |digits| ==> DigitValue(digits[i]) < 16
    ensures SkipHexPrefix(prefix + digits) == digits
    ensures prefix + digits != "" && DigitValue((prefix + digits)[0]) < 16
  {
    if prefix == "" {
      assert prefix + digits == digits;
      if |digits| > 1 {
        DigitIsNoMark(digits[1]);
      }
    } else {
      assert (prefix + digits)[2..] == digits && (prefix + digits)[2] == digits[0];
    }
  }

  /** Any pc text: a prefix or none, white space, a sign or none, again a prefix or none, digits; 32 bits of it are kept. */
  lemma PcIs(prefix: string, gap: string, sign: string, again: string, digits: string)
    requires IsPrefix(prefix) && IsGap(gap) && sign in {"", "+", "-"} && IsPrefix(again)
    requires digits != "" && forall i :: 0 <= i < |digits| ==> DigitValue(digits[i]) < 16
    ensures ParseHex(prefix + (gap + (sign + (again + digits)))) == In64(HexNumber(digits), sign == "-") % 0x1_0000_0000
  {
    hide StrToUnsigned, HexNumber, In64, IsSpace;
    var rest := gap + (sign + (again + digits));
    HexIs(gap, sign, again, digits);
    if prefix != "" {
      assert (prefix + rest)[2..] == rest && (prefix + rest)[0] == '0';
    } else if gap == "" && sign == "" {
      HexIs("", "", "", digits);
      assert "" + digits == digits;
      assert prefix + rest == again + digits;
      PlainHex(again, digits);
    } else {
      assert prefix + rest == rest;
      NoPrefixHere(gap, sign, again + digits);
    }
  }

  lemma PlainHex(prefix: string, digits: string)
    requires IsPrefix(prefix) && digits != "" && forall i :: 0 <= i < |digits| ==> DigitValue(digits[i]) < 16
    ensures ParseHex(prefix + digits) == StrToUnsigned(digits, 16) % U32_LIMIT
  {
    hide StrToUnsigned;
    if prefix == "" {
      assert prefix + digits == digits;
      if |digits| > 1 {
        DigitIsNoMark(digits[1]);
      }
    } else {
      assert (prefix + digits)[2..] == digits;
    }
  }

  lemma NoPrefixHere(gap: string, sign: string, s: string)
    requires IsGap(gap) && sign in {"", "+", "-"} && (gap != "" || sign != "") && s != ""
    ensures (gap + (sign + s))[0] != '0'
  {
    if gap != "" {
      SpaceIsNoDigit(gap[0]);
    }
  }

  /** White space is a space or one of the five control characters from tab to carriage return. */
  lemma IsSpaceIs(c: char)
    ensures IsSpace(c) <==> c == ' ' || 9 <= c as int <= 13
  {
  }

  lemma PlainIs(raw: string)
    ensures Plain(raw) <==> ',' !in raw && '}' !in raw && ']' !in raw
  {
  }

  /** The value of a digit. */
  lemma DigitValueIs(c: char)
    ensures DigitValue(c) < 10 <==> '0' <= c <= '9'
    ensures DigitValue(c) < 16 <==> '0' <= c <= '9' || 'a' <= c <= 'f' || 'A' <= c <= 'F'
    ensures '0' <= c <= '9' ==> DigitValue(c) == c as int - 48
    ensures 'a' <= c <= 'f' ==> DigitValue(c) == c as int - 87
    ensures 'A' <= c <= 'F' ==> DigitValue(c) == c as int - 55
  {
  }

  /** Of a longer pc only the first 29 digits are read. */
  lemma LongPc(digits: string, rest: string, p: Partial)
    requires |digits| > 29 && forall i :: 0 <= i < |digits| ==> DigitValue(digits[i]) < 16
    ensures ScanValue("pc", ['"'] + (("0x" + digits) + (['"'] + rest)), p) ==
            (Partial(true, p.report.(pc := PcOf(digits[..29]))), rest)
  {
    hide ParseHex, PcOf;
    var text, s := "0x" + digits, ['"'] + (("0x" + digits) + (['"'] + rest));
    forall i | 0 <= i < |text| ensures text[i] != '"' {
      if i >= 2 {
        DigitIsUnstructured(digits[i - 2]);
      }
    }
    SkipQuoteFree(text, rest);
    assert s[1..] == text + (['"'] + rest) && s[1..|s| - |['"'] + rest|] == text;
    assert text[..31] == "0x" + digits[..29];
    HexRead(digits[..29]);
    assert (['"'] + rest)[1..] == rest;
  }

  lemma KeyRead(key: string, beforeColon: string, afterColon: string, rest: string)
    requires '"' !in key && IsGap(beforeColon) && IsGap(afterColon)
    ensures var s := key + (['"'] + (beforeColon + ([':'] + (afterColon + rest))));
            && KeyText(s) == Take(key, KEY_MAX) == (if |key| <= 15 then key else key[..15])
            && AfterKey(s) == SkipSpace(rest)
  {
    var after := beforeColon + ([':'] + (afterColon + rest));
    var s := key + (['"'] + after);
    SkipQuoteFree(key, after);
    assert s[..|key|] == key;
    assert (['"'] + after)[1..] == after;
    SkipGap(beforeColon, [':'] + (afterColon + rest));
    assert ([':'] + (afterColon + rest))[1..] == afterColon + rest;
    SkipGap(afterColon, rest);
  }

  /** Text that may follow a value: a comma or a closing brace. */
  predicate EndsField(rest: string) {
    rest != "" && (rest[0] == ',' || rest[0] == '}')
  }

  lemma UnknownKey(key: string)
    requires key != "pc" && key != "samples" && key != "cycles"
    ensures Take(key, KEY_MAX) != "pc" && Take(key, KEY_MAX) != "samples" && Take(key, KEY_MAX) != "cycles"
  {
  }

  lemma NumberThenGap(n: u64, gap: string, rest: string)
    requires IsGap(gap) && EndsField(rest)
    ensures var s := Numeral(n, 10) + (gap + rest);
            && SkipSpace(s) == s && ParseDecimal(s) == n && Skip(Unstructured, s) == rest
  {
    var d := Numeral(n, 10);
    assert EndsNumber(gap + rest, 10) by {
      if gap != "" {
        SpaceIsNoDigit(gap[0]);
      }
    }
    DecimalRead(n, gap + rest);
    assert (d + (gap + rest))[0] == d[0];
    forall i | 0 <= i < |d + gap|
      ensures Unstructured((d + gap)[i])
    {
      if i < |d| {
        DigitIsUnstructured(d[i]);
      }
    }
    SkipUnstructured(d + gap, rest);
    assert (d + gap) + rest == d + (gap + rest);
  }

  lemma SpaceIsNoDigit(c: char)
    requires IsSpace(c)
    ensures DigitValue(c) == 99 && Unstructured(c)
  {
  }

  lemma DigitIsUnstructured(c: char)
    requires DigitValue(c) < 16
    ensures Unstructured(c) && c != '"'
  {
  }

  lemma PcText(digits: string, rest: string)
    requires IsHex(digits)
    ensures var text := "0x" + digits;
            && '"' !in text && |text| <= PC_TEXT_MAX && Plain(text)
            && Skip(Unquoted, text + (['"'] + rest)) == ['"'] + rest
  {
    var text := "0x" + digits;
    forall i | 0 <= i < |text| ensures text[i] != '"' && Unstructured(text[i]) {
      if i >= 2 {
        DigitIsUnstructured(digits[i - 2]);
      }
    }
    SkipQuoteFree(text, rest);
  }

  /** After the value of a field the scanner stands at the spaces before the next separator, or past them. */
  lemma ValueRead(f: Field, p: Partial, gap: string, rest: string)
    requires IsField(f) && IsGap(gap) && EndsField(rest)
    ensures var (p', left) := ScanValue(Take(KeyOf(f), KEY_MAX), SkipSpace(ValueTo(f, gap + rest)), p);
            p' == Apply(p, f) && SkipSpace(left) == rest
  {
    hide ParseDecimal, ParseHex, Numeral, PcOf, IsHex;
    assert !IsSpace(rest[0]);
    match f
    case Pc(digits) =>
      var text := "0x" + digits;
      var s := ValueTo(f, gap + rest);
      PcText(digits, gap + rest);
      assert s[1..] == text + (['"'] + (gap + rest));
      assert s[1..|s| - |['"'] + (gap + rest)|] == text;
      HexRead(digits);
      assert (['"'] + (gap + rest))[1..] == gap + rest;
      SkipGap(gap, rest);
    case SampleCount(n) =>
      NumberThenGap(n, gap, rest);
    case CycleCount(n) =>
      NumberThenGap(n, gap, rest);
    case Other(key, raw) =>
      UnknownKey(key);
      assert raw + (gap + rest) == (raw + gap) + rest;
      GapIsUnstructured(gap);
      SkipUnstructured(raw + gap, rest);
  }

  lemma GapIsUnstructured(gap: string)
    requires IsGap(gap)
    ensures forall i :: 0 <= i < |gap| ==> Unstructured(gap[i])
  {
  }

  /** Leading spaces inside an object make no difference. */
  lemma ObjectAfterGap(gap: string, s: string, p: Partial)
    requires IsGap(gap) && s != "" && !IsSpace(s[0])
    ensures ScanObject(gap + s, p) == ScanObject(s, p)
  {
    SkipGap(gap, s);
    if gap == "" {
      assert gap + s == s;
    } else {
      assert (gap + s)[0] == gap[0];
    }
  }

  lemma FieldRead(f: Spaced, p: Partial, rest: string)
    requires IsSpaced(f) && EndsField(rest)
    ensures ScanObject(KeyedTo(f, rest), p) == ScanObject(SkipOne(rest, ','), Apply(p, f.field))
  {
    hide ScanValue, KeyText, AfterKey, ValueTo, Apply, Take, IsField;
    var key := KeyOf(f.field);
    var s := KeyedTo(f, rest);
    var value := ValueTo(f.field, f.after + rest);
    assert s[1..] == key + (['"'] + (f.beforeColon + ([':'] + (f.afterColon + value))));
    KeyOfField(f.field);
    KeyRead(key, f.beforeColon, f.afterColon, value);
    ValueRead(f.field, p, f.after, rest);
    assert SkipSpace(s) == s;
  }

  lemma KeyOfField(f: Field)
    requires IsField(f)
    ensures '"' !in KeyOf(f)
  {
  }

  lemma {:induction false} FieldsRead(fs: seq<Spaced>, p: Partial, tail: string)
    requires forall f :: f in fs ==> IsSpaced(f)
    ensures ScanObject(FieldsTo(fs, ['}'] + tail), p) == (ApplyAll(p, fs), ['}'] + tail)
    decreases |fs|
  {
    hide KeyedTo, IsField, IsGap, Apply;
    if fs != [] {
      var f := fs[0];
      assert f in fs;
      var more := if |fs| == 1 then ['}'] + tail else [','] + FieldsTo(fs[1..], ['}'] + tail);
      FieldStarts(f, more);
      ObjectAfterGap(f.before, KeyedTo(f, more), p);
      FieldRead(f, p, more);
      FieldsRead(fs[1..], Apply(p, f.field), tail);
      if |fs| == 1 {
        assert fs[1..] == [];
      } else {
        assert more[1..] == FieldsTo(fs[1..], ['}'] + tail);
      }
    }
  }

  lemma FieldStarts(f: Spaced, rest: string)
    ensures KeyedTo(f, rest) != "" && KeyedTo(f, rest)[0] == '"'
  {
  }

  /** A text in front of which white space makes no difference inside an object. */
  lemma ObjectAfterGaps(first: string, second: string, s: string, p: Partial)
    requires IsGap(first) && IsGap(second) && s != "" && !IsSpace(s[0])
    ensures ScanObject(first + (second + s), p) == ScanObject(second + s, p)
  {
    hide ScanObject;
    ObjectAfterGap(first + second, s, p);
    ObjectAfterGap(second, s, p);
    assert (first + second) + s == first + (second + s);
  }

  /** What stands before the first field is skipped with the white space after the brace. */
  lemma FieldsAfterGap(gap: string, fs: seq<Spaced>, tail: string, p: Partial)
    requires IsGap(gap) && forall f :: f in fs ==> IsSpaced(f)
    ensures ScanObject(gap + FieldsTo(fs, ['}'] + tail), p) == ScanObject(FieldsTo(fs, ['}'] + tail), p)
  {
    hide KeyedTo, IsField, ScanObject, IsGap;
    if fs == [] {
      ObjectAfterGap(gap, ['}'] + tail, p);
    } else {
      assert fs[0] in fs;
      var more := if |fs| == 1 then ['}'] + tail else [','] + FieldsTo(fs[1..], ['}'] + tail);
      FieldStarts(fs[0], more);
      ObjectAfterGaps(gap, fs[0].before, KeyedTo(fs[0], more), p);
    }
  }

  lemma HitRead(h: Hit, rest: string)
    requires IsHit(h)
    ensures ScanHits(HitTo(h, rest)) ==
            Found(ApplyAll(NOTHING, h.fields)) + ScanHits(h.after + rest)
  {
    hide FieldsTo, IsSpaced, ScanObject, ApplyAll;
    var inner := h.inside + FieldsTo(h.fields, ['}'] + (h.after + rest));
    var text := ['{'] + inner;
    FieldsAfterGap(h.inside, h.fields, h.after + rest, NOTHING);
    FieldsRead(h.fields, NOTHING, h.after + rest);
    HitsAfterGap(h.before, text);
    assert Skip(IsSeparator, text) == text && text[1..] == inner;
    assert (['}'] + (h.after + rest))[1..] == h.after + rest;
  }

  /** Scanning the hits of a complete packet gives the reports its objects stand for, in order. */
  lemma {:induction false} ObjectsRead(hits: seq<Hit>, tail: string)
    requires forall h :: h in hits ==> IsHit(h)
    ensures ScanHits(HitsTo(hits, tail)) == ReportsOf(hits)
  {
    hide HitTo, ScanObject, ApplyAll, IsSpaced;
    if hits != [] {
      var h := hits[0];
      assert h in hits;
      var more := if |hits| == 1 then [']'] + tail else [','] + HitsTo(hits[1..], tail);
      HitRead(h, more);
      HitsAfterGap(h.after, more);
      ObjectsRead(hits[1..], tail);
      if |hits| == 1 {
        assert hits[1..] == [];
      } else {
        assert more[1..] == HitsTo(hits[1..], tail);
      }
    }
  }

  lemma HitsAfterGap(gap: string, s: string)
    requires IsGap(gap)
    ensures ScanHits(gap + s) == ScanHits(s)
    ensures s != "" && s[0] == ',' ==> ScanHits(s) == ScanHits(s[1..])
  {
    SkipOver(IsSeparator, gap, s);
  }

  // ---------- Whole packets ----------

  /** White space around the hits key's colon and after the opening bracket. */
  datatype ArrayGaps = ArrayGaps(beforeColon: string, afterColon: string, inside: string)

  predicate AreGaps(g: ArrayGaps) {
    IsGap(g.beforeColon) && IsGap(g.afterColon) && IsGap(g.inside)
  }

  /** A packet: any header, the hits key, the array, and whatever follows. */
  function PacketText(head: string, g: ArrayGaps, hits: seq<Hit>, tail: string): string {
    ArrayText(head, g, HitsTo(hits, tail))
  }

  /** The same with any text in and behind the array. */
  function ArrayText(head: string, g: ArrayGaps, body: string): string {
    head + (HITS_MARK + (g.beforeColon + ([':'] + (g.afterColon + (['['] + (g.inside + body))))))
  }

  predicate Occurs(pattern: string, s: string, i: nat) {
    i <= |s| && pattern <= s[i..]
  }

  lemma {:induction false} FindFirst(s: string, pattern: string, i: nat)
    requires pattern != "" && i <= |s| && pattern <= s[i..]
    requires forall j :: 0 <= j < i ==> !(pattern <= s[j..])
    ensures Find(s, pattern) == i
  {
    if i == 0 {
      assert s[0..] == s;
    } else {
      assert s[0..] == s;
      assert s[1..][i - 1..] == s[i..];
      forall j | 0 <= j < i - 1 ensures !(pattern <= s[1..][j..]) {
        assert s[1..][j..] == s[j + 1..];
      }
      FindFirst(s[1..], pattern, i - 1);
    }
  }

  lemma {:induction false} FindBefore(s: string, pattern: string, i: nat)
    requires pattern != "" && i <= |s| && pattern <= s[i..]
    ensures Find(s, pattern) <= i
  {
    if i > 0 && !(pattern <= s) {
      assert s[1..][i - 1..] == s[i..];
      FindBefore(s[1..], pattern, i - 1);
    } else {
      assert s[0..] == s;
    }
  }

  lemma OpenBracket(g: ArrayGaps, rest: string)
    requires AreGaps(g)
    ensures var hits := HITS_MARK + (g.beforeColon + ([':'] + (g.afterColon + (['['] + rest))));
            var open := Find(hits, "[");
            open < |hits| && hits[open + 1..] == rest
  {
    var before := HITS_MARK + g.beforeColon + [':'] + g.afterColon;
    var hits := HITS_MARK + (g.beforeColon + ([':'] + (g.afterColon + (['['] + rest))));
    assert hits == before + (['['] + rest);
    BeforeBracket(g);
    forall j | 0 <= j < |before| ensures !("[" <= hits[j..]) {
      assert hits[j..][0] == before[j];
    }
    assert hits[|before|..] == ['['] + rest;
    FindFirst(hits, "[", |before|);
  }

  lemma BeforeBracket(g: ArrayGaps)
    requires AreGaps(g)
    ensures '[' !in HITS_MARK + g.beforeColon + [':'] + g.afterColon
  {
  }

  /**
   Parsing a packet yields exactly its hits, in order: with any white space, any unknown keys whose values
   have no comma or closing bracket, and the stream named anywhere in the line.
   */
  lemma PacketRead(head: string, g: ArrayGaps, hits: seq<Hit>, tail: string, mark: nat)
    requires AreGaps(g) && forall h :: h in hits ==> IsHit(h)
    requires Occurs(STREAM_MARK, PacketText(head, g, hits, tail), mark)
    requires forall j :: 0 <= j < |head| ==> !Occurs(HITS_MARK, PacketText(head, g, hits, tail), j)
    ensures PacketReports(PacketText(head, g, hits, tail)) == ReportsOf(hits)
  {
    hide HitsTo, ScanHits, IsHit, PacketReports, ArrayText, Occurs;
    ArrayFound(head, g, HitsTo(hits, tail), mark);
    ObjectsRead(hits, tail);
  }

  /** The array of a profiler line is found, and its text scanned, whatever it is. */
  lemma ArrayFound(head: string, g: ArrayGaps, body: string, mark: nat)
    requires AreGaps(g) && Occurs(STREAM_MARK, ArrayText(head, g, body), mark)
    requires forall j :: 0 <= j < |head| ==> !Occurs(HITS_MARK, ArrayText(head, g, body), j)
    ensures PacketReports(ArrayText(head, g, body)) == ScanHits(body)
  {
    hide ScanHits, Find, AreGaps, Occurs, PacketReports;
    var keyed := HITS_MARK + (g.beforeColon + ([':'] + (g.afterColon + (['['] + (g.inside + body)))));
    KeyFound(head, keyed);
    MarkFound(head + keyed, mark);
    OpenBracket(g, g.inside + body);
    ReportsBehind(head + keyed, keyed, g.inside + body);
    GapsAre(g);
    HitsAfterGap(g.inside, body);
  }

  lemma ReportsBehind(line: string, keyed: string, rest: string)
    requires Find(line, STREAM_MARK) < |line| && line[Find(line, HITS_MARK)..] == keyed
    requires Find(keyed, "[") < |keyed| && keyed[Find(keyed, "[") + 1..] == rest
    ensures PacketReports(line) == ScanHits(rest)
  {
    hide ScanHits, Find;
  }

  /** The hits key is found behind the header, which has none. */
  lemma KeyFound(head: string, keyed: string)
    requires HITS_MARK <= keyed && forall j :: 0 <= j < |head| ==> !Occurs(HITS_MARK, head + keyed, j)
    ensures Find(head + keyed, HITS_MARK) == |head| && (head + keyed)[|head|..] == keyed
  {
    hide Find;
    var line := head + keyed;
    assert line[|head|..] == keyed;
    forall j | 0 <= j < |head| ensures !(HITS_MARK <= line[j..]) {
      assert !Occurs(HITS_MARK, line, j);
    }
    FindFirst(line, HITS_MARK, |head|);
  }

  lemma MarkFound(line: string, mark: nat)
    requires Occurs(STREAM_MARK, line, mark)
    ensures Find(line, STREAM_MARK) < |line|
  {
    hide Find;
    FindBefore(line, STREAM_MARK, mark);
    MarkIsInside(line, mark);
  }

  lemma MarkIsInside(line: string, mark: nat)
    requires Occurs(STREAM_MARK, line, mark)
    ensures mark < |line|
  {
  }

  lemma GapsAre(g: ArrayGaps)
    requires AreGaps(g)
    ensures IsGap(g.inside)
  {
  }
}
