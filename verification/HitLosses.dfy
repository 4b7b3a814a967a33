/** What strings with a comma or a closing bracket in them cost: which fields and hits the scanner then misses. */
module HitLosses {
  import opened HitStrings
  import opened HitText
  import opened ProfileMap

  // ---------- The string and the field after it ----------

  lemma {:induction false} StraysInside(x: string, s: string, p: Partial)
    requires '"' !in x && '}' !in x
    ensures ScanObject(x + s, p) == ScanObject(s, p)
  {
    hide ScanObject;
    if x == "" {
      assert x + s == s;
    } else {
      assert x + s == [x[0]] + (x[1..] + s);
      StrayInside(x[0], x[1..] + s, p);
      StraysInside(x[1..], s, p);
    }
  }

  /** A string that breaks its field without ending the object. */
  predicate Spills(f: Field) {
    Breaks(f) && '}' !in BodyOf(f.raw)
  }

  /** Wherever it stands, such a string is dropped, and the field after it as well. */
  lemma StringDropsNext(name: Spaced, next: Spaced, rest: string, p: Partial)
    requires Spills(name.field) && IsOtherKey(name.field.key) && HasGaps(name)
    requires IsItem(next.field) && !Breaks(next.field) && HasGaps(next) && EndsField(rest)
    ensures ScanObject(KeyedTo(name, [','] + (next.before + KeyedTo(next, rest))), p) == ScanObject(SkipOne(rest, ','), p)
  {
    hide ScanObject, AfterSwallow, KeyedTo, Leftover, IsItem, IsGap, SkipOne;
    var text := KeyedTo(next, rest);
    var more := [','] + (next.before + text);
    var v := Leftover(BodyOf(name.field.raw));
    BrokenInside(name, p, more);
    LeftoverIsEnd(BodyOf(name.field.raw));
    StraysInside(v, ['"'] + (name.after + more), p);
    Closing(name.after, more, p);
    GapIsPlain(name.after);
    GapIsPlain(next.before);
    var x := name.after + [','] + next.before;
    assert name.after + more == x + text;
    SwallowMore(x, text);
    UnbrokenRead(next, p, rest);
    CommaInside(rest, p);
  }

  lemma Closing(after: string, rest: string, p: Partial)
    requires IsGap(after) && rest != "" && rest[0] == ','
    ensures ScanObject(['"'] + (after + rest), p) == ScanObject(AfterSwallow(after + rest), p)
  {
    hide ScanObject, AfterSwallow;
    var s := after + rest;
    assert after != "" ==> s[0] == after[0];
    QuoteInside(s, p);
  }

  lemma NoReports()
    ensures var none: seq<Report> := []; none + none == none
  {
  }

  // ---------- Fields without a broken string ----------

  predicate Unbroken(fs: seq<Spaced>) {
    forall i :: 0 <= i < |fs| ==> !Breaks(fs[i].field)
  }

  lemma {:induction false} UnbrokenSeen(p: Partial, fs: seq<Spaced>)
    requires Unbroken(fs)
    ensures FieldsSeen(Inside(p), fs) == (Inside(ApplyAll(p, fs)), [])
    decreases |fs|
  {
    hide Breaks, Apply;
    if fs != [] {
      UnbrokenSeen(Apply(p, fs[0].field), fs[1..]);
      assert FieldSeen(Inside(p), fs[0].field) == (Inside(Apply(p, fs[0].field)), []);
      NoReports();
    }
  }

  lemma {:induction false} FieldsJoin(m: Mode, a: seq<Spaced>, b: seq<Spaced>)
    ensures var (m1, r1) := FieldsSeen(m, a);
            var (m2, r2) := FieldsSeen(m1, b);
            FieldsSeen(m, a + b) == (m2, r1 + r2)
    decreases |a|
  {
    hide FieldSeen;
    if a == [] {
      assert a + b == b;
      assert [] + FieldsSeen(m, b).1 == FieldsSeen(m, b).1;
    } else {
      var (m1, r1) := FieldSeen(m, a[0].field);
      FieldsJoin(m1, a[1..], b);
      assert (a + b)[1..] == a[1..] + b;
      var (m2, r2) := FieldsSeen(m1, a[1..]);
      assert r1 + (r2 + FieldsSeen(m2, b).1) == (r1 + r2) + FieldsSeen(m2, b).1;
    }
  }

  lemma {:induction false} ApplyJoin(p: Partial, a: seq<Spaced>, b: seq<Spaced>)
    ensures ApplyAll(p, a + b) == ApplyAll(ApplyAll(p, a), b)
    decreases |a|
  {
    if a == [] {
      assert a + b == b;
    } else {
      assert (a + b)[1..] == a[1..] + b;
      ApplyJoin(Apply(p, a[0].field), a[1..], b);
    }
  }

  lemma {:induction false} StaysInside(p: Partial, v: string)
    requires '}' !in v
    ensures Walk(Inside(p), v) == (Inside(p), [])
  {
    if v != "" {
      StaysInside(p, v[1..]);
      NoReports();
    }
  }

  lemma SpillSeen(p: Partial, f: Field)
    requires Spills(f)
    ensures FieldSeen(Inside(p), f) == (Swallowing(p), [])
  {
    hide Leftover;
    LeftoverIsEnd(BodyOf(f.raw));
    StaysInside(p, Leftover(BodyOf(f.raw)));
  }

  lemma OneField(m: Mode, f: Spaced)
    ensures FieldsSeen(m, [f]) == FieldSeen(m, f.field)
  {
    hide FieldSeen;
    assert FieldSeen(m, f.field).1 + [] == FieldSeen(m, f.field).1;
  }

  /** The fields a broken string at k leaves: all but itself and the next. */
  function Without(fs: seq<Spaced>, k: nat): seq<Spaced>
    requires k + 1 < |fs|
  {
    fs[..k] + fs[k + 2..]
  }

  predicate SpillsAt(fs: seq<Spaced>, k: nat) {
    k < |fs| && Spills(fs[k].field) && forall i :: 0 <= i < |fs| && i != k ==> !Breaks(fs[i].field)
  }

  lemma SpillInFields(p: Partial, fs: seq<Spaced>, k: nat)
    requires SpillsAt(fs, k) && k + 1 < |fs|
    ensures FieldsSeen(Inside(p), fs) == (Inside(ApplyAll(p, Without(fs, k))), [])
  {
    hide FieldsSeen, Spills, Breaks, ApplyAll;
    var a, pair, b, q := fs[..k], [fs[k], fs[k + 1]], fs[k + 2..], ApplyAll(p, fs[..k]);
    UnbrokenSeen(p, a);
    PairSeen(q, fs[k], fs[k + 1]);
    UnbrokenSeen(q, b);
    FieldsJoin(Inside(q), pair, b);
    FieldsJoin(Inside(p), a, pair + b);
    assert fs == a + (pair + b);
    ApplyJoin(p, a, b);
    NoReports();
  }

  lemma PairSeen(p: Partial, name: Spaced, next: Spaced)
    requires Spills(name.field) && !Breaks(next.field)
    ensures FieldsSeen(Inside(p), [name, next]) == (Inside(p), [])
  {
    hide FieldsSeen, Spills, Breaks;
    SpillSeen(p, name.field);
    OneField(Inside(p), name);
    NextSwallowed(p, next.field);
    OneField(Swallowing(p), next);
    FieldsJoin(Inside(p), [name], [next]);
    assert [name] + [next] == [name, next];
    NoReports();
  }

  lemma NextSwallowed(p: Partial, f: Field)
    requires !Breaks(f)
    ensures FieldSeen(Swallowing(p), f) == (Inside(p), [])
  {
  }

  // ---------- Hits around it ----------

  predicate AllUnbroken(hits: seq<Hit>) {
    forall i :: 0 <= i < |hits| ==> Unbroken(hits[i].fields)
  }

  lemma HitInside(h: Hit, p: Partial)
    requires FieldsSeen(Inside(NOTHING), h.fields) == (Inside(p), [])
    ensures HitSeen(Outside, h) == (Outside, Found(p))
  {
    assert [] + Found(p) == Found(p);
  }

  lemma {:induction false} UnbrokenHits(hits: seq<Hit>)
    requires AllUnbroken(hits)
    ensures HitsSeen(Outside, hits) == (Outside, ReportsOf(hits))
    decreases |hits|
  {
    hide HitSeen, Unbroken, FieldsSeen, ApplyAll;
    if hits != [] {
      UnbrokenSeen(NOTHING, hits[0].fields);
      HitInside(hits[0], ApplyAll(NOTHING, hits[0].fields));
      UnbrokenHits(hits[1..]);
    }
  }

  lemma {:induction false} HitsJoin(m: Mode, a: seq<Hit>, b: seq<Hit>)
    ensures var (m1, r1) := HitsSeen(m, a);
            var (m2, r2) := HitsSeen(m1, b);
            HitsSeen(m, a + b) == (m2, r1 + r2)
    decreases |a|
  {
    hide HitSeen;
    if a == [] {
      assert a + b == b;
      assert [] + HitsSeen(m, b).1 == HitsSeen(m, b).1;
    } else {
      var (m1, r1) := HitSeen(m, a[0]);
      HitsJoin(m1, a[1..], b);
      assert (a + b)[1..] == a[1..] + b;
      var (m2, r2) := HitsSeen(m1, a[1..]);
      assert r1 + (r2 + HitsSeen(m2, b).1) == (r1 + r2) + HitsSeen(m2, b).1;
    }
  }

  lemma {:induction false} ReportsJoin(a: seq<Hit>, b: seq<Hit>)
    ensures ReportsOf(a + b) == ReportsOf(a) + ReportsOf(b)
  {
    hide ApplyAll;
    if a == [] {
      assert a + b == b;
    } else {
      assert (a + b)[1..] == a[1..] + b;
      ReportsJoin(a[1..], b);
    }
  }

  /** Hits between others that have no broken string. */
  lemma Between(a: seq<Hit>, hits: seq<Hit>, b: seq<Hit>, r: seq<Report>, tail: string)
    requires AreItemHits(a) && AreItemHits(hits) && AreItemHits(b) && AllUnbroken(a) && AllUnbroken(b)
    requires HitsSeen(Outside, hits) == (Outside, r)
    ensures ScanHits(HitsTo(a + (hits + b), tail)) == ReportsOf(a) + (r + ReportsOf(b))
  {
    hide ScanHits, HitsSeen, HitsTo, IsItemHit, Unbroken, ReportsOf;
    UnbrokenHits(a);
    UnbrokenHits(b);
    HitsJoin(Outside, hits, b);
    HitsJoin(Outside, a, hits + b);
    SeenRead(a + (hits + b), tail);
    assert ReportsOf(a) + (r + ReportsOf(b)) + [] == ReportsOf(a) + (r + ReportsOf(b));
  }

  lemma OneHit(h: Hit)
    ensures HitsSeen(Outside, [h]) == HitSeen(Outside, h) && ReportsOf([h]) == Found(ApplyAll(NOTHING, h.fields))
  {
    hide HitSeen, ApplyAll;
    assert [h][1..] == [] && HitsSeen(HitSeen(Outside, h).0, []).1 == [] && ReportsOf([h][1..]) == [];
    assert HitSeen(Outside, h).1 + [] == HitSeen(Outside, h).1;
  }

  /**
   A hit with one such string that is not its last field is reported without that string and the field after
   it, and all other hits as they are: so the array is read right if and only if the hit says the same without them.
   */
  lemma SpilledHitRead(a: seq<Hit>, h: Hit, b: seq<Hit>, k: nat, tail: string)
    requires AreItemHits(a) && IsItemHit(h) && AreItemHits(b) && AllUnbroken(a) && AllUnbroken(b)
    requires SpillsAt(h.fields, k) && k + 1 < |h.fields|
    ensures ScanHits(HitsTo(a + ([h] + b), tail)) ==
            ReportsOf(a) + (Found(ApplyAll(NOTHING, Without(h.fields, k))) + ReportsOf(b))
    ensures ScanHits(HitsTo(a + ([h] + b), tail)) == ReportsOf(a + ([h] + b)) <==>
            Found(ApplyAll(NOTHING, Without(h.fields, k))) == Found(ApplyAll(NOTHING, h.fields))
  {
    hide ScanHits, HitsSeen, HitSeen, HitsTo, IsItemHit, Unbroken, ReportsOf, SpillsAt, FieldsSeen, ApplyAll;
    var seen := ApplyAll(NOTHING, Without(h.fields, k));
    SpillInFields(NOTHING, h.fields, k);
    HitInside(h, seen);
    OneHit(h);
    Between(a, [h], b, Found(seen), tail);
    ReportsJoin([h], b);
    ReportsJoin(a, [h] + b);
    SameMiddle(ReportsOf(a), Found(seen), ReportsOf([h]), ReportsOf(b));
  }

  lemma SameMiddle(a: seq<Report>, x: seq<Report>, y: seq<Report>, b: seq<Report>)
    requires |x| <= 1 && |y| <= 1
    ensures a + (x + b) == a + (y + b) <==> x == y
  {
    if a + (x + b) == a + (y + b) {
      assert |a + (x + b)| == |a| + |x| + |b| && |a + (y + b)| == |a| + |y| + |b|;
      assert x != [] ==> (a + (x + b))[|a|] == x[0];
      assert y != [] ==> (a + (y + b))[|a|] == y[0];
    }
  }

  // ---------- When nothing is missed ----------

  predicate SameKind(f: Field, g: Field) {
    (f.Pc? && g.Pc?) || (f.SampleCount? && g.SampleCount?) || (f.CycleCount? && g.CycleCount?)
  }

  /** No key the scanner knows occurs twice. */
  predicate OneOfEach(fs: seq<Spaced>) {
    forall i, j :: 0 <= i < j < |fs| ==> !SameKind(fs[i].field, fs[j].field)
  }

  predicate HasPc(fs: seq<Spaced>) {
    exists i :: 0 <= i < |fs| && fs[i].field.Pc?
  }

  /** The hit says the same without this field. */
  predicate IsIdle(f: Field, hit: seq<Spaced>) {
    match f
    case Pc(_) => false
    case SampleCount(n) => n == 0 || !HasPc(hit)
    case CycleCount(n) => n == 0 || !HasPc(hit)
    case Other(_, _) => true
  }

  predicate NoneLike(f: Field, fs: seq<Spaced>) {
    forall i :: 0 <= i < |fs| ==> !SameKind(f, fs[i].field)
  }

  lemma {:induction false} ApplyLater(p: Partial, f: Field, fs: seq<Spaced>)
    requires NoneLike(f, fs)
    ensures ApplyAll(Apply(p, f), fs) == Apply(ApplyAll(p, fs), f)
    decreases |fs|
  {
    hide PcOf;
    if fs != [] {
      var g := fs[0].field;
      assert !SameKind(f, g);
      assert Apply(Apply(p, f), g) == Apply(Apply(p, g), f);
      ApplyLater(Apply(p, g), f, fs[1..]);
    }
  }

  lemma {:induction false} ApplyFields(p: Partial, fs: seq<Spaced>)
    ensures var q := ApplyAll(p, fs);
            && (q.hasPc <==> p.hasPc || HasPc(fs))
            && (NoneLike(SampleCount(0), fs) ==> q.report.samples == p.report.samples)
            && (NoneLike(CycleCount(0), fs) ==> q.report.cycles == p.report.cycles)
    decreases |fs|
  {
    hide PcOf;
    if fs != [] {
      ApplyFields(Apply(p, fs[0].field), fs[1..]);
      assert HasPc(fs) <==> fs[0].field.Pc? || HasPc(fs[1..]) by {
        PcIsFirstOrLater(fs);
      }
    }
  }

  lemma PcIsFirstOrLater(fs: seq<Spaced>)
    requires fs != []
    ensures HasPc(fs) <==> fs[0].field.Pc? || HasPc(fs[1..])
  {
    if i :| 0 < i < |fs| && fs[i].field.Pc? {
      assert fs[1..][i - 1].field.Pc?;
    }
  }

  lemma WithoutIsPart(fs: seq<Spaced>, k: nat)
    requires k + 1 < |fs| && OneOfEach(fs) && fs[k].field.Other?
    ensures NoneLike(fs[k + 1].field, Without(fs, k))
    ensures HasPc(fs) <==> HasPc(Without(fs, k)) || fs[k + 1].field.Pc?
  {
    var w := Without(fs, k);
    forall i | 0 <= i < |w| ensures !SameKind(fs[k + 1].field, w[i].field) && (w[i].field.Pc? ==> HasPc(fs)) {
      var j := if i < k then i else i + 2;
      assert w[i] == fs[j];
      if j < k + 1 {
        assert !SameKind(fs[j].field, fs[k + 1].field);
      }
    }
    if i :| 0 <= i < |fs| && fs[i].field.Pc? {
      if i < k {
        assert w[i].field.Pc?;
      } else if i > k + 1 {
        assert w[i - 2].field.Pc?;
      }
    }
  }

  /**
   When no known key occurs twice, the exact condition is on the field after the string: a key the scanner
   does not know, a count of 0, or any count in a hit without a pc.
   */
  lemma MissedIffNotIdle(fs: seq<Spaced>, k: nat)
    requires SpillsAt(fs, k) && k + 1 < |fs| && OneOfEach(fs)
    ensures Found(ApplyAll(NOTHING, Without(fs, k))) == Found(ApplyAll(NOTHING, fs)) <==> IsIdle(fs[k + 1].field, fs)
  {
    hide ApplyAll, OneOfEach, HasPc, PcOf, Without, Spills;
    var w, f := Without(fs, k), fs[k + 1].field;
    var q := ApplyAll(NOTHING, w);
    SpillIsOther(fs[k].field);
    WithoutIsPart(fs, k);
    ApplyFields(NOTHING, w);
    NoneLikeCounts(f, w);
    ApplyDropped(fs, k);
    SameIffIdle(q, f, fs);
  }

  lemma NoneLikeCounts(f: Field, fs: seq<Spaced>)
    requires NoneLike(f, fs)
    ensures f.SampleCount? ==> NoneLike(SampleCount(0), fs)
    ensures f.CycleCount? ==> NoneLike(CycleCount(0), fs)
    ensures f.Pc? ==> !HasPc(fs)
  {
    forall i | 0 <= i < |fs| ensures !SameKind(f, fs[i].field) {
    }
  }

  lemma SameIffIdle(q: Partial, f: Field, hit: seq<Spaced>)
    requires f.Pc? ==> !q.hasPc
    requires f.SampleCount? ==> q.report.samples == 0 && (q.hasPc <==> HasPc(hit))
    requires f.CycleCount? ==> q.report.cycles == 0 && (q.hasPc <==> HasPc(hit))
    ensures Found(q) == Found(Apply(q, f)) <==> IsIdle(f, hit)
  {
    hide HasPc, PcOf;
    var after := Apply(q, f);
    assert q.hasPc ==> Found(q) == [q.report];
    assert after.hasPc ==> Found(after) == [after.report];
    if q.hasPc && after.hasPc {
      assert Found(q) == Found(after) <==> q.report == after.report by {
        assert Found(q)[0] == q.report && Found(after)[0] == after.report;
      }
    }
  }

  lemma ApplyDropped(fs: seq<Spaced>, k: nat)
    requires k + 1 < |fs| && fs[k].field.Other? && NoneLike(fs[k + 1].field, Without(fs, k))
    ensures ApplyAll(NOTHING, fs) == Apply(ApplyAll(NOTHING, Without(fs, k)), fs[k + 1].field)
  {
    hide ApplyAll, Apply, SameKind;
    var a, pair, b, f := fs[..k], [fs[k], fs[k + 1]], fs[k + 2..], fs[k + 1].field;
    var q := ApplyAll(NOTHING, a);
    assert fs == a + (pair + b);
    ApplyJoin(NOTHING, a, pair + b);
    ApplyJoin(q, pair, b);
    PairApplied(q, fs[k], fs[k + 1]);
    ApplyJoin(NOTHING, a, b);
    forall i | 0 <= i < |b| ensures !SameKind(f, b[i].field) {
      assert Without(fs, k)[k + i] == b[i];
    }
    ApplyLater(q, f, b);
  }

  lemma PairApplied(p: Partial, name: Spaced, next: Spaced)
    requires name.field.Other?
    ensures ApplyAll(p, [name, next]) == Apply(p, next.field)
  {
    hide Apply;
    assert [name, next][1..] == [next] && [next][1..] == [];
    assert Apply(p, name.field) == p by {
      OtherApplied(p, name.field);
    }
    assert ApplyAll(p, [next]) == ApplyAll(Apply(p, next.field), []);
  }

  lemma OtherApplied(p: Partial, f: Field)
    requires f.Other?
    ensures Apply(p, f) == p
  {
  }

  // ---------- A string at the end of a hit ----------

  /** Nothing more of the array is reported from here on, unless another hit begins. */
  predicate Past(m: Mode) {
    m == Outside || m == Finished || m == Inside(NOTHING)
  }

  lemma {:induction false} WalkPast(m: Mode, v: string)
    requires Past(m)
    ensures Past(Walk(m, v).0) && Walk(m, v).1 == []
    decreases |v|
  {
    if v != "" {
      WalkPast(WalkChar(m, v[0]).0, v[1..]);
    }
  }

  /** A text without quotes reports the object it is in at most once. */
  lemma {:induction false} WalkInside(p: Partial, v: string)
    ensures var (m, r) := Walk(Inside(p), v);
            (m == Inside(p) && r == []) || (Past(m) && r == Found(p))
    decreases |v|
  {
    if v != "" {
      if v[0] == '}' {
        WalkPast(Outside, v[1..]);
        assert Found(p) + [] == Found(p);
      } else {
        WalkInside(p, v[1..]);
        assert Walk(Inside(p), v).1 == [] + Walk(Inside(p), v[1..]).1 == Walk(Inside(p), v[1..]).1;
      }
    }
  }

  lemma BrokenLast(p: Partial, f: Field)
    requires Breaks(f)
    ensures var (m, r) := BrokenSeen(p, f);
            !m.Inside? && r + (if m.Swallowing? then Found(m.p) else []) == Found(p)
  {
    hide Leftover, Walk;
    WalkInside(p, Leftover(BodyOf(f.raw)));
    assert Found(p) + [] == Found(p) && [] + Found(p) == Found(p);
  }

  /** The last field of the last hit may be any string: everything before it is read right. */
  lemma LastStringIsHarmless(a: seq<Hit>, h: Hit, tail: string)
    requires AreItemHits(a) && AllUnbroken(a) && IsItemHit(h) && '"' !in tail
    requires h.fields != [] && Unbroken(h.fields[..|h.fields| - 1]) && Breaks(h.fields[|h.fields| - 1].field)
    ensures ScanHits(HitsTo(a + [h], tail)) == ReportsOf(a + [h])
  {
    hide ScanHits, HitsTo, HitsSeen, HitSeen, IsItemHit, Unbroken, Breaks, ReportsOf, ApplyAll, BrokenSeen;
    LastFieldSeen(h);
    UnbrokenHits(a);
    OneHit(h);
    HitsJoin(Outside, a, [h]);
    ReportsJoin(a, [h]);
    SeenRead(a + [h], tail);
    var (m, r) := HitSeen(Outside, h);
    assert (ReportsOf(a) + r) + (if m.Swallowing? then Found(m.p) else []) ==
           ReportsOf(a) + (r + if m.Swallowing? then Found(m.p) else []);
  }

  lemma LastFieldSeen(h: Hit)
    requires h.fields != [] && Unbroken(h.fields[..|h.fields| - 1]) && Breaks(h.fields[|h.fields| - 1].field)
    ensures var (m, r) := HitSeen(Outside, h);
            r + (if m.Swallowing? then Found(m.p) else []) == Found(ApplyAll(NOTHING, h.fields))
  {
    hide ApplyAll, BrokenSeen, FieldsSeen, Unbroken;
    var n := |h.fields| - 1;
    var good, f := h.fields[..n], h.fields[n];
    var p := ApplyAll(NOTHING, good);
    assert h.fields == good + [f];
    UnbrokenSeen(NOTHING, good);
    FieldsJoin(Inside(NOTHING), good, [f]);
    OneField(Inside(p), f);
    BrokenLast(p, f.field);
    ApplyLast(good, f);
    var (m, r) := BrokenSeen(p, f.field);
    assert FieldsSeen(Inside(NOTHING), h.fields) == (m, r) by {
      assert [] + r == r;
    }
    assert r + [] == r;
  }

  lemma ApplyLast(fs: seq<Spaced>, f: Spaced)
    requires f.field.Other?
    ensures ApplyAll(NOTHING, fs + [f]) == ApplyAll(NOTHING, fs)
  {
    ApplyJoin(NOTHING, fs, [f]);
    assert [f][1..] == [] && ApplyAll(Apply(ApplyAll(NOTHING, fs), f.field), []) == ApplyAll(NOTHING, fs);
  }

  /**
   Such a string at the end of a hit that another follows makes one hit of the two: the first field of the
   other is dropped, and the rest of it is taken for part of the first.
   */
  lemma StringJoinsHits(a: seq<Hit>, h: Hit, next: Hit, b: seq<Hit>, tail: string)
    requires AreItemHits(a) && IsItemHit(h) && IsItemHit(next) && AreItemHits(b)
    requires AllUnbroken(a) && Unbroken(next.fields) && AllUnbroken(b) && next.fields != []
    requires h.fields != [] && SpillsAt(h.fields, |h.fields| - 1)
    ensures ScanHits(HitsTo(a + ([h, next] + b), tail)) ==
            ReportsOf(a) + (Found(ApplyAll(NOTHING, h.fields + next.fields[1..])) + ReportsOf(b))
  {
    hide ScanHits, HitsTo, HitsSeen, HitSeen, IsItemHit, Unbroken, SpillsAt, ReportsOf, ApplyAll;
    var seen := ApplyAll(NOTHING, h.fields + next.fields[1..]);
    JoinedSeen(h, next);
    TwoHits(h, next);
    assert [] + Found(seen) == Found(seen);
    Between(a, [h, next], b, Found(seen), tail);
  }

  lemma TwoHits(h: Hit, next: Hit)
    ensures HitsSeen(Outside, [h, next]) ==
            (HitSeen(HitSeen(Outside, h).0, next).0, HitSeen(Outside, h).1 + HitSeen(HitSeen(Outside, h).0, next).1)
  {
    hide HitSeen;
    var (m, r) := HitSeen(Outside, h);
    assert [h, next][1..] == [next] && [next][1..] == [];
    assert HitSeen(m, next).1 + [] == HitSeen(m, next).1;
    assert HitsSeen(m, [next]) == HitSeen(m, next);
  }

  lemma JoinedSeen(h: Hit, next: Hit)
    requires h.fields != [] && SpillsAt(h.fields, |h.fields| - 1) && Unbroken(next.fields) && next.fields != []
    ensures var p := ApplyAll(NOTHING, h.fields);
            HitSeen(Outside, h) == (Swallowing(p), []) &&
            HitSeen(Swallowing(p), next) == (Outside, Found(ApplyAll(NOTHING, h.fields + next.fields[1..])))
  {
    hide ApplyAll, FieldsSeen, FieldSeen, Spills, Breaks;
    var n := |h.fields| - 1;
    var good, f := h.fields[..n], h.fields[n];
    var p := ApplyAll(NOTHING, good);
    assert h.fields == good + [f];
    UnbrokenSeen(NOTHING, good);
    FieldsJoin(Inside(NOTHING), good, [f]);
    OneField(Inside(p), f);
    SpillSeen(p, f.field);
    SpillIsOther(f.field);
    ApplyLast(good, f);
    NoReports();
    var g, more := next.fields[0], next.fields[1..];
    assert next.fields == [g] + more;
    OneField(Swallowing(p), g);
    NextSwallowed(p, g.field);
    UnbrokenSeen(p, more);
    FieldsJoin(Swallowing(p), [g], more);
    ApplyJoin(NOTHING, h.fields, more);
    assert [] + Found(ApplyAll(p, more)) == Found(ApplyAll(p, more));
  }

  lemma SpillIsOther(f: Field)
    requires Spills(f)
    ensures f.Other?
  {
  }

  // ---------- A string at the beginning of a hit ----------

  predicate IsCount(f: Spaced) {
    (f.field.SampleCount? || f.field.CycleCount?) && HasGaps(f)
  }

  /** A hit whose first field is an unknown key with a string, the second its pc, the others counts. */
  predicate StartsWithString(h: Hit, key: string, body: string) {
    && IsGap(h.before) && IsGap(h.inside) && IsGap(h.after)
    && |h.fields| >= 2
    && h.fields[0].field == Other(key, Quoted(body)) && HasGaps(h.fields[0]) && IsOtherKey(key) && '"' !in body
    && h.fields[1].field.Pc? && IsSpaced(h.fields[1])
    && forall i :: 2 <= i < |h.fields| ==> IsCount(h.fields[i])
  }

  /**
   Whatever is in the string, a closing brace as well: the hit is reported if the string has no comma and no
   closing brace or bracket, and lost otherwise.
   */
  lemma StringReadIffPlain(h: Hit, key: string, body: string, tail: string)
    requires StartsWithString(h, key, body)
    ensures ScanHits(HitsTo([h], tail)) == if Plain(body) then ReportsOf([h]) else []
    ensures |ReportsOf([h])| == 1 && ReportsOf([h])[0].pc == PcOf(h.fields[1].field.digits)
  {
    hide ScanHits, HitsTo, IsGap, IsCount, ReportsOf;
    StringHitReports(h, key, body);
    if Plain(body) {
      StringIsField(h, key, body);
      ObjectsRead([h], tail);
    } else {
      StringIsLost(h, key, body, tail);
    }
  }

  lemma QuotedIsString(body: string)
    requires '"' !in body
    ensures IsString(Quoted(body)) && BodyOf(Quoted(body)) == body
  {
  }

  lemma {:induction false} CountsKeepPc(p: Partial, fs: seq<Spaced>)
    requires forall i :: 0 <= i < |fs| ==> IsCount(fs[i])
    ensures var q := ApplyAll(p, fs); q.hasPc == p.hasPc && q.report.pc == p.report.pc
    decreases |fs|
  {
    if fs != [] {
      CountsKeepPc(Apply(p, fs[0].field), fs[1..]);
    }
  }

  lemma StringHitReports(h: Hit, key: string, body: string)
    requires StartsWithString(h, key, body)
    ensures |ReportsOf([h])| == 1 && ReportsOf([h])[0].pc == PcOf(h.fields[1].field.digits)
  {
    hide PcOf, IsGap;
    var fs := h.fields;
    assert fs[1..][1..] == fs[2..];
    var p := Apply(Apply(NOTHING, fs[0].field), fs[1].field);
    assert ApplyAll(NOTHING, fs) == ApplyAll(p, fs[2..]);
    CountsKeepPc(p, fs[2..]);
    assert [h][1..] == [] && ReportsOf([]) == [];
  }

  lemma StringIsField(h: Hit, key: string, body: string)
    requires StartsWithString(h, key, body) && Plain(body)
    ensures IsHit(h)
  {
    hide IsGap;
    assert Plain(Quoted(body));
    forall i | 0 <= i < |h.fields| ensures IsSpaced(h.fields[i]) {
      assert i >= 2 ==> IsCount(h.fields[i]);
    }
  }

  /** The pc and the counts behind the string are items. */
  lemma OthersAreItems(h: Hit, key: string, body: string)
    requires StartsWithString(h, key, body)
    ensures AreItems(h.fields[1..]) && Unbroken(h.fields[1..])
  {
    hide IsGap;
    forall i | 0 <= i < |h.fields[1..]|
      ensures IsItem(h.fields[1..][i].field) && HasGaps(h.fields[1..][i]) && !Breaks(h.fields[1..][i].field)
    {
      assert h.fields[1..][i] == h.fields[i + 1];
      assert i >= 1 ==> IsCount(h.fields[i + 1]);
    }
  }

  /** Wherever the scanner takes itself to be behind the string, the pc and the counts bring no report. */
  lemma NothingBehind(m: Mode, h: Hit, key: string, body: string)
    requires StartsWithString(h, key, body) && (Past(m) || m == Swallowing(NOTHING)) && m != Inside(NOTHING)
    ensures var (m1, r1) := FieldsSeen(m, h.fields[1..]);
            var (m2, r2) := WalkChar(m1, '}');
            r1 == [] && r2 == [] && (m2 == Outside || m2 == Finished)
  {
    hide IsGap, FieldsSeen, PcOf, ApplyAll;
    var pc, counts := h.fields[1], h.fields[2..];
    assert h.fields[1..] == [pc] + counts;
    OneField(m, pc);
    FieldsJoin(m, [pc], counts);
    OthersAreItems(h, key, body);
    assert Unbroken(counts) by {
      assert counts == h.fields[1..][1..];
    }
    NoReports();
    forall i | 0 <= i < |counts| ensures IsCount(counts[i]) {
      assert counts[i] == h.fields[i + 2];
    }
    if m == Swallowing(NOTHING) {
      UnbrokenSeen(NOTHING, counts);
      CountsKeepPc(NOTHING, counts);
    } else {
      CountsPassed(m, counts);
    }
  }

  lemma {:induction false} CountsPassed(m: Mode, fs: seq<Spaced>)
    requires (m == Outside || m == Finished) && forall i :: 0 <= i < |fs| ==> IsCount(fs[i])
    ensures FieldsSeen(m, fs) == (m, [])
    decreases |fs|
  {
    if fs != [] {
      CountsPassed(m, fs[1..]);
      NoReports();
    }
  }

  lemma StringIsLost(h: Hit, key: string, body: string, tail: string)
    requires StartsWithString(h, key, body) && !Plain(body)
    ensures ScanHits(HitsTo([h], tail)) == []
  {
    hide ScanHits, HitsTo, IsGap, IsCount, Rest, FieldsTo, FieldsSeen, BrokenSeen, KeyedTo, IsItem;
    var f, others, rest := h.fields[0], h.fields[1..], [']'] + tail;
    var end := ['}'] + (h.after + rest);
    var more := [','] + FieldsTo(others, end);
    QuotedIsString(body);
    OthersAreItems(h, key, body);
    StringText(h, rest);
    HitOpens(Outside, h, f.before + KeyedTo(f, more));
    GapIsSeparator(f.before);
    SeparatorsRead(Inside(NOTHING), f.before, KeyedTo(f, more));
    BrokenFirst(f, NOTHING, more);
    var (m, r) := BrokenSeen(NOTHING, f.field);
    StringBringsNothing(f.field);
    SeparatorsRead(m, [','], FieldsTo(others, end));
    FieldsSeenRead(m, others, end);
    var m1 := FieldsSeen(m, others).0;
    HitCloses(m1, h.after, rest);
    NothingBehind(m, h, key, body);
    ArrayCloses(WalkChar(m1, '}').0, tail);
    ScansOutside(h, rest);
    assert HitsTo([h], tail) == HitTo(h, rest) by {
      OneHitText(h, tail);
    }
  }

  lemma OneHitText(h: Hit, tail: string)
    ensures HitsTo([h], tail) == HitTo(h, [']'] + tail)
  {
    hide HitTo;
  }

  lemma ScansOutside(h: Hit, rest: string)
    ensures Rest(Outside, HitTo(h, rest)) == ScanHits(HitTo(h, rest))
  {
    hide HitTo, ScanHits;
  }

  lemma StringText(h: Hit, rest: string)
    requires |h.fields| >= 2
    ensures HitTo(h, rest) == h.before + (['{'] + (h.inside + (h.fields[0].before
                              + KeyedTo(h.fields[0], [','] + FieldsTo(h.fields[1..], ['}'] + (h.after + rest))))))
  {
    hide KeyedTo;
  }

  /** A broken string read in an object. */
  lemma BrokenFirst(f: Spaced, p: Partial, rest: string)
    requires Breaks(f.field) && IsOtherKey(f.field.key) && HasGaps(f) && EndsField(rest)
    ensures Rest(Inside(p), KeyedTo(f, rest)) == BrokenSeen(p, f.field).1 + Rest(BrokenSeen(p, f.field).0, rest)
  {
    hide ScanObject, ScanHits, KeyedTo, Leftover, BrokenSeen, Finish, HasGaps;
    BrokenInside(f, p, rest);
    LeftoverRead(p, f, rest);
  }

  lemma StringBringsNothing(f: Field)
    requires Breaks(f)
    ensures var (m, r) := BrokenSeen(NOTHING, f);
            r == [] && (m == Outside || m == Finished || m == Swallowing(NOTHING))
  {
    hide Leftover, Walk;
    WalkInside(NOTHING, Leftover(BodyOf(f.raw)));
  }
}
