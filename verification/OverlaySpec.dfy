/**
 What the blitter overlay is meant to show, stated on the whole history of rendered frames and one
 pixel at a time: the last span that covered the pixel, faded by its age.
 */
module OverlaySpec {
  import opened Bits
  import opened BlitTable
  import Recency
  import opened Sequences

  /** One rendered frame: the emulator's frame counter, the decay setting and the spans reported. */
  datatype Frame = Frame(counter: u32, decay: u32, spans: seq<Span>)

  /** A span that covered a pixel, and the frame in which it did. */
  datatype Cover = Cover(span: Span, frame: u32)

  // ---------- Geometry ----------

  function RowStart(y: nat, w: nat): nat { y * w }

  /** The number of pixels of a screen. */
  function Area(w: nat, h: nat): nat { w * h }

  function EndX(s: Span, w: nat): (e: nat)
    requires w > 0
    ensures e < w
  {
    var e := if s.xEnd < s.x then s.x else s.xEnd;
    if e >= w then w - 1 else e
  }

  /** The span is drawn at all: it starts inside the screen and has an id. */
  predicate Lands(s: Span, w: nat, h: nat) {
    s.x < w && s.y < h && s.blitId != 0
  }

  predicate Covers(s: Span, p: nat, w: nat, h: nat)
    requires w > 0
  {
    Lands(s, w, h) && RowStart(s.y, w) + s.x <= p <= RowStart(s.y, w) + EndX(s, w)
  }

  /**
   A span that has an id and starts on the screen covers, in its row, its first column and every column up to
   its end; so a span that ends before it starts covers one pixel, and one that ends beyond the edge all to the edge.
   */
  lemma CoversIsRowAndColumn(s: Span, p: nat, w: nat, h: nat)
    requires w > 0
    ensures Covers(s, p, w, h) <==>
            && s.x < w && s.y < h && s.blitId != 0
            && p / w == s.y && s.x <= p % w && (p % w == s.x || p % w <= s.xEnd)
  {
    assert p == RowStart(p / w, w) + p % w;
    if Covers(s, p, w, h) {
      DivModUnique(p, w, s.y, p - RowStart(s.y, w));
    }
  }

  lemma CoveredInside(s: Span, p: nat, w: nat, h: nat)
    requires w > 0 && Covers(s, p, w, h)
    ensures p < Area(w, h)
  {
    var rest := h - 1 - s.y;
    assert rest * w >= 0;
    assert h * w == RowStart(s.y, w) + w + rest * w;
  }

  // ---------- Colour ----------

  /** The multiply-and-xor hash of a blit id. */
  function Mix(id: nat): nat {
    var h0 := if id == 0 then 1 else id;
    var h1 := BitXor(h0, h0 / 0x1_0000) * 0x7feb_352d % U32_LIMIT;
    var h2 := BitXor(h1, h1 / 0x8000) * 0x846c_a68b % U32_LIMIT;
    BitXor(h2, h2 / 0x1_0000)
  }

  /** The colour of a blit id without the alpha byte: red from the low bits of the hash, blue from the high ones. */
  function Rgb(id: nat): (c: nat)
    ensures c < 0x100_0000
    ensures c / 0x1_0000 == 64 + Mix(id) % 128
    ensures c / 0x100 % 0x100 == 64 + Mix(id) / 0x100 % 128
    ensures c % 0x100 == 64 + Mix(id) / 0x1_0000 % 128
  {
    Pack(64 + Mix(id) % 128, 64 + Mix(id) / 0x100 % 128, 64 + Mix(id) / 0x1_0000 % 128)
  }

  function Pack(red: u8, green: u8, blue: u8): (c: nat)
    ensures c < 0x100_0000 && c / 0x1_0000 == red && c / 0x100 % 0x100 == green && c % 0x100 == blue
  {
    var high, low := 0x100 * red + green, 0x100 * green + blue;
    assert 0x1_0000 * red + low == 0x100 * high + blue;
    assert (0x100 * high + blue) / 0x100 == high && high % 0x100 == green;
    0x1_0000 * red + low
  }

  lemma XorBit(a: nat, b: nat, i: nat, j: nat)
    requires i < 2 && j < 2
    ensures BitXor(2 * a + i, 2 * b + j) == 2 * BitXor(a, b) + if i != j then 1 else 0
    ensures BitXor(0, 0) == 0
  {
    assert BitXor(a, 0) == a && BitXor(0, b) == b;
  }

  lemma XorPair(a: nat, b: nat, i: nat, j: nat)
    requires i < 4 && j < 4
    ensures BitXor(4 * a + i, 4 * b + j) == 4 * BitXor(a, b) + BitXor(i, j)
  {
    hide BitXor;
    XorBit(2 * a + i / 2, 2 * b + j / 2, i % 2, j % 2);
    XorBit(a, b, i / 2, j / 2);
    XorBit(i / 2, j / 2, i % 2, j % 2);
    XorBit(0, 0, i / 2, j / 2);
  }

  /** Four bits at a time. */
  lemma XorDigit(a: nat, b: nat, i: nat, j: nat)
    requires i < 16 && j < 16
    ensures BitXor(16 * a + i, 16 * b + j) == 16 * BitXor(a, b) + BitXor(i, j)
  {
    hide BitXor;
    XorPair(4 * a + i / 4, 4 * b + j / 4, i % 4, j % 4);
    XorPair(a, b, i / 4, j / 4);
    XorPair(i / 4, j / 4, i % 4, j % 4);
    XorPair(0, 0, i / 4, j / 4);
    XorBit(0, 0, 0, 0);
  }

  lemma XorZero(a: nat)
    ensures BitXor(a, 0) == a
  {
  }

  /** Two numbers, the second below 2^16, by the digits of their low halves. */
  lemma XorWords(high: nat, a: seq<nat>, b: seq<nat>)
    requires |a| == |b| == 4 && forall i :: 0 <= i < 4 ==> a[i] < 16 && b[i] < 16
    ensures BitXor(0x1_0000 * high + Word(a), Word(b)) ==
            0x1_0000 * high + Word([BitXor(a[0], b[0]), BitXor(a[1], b[1]), BitXor(a[2], b[2]), BitXor(a[3], b[3])])
  {
    hide BitXor;
    XorZero(high);
    XorDigit(4096 * high + 256 * a[0] + 16 * a[1] + a[2], 256 * b[0] + 16 * b[1] + b[2], a[3], b[3]);
    XorDigit(256 * high + 16 * a[0] + a[1], 16 * b[0] + b[1], a[2], b[2]);
    XorDigit(16 * high + a[0], b[0], a[1], b[1]);
    XorDigit(high, 0, a[0], b[0]);
  }

  function Word(d: seq<nat>): nat
    requires |d| == 4
  {
    4096 * d[0] + 256 * d[1] + 16 * d[2] + d[3]
  }

  lemma XorOne()
    ensures BitXor(0x7feb352d, 0xffd6) == 0x7febcafb
  {
    XorWords(0x7feb, [3, 5, 2, 13], [15, 15, 13, 6]);
    assert BitXor(3, 15) == 12 && BitXor(5, 15) == 10 && BitXor(2, 13) == 15 && BitXor(13, 6) == 11;
    assert Word([3, 5, 2, 13]) == 0x352d && Word([15, 15, 13, 6]) == 0xffd6 && Word([12, 10, 15, 11]) == 0xcafb;
  }

  lemma XorTwo()
    ensures BitXor(0x6889f849, 0x6889) == 0x688990c0
  {
    XorWords(0x6889, [15, 8, 4, 9], [6, 8, 8, 9]);
    assert BitXor(15, 6) == 9 && BitXor(8, 8) == 0 && BitXor(4, 8) == 12 && BitXor(9, 9) == 0;
    assert Word([15, 8, 4, 9]) == 0xf849 && Word([6, 8, 8, 9]) == 0x6889 && Word([9, 0, 12, 0]) == 0x90c0;
  }

  lemma XorThree()
    ensures BitXor(0x7f6e743b, 0xfedc) == 0x7f6e8ae7
  {
    XorWords(0x7f6e, [7, 4, 3, 11], [15, 14, 13, 12]);
    assert BitXor(7, 15) == 8 && BitXor(4, 14) == 10 && BitXor(3, 13) == 14 && BitXor(11, 12) == 7;
    assert Word([7, 4, 3, 11]) == 0x743b && Word([15, 14, 13, 12]) == 0xfedc && Word([8, 10, 14, 7]) == 0x8ae7;
  }

  lemma XorFour()
    ensures BitXor(0x948b356d, 0x948b) == 0x948ba1e6
  {
    XorWords(0x948b, [3, 5, 6, 13], [9, 4, 8, 11]);
    assert BitXor(3, 9) == 10 && BitXor(5, 4) == 1 && BitXor(6, 8) == 14 && BitXor(13, 11) == 6;
    assert Word([3, 5, 6, 13]) == 0x356d && Word([9, 4, 8, 11]) == 0x948b && Word([10, 1, 14, 6]) == 0xa1e6;
  }

  lemma MixSteps(id: nat, h0: nat, h1: nat, x1: nat, h2: nat)
    requires id > 0 && BitXor(id, id / 0x1_0000) == h0 && h0 * 0x7feb_352d % 0x1_0000_0000 == h1
    requires BitXor(h1, h1 / 0x8000) == x1 && x1 * 0x846c_a68b % 0x1_0000_0000 == h2
    ensures Mix(id) == BitXor(h2, h2 / 0x1_0000)
  {
    hide BitXor;
  }

  lemma Products()
    ensures 0x7feb_cafb * 0x846c_a68b % 0x1_0000_0000 == 0x6889_f849
    ensures 7 * 0x7feb_352d % 0x1_0000_0000 == 0x7f6e_743b && 0x7f6e_8ae7 * 0x846c_a68b % 0x1_0000_0000 == 0x948b_356d
  {
  }

  lemma MixOfNone()
    ensures Mix(0) == Mix(1)
  {
    hide BitXor;
  }

  /** The hash of two ids, and of none. */
  lemma MixExamples()
    ensures Mix(0) == Mix(1) == 0x6889_90c0 && Mix(7) == 0x948b_a1e6
  {
    MixOfNone();
    hide BitXor, Mix;
    XorZero(1);
    XorZero(7);
    XorOne();
    XorTwo();
    XorThree();
    XorFour();
    Products();
    MixSteps(1, 1, 0x7feb_352d, 0x7feb_cafb, 0x6889_f849);
    MixSteps(7, 7, 0x7f6e_743b, 0x7f6e_8ae7, 0x948b_356d);
  }

  const ALPHA_MAX := 0xb0

  /** The product is taken in 32 bits, as the source does. */
  function AlphaForAge(age: u32, decay: u32): (a: nat)
    ensures a < 256
  {
    if decay <= 1 then ALPHA_MAX
    else if age >= decay then 0
    else
      var range := decay - 1;
      ScaledBound(range, ALPHA_MAX * (range - age) % U32_LIMIT, ALPHA_MAX * (range - age));
      ALPHA_MAX * (range - age) % U32_LIMIT / range
  }

  /** All of alpha's cases; the product wraps at 2^32. */
  lemma AlphaIs(age: u32, decay: u32)
    ensures decay <= 1 ==> AlphaForAge(age, decay) == 176
    ensures decay > 1 && age >= decay ==> AlphaForAge(age, decay) == 0
    ensures decay > 1 && age < decay ==> AlphaForAge(age, decay) == 176 * (decay - 1 - age) % 0x1_0000_0000 / (decay - 1)
  {
  }

  lemma ScaledBound(range: nat, wrapped: nat, product: nat)
    requires range > 0 && wrapped <= product <= ALPHA_MAX * range
    ensures wrapped / range <= ALPHA_MAX
  {
    var q := wrapped / range;
    assert q * range <= wrapped;
    if q > ALPHA_MAX {
      MulAtLeast(q - ALPHA_MAX, range);
    }
  }

  /**
   A span drawn in the current frame has full alpha exactly when the 32-bit product does not wrap.
   */
  lemma FullAlphaIffNoWrap(decay: u32)
    ensures AlphaForAge(0, decay) == ALPHA_MAX <==> decay <= 1 || ALPHA_MAX * (decay - 1) < U32_LIMIT
  {
    if decay > 1 {
      var range := decay - 1;
      var wrapped := ALPHA_MAX * range % U32_LIMIT;
      if ALPHA_MAX * range < U32_LIMIT {
        DivModUnique(wrapped, range, ALPHA_MAX, 0);
      } else {
        assert wrapped / range * range <= wrapped;
      }
    }
  }

  lemma AlphaWithoutWrap(age: u32, decay: u32)
    requires age < decay && decay > 1 && ALPHA_MAX * (decay - 1) < U32_LIMIT
    ensures AlphaForAge(age, decay) == ALPHA_MAX * (decay - 1 - age) / (decay - 1)
  {
    var product := ALPHA_MAX * (decay - 1 - age);
    assert product % U32_LIMIT == product;
  }

  lemma AlphaFalls(older: u32, newer: u32, decay: u32)
    requires newer <= older < decay && ALPHA_MAX * (decay - 1) < U32_LIMIT
    ensures AlphaForAge(older, decay) <= AlphaForAge(newer, decay)
  {
    hide AlphaForAge;
    if decay > 1 {
      AlphaWithoutWrap(older, decay);
      AlphaWithoutWrap(newer, decay);
      DivMonotone(ALPHA_MAX * (decay - 1 - older), ALPHA_MAX * (decay - 1 - newer), decay - 1);
    }
  }

  /** An older cover is never shown more strongly than a newer one. */
  ghost predicate FadesWithAge(decay: u32) {
    forall older: u32, newer: u32 :: newer <= older < decay ==> AlphaForAge(older, decay) <= AlphaForAge(newer, decay)
  }

  /** The largest multiple of the maximum that fits 32 bits is followed by one that wraps to almost nothing. */
  lemma AlphaRises(decay: u32)
    requires decay > 1 && ALPHA_MAX * (decay - 1) >= U32_LIMIT && decay - 1 <= U32_LIMIT - 48
    ensures !FadesWithAge(decay)
  {
    var range, x := decay - 1, 24403223;
    assert ALPHA_MAX * x == U32_LIMIT - 48 && ALPHA_MAX * (x + 1) % U32_LIMIT == 128;
    AlphaAt(range - x, decay, U32_LIMIT - 48);
    AlphaAt(range - x - 1, decay, 128);
    QuotientAtLeastOne(U32_LIMIT - 48, range);
    assert 128 / range == 0;
  }

  /** For the longest decays the product comes within 16 of 2^32 at one age and wraps at the next. */
  lemma AlphaRisesLate(decay: u32)
    requires U32_LIMIT - 48 < decay - 1 <= U32_LIMIT - 16
    ensures !FadesWithAge(decay)
  {
    var range, y := decay - 1, 97612893;
    assert ALPHA_MAX * y % U32_LIMIT == U32_LIMIT - 16 && ALPHA_MAX * (y + 1) % U32_LIMIT == 160;
    AlphaAt(range - y, decay, U32_LIMIT - 16);
    AlphaAt(range - y - 1, decay, 160);
    QuotientAtLeastOne(U32_LIMIT - 16, range);
    assert 160 / range == 0;
  }

  lemma AlphaAt(age: u32, decay: u32, wrapped: u32)
    requires decay > 1 && age < decay && wrapped == ALPHA_MAX * (decay - 1 - age) % U32_LIMIT
    ensures AlphaForAge(age, decay) == wrapped / (decay - 1)
  {
  }

  lemma AlphaOfOld(age: u32, decay: u32)
    requires 1 < decay <= age
    ensures AlphaForAge(age, decay) == 0
  {
  }

  lemma QuotientAtLeastOne(a: nat, m: nat)
    requires 0 < m <= a
    ensures a / m >= 1
  {
  }

  /** Above 2^32 - 16 every wrapped product is smaller than the range: nothing is shown at any age. */
  lemma AlphaIsNothing(age: u32, decay: u32)
    requires decay - 1 > U32_LIMIT - 16
    ensures AlphaForAge(age, decay) == 0
  {
    hide AlphaForAge;
    if age >= decay {
      AlphaOfOld(age, decay);
    } else {
      WrappedMultiple(decay - 1 - age);
      AlphaAt(age, decay, ALPHA_MAX * (decay - 1 - age) % U32_LIMIT);
      SmallQuotient(ALPHA_MAX * (decay - 1 - age) % U32_LIMIT, decay - 1);
    }
  }

  lemma SmallQuotient(a: nat, m: nat)
    requires a < m
    ensures a / m == 0
  {
  }

  /** A wrapped product is a multiple of 16, like the two numbers it comes from. */
  lemma WrappedMultiple(n: nat)
    ensures ALPHA_MAX * n % U32_LIMIT <= U32_LIMIT - 16
  {
    var q, r := ALPHA_MAX * n / U32_LIMIT, ALPHA_MAX * n % U32_LIMIT;
    assert r == 16 * (11 * n - 0x1000_0000 * q);
  }

  /**
   Fading is monotone if and only if the product does not wrap, except that above 2^32 - 16 frames of
   decay nothing is shown at all.
   */
  lemma FadesIffNoWrap(decay: u32)
    ensures FadesWithAge(decay) <==>
            decay <= 1 || ALPHA_MAX * (decay - 1) < U32_LIMIT || decay - 1 > U32_LIMIT - 16
  {
    hide AlphaForAge;
    if decay <= 1 || ALPHA_MAX * (decay - 1) < U32_LIMIT {
      forall older: u32, newer: u32 | newer <= older < decay
        ensures AlphaForAge(older, decay) <= AlphaForAge(newer, decay)
      {
        if decay > 1 {
          AlphaFalls(older, newer, decay);
        }
      }
    } else if decay - 1 > U32_LIMIT - 16 {
      forall age: u32 ensures AlphaForAge(age, decay) == 0 {
        AlphaIsNothing(age, decay);
      }
    } else if decay - 1 <= U32_LIMIT - 48 {
      AlphaRises(decay);
    } else {
      AlphaRisesLate(decay);
    }
  }

  lemma DivMonotone(a: nat, b: nat, m: nat)
    requires a <= b && m > 0
    ensures a / m <= b / m
  {
    var d := a / m - b / m;
    assert a / m * m <= a && b < b / m * m + m;
    assert d * m == a / m * m - b / m * m;
    if d >= 1 {
      MulAtLeast(d, m);
    }
  }

  // ---------- The covers of a pixel ----------

  /** The covers of pixel p among the first n spans of a frame, in order. */
  function CoversIn(f: Frame, n: nat, p: nat, w: nat, h: nat): seq<Cover>
    requires w > 0 && n <= |f.spans|
  {
    if n == 0 then []
    else
      CoversIn(f, n - 1, p, w, h) + if Covers(f.spans[n - 1], p, w, h) then [Cover(f.spans[n - 1], f.counter)] else []
  }

  /** Every cover of pixel p in the whole run, in order. */
  function AllCovers(hist: seq<Frame>, p: nat, w: nat, h: nat): seq<Cover>
    requires w > 0
  {
    if hist == [] then []
    else
      var f := hist[|hist| - 1];
      AllCovers(hist[..|hist| - 1], p, w, h) + CoversIn(f, |f.spans|, p, w, h)
  }

  function Last<T>(s: seq<T>): T
    requires s != []
  {
    s[|s| - 1]
  }

  /** The covers a pixel remembers: all of them once its last cover is as old as the decay are gone. */
  function Swept(t: seq<Cover>, f: Frame): seq<Cover> {
    if t != [] && f.decay > 0 && Sub32(f.counter, Last(t).frame) < f.decay then t else []
  }

  function TrackOf(hist: seq<Frame>, p: nat, w: nat, h: nat): seq<Cover>
    requires w > 0
  {
    if hist == [] then []
    else
      var f := Last(hist);
      Swept(TrackOf(hist[..|hist| - 1], p, w, h) + CoversIn(f, |f.spans|, p, w, h), f)
  }

  /** The colour of a pixel after frame f, given the covers it remembers. */
  function Shade(t: seq<Cover>, f: Frame): nat {
    if t == [] then 0
    else AlphaForAge(Sub32(f.counter, Last(t).frame), f.decay) * 0x100_0000 + Rgb(Last(t).span.blitId)
  }

  /** The simple rule: the last cover in the whole run, faded by its age; 0 when it is too old. */
  function NaiveImage(hist: seq<Frame>, p: nat, w: nat, h: nat): nat
    requires w > 0 && hist != []
  {
    var covers, now := AllCovers(hist, p, w, h), Last(hist);
    if covers == [] || now.counter - Last(covers).frame >= now.decay then 0
    else AlphaForAge(Sub32(now.counter, Last(covers).frame), now.decay) * 0x100_0000 + Rgb(Last(covers).span.blitId)
  }

  ghost predicate Rising(hist: seq<Frame>) {
    forall i, j :: 0 <= i < j < |hist| ==> hist[i].counter <= hist[j].counter
  }

  ghost predicate Steady(hist: seq<Frame>) {
    Rising(hist) && forall i, j :: 0 <= i < j < |hist| ==> hist[i].decay == hist[j].decay
  }

  /** A steady run from frame to frame: the counter does not fall and the decay stays. */
  lemma {:induction false} SteadyIs(hist: seq<Frame>)
    ensures Rising(hist) <==> forall i :: 0 < i < |hist| ==> hist[i - 1].counter <= hist[i].counter
    ensures Steady(hist) <==>
            forall i :: 0 < i < |hist| ==> hist[i - 1].counter <= hist[i].counter && hist[i - 1].decay == hist[i].decay
  {
    if |hist| > 1 {
      var before := hist[..|hist| - 1];
      SteadyIs(before);
      assert forall i :: 0 <= i < |before| ==> before[i] == hist[i];
      assert hist[|hist| - 2] == before[|before| - 1];
    }
  }

  lemma {:induction false} CoversInFrame(f: Frame, n: nat, p: nat, w: nat, h: nat)
    requires w > 0 && n <= |f.spans|
    ensures forall c :: c in CoversIn(f, n, p, w, h) ==> c.frame == f.counter && c.span in f.spans && Covers(c.span, p, w, h)
  {
    if n > 0 {
      CoversInFrame(f, n - 1, p, w, h);
    }
  }

  lemma {:induction false} CoversAreOld(hist: seq<Frame>, p: nat, w: nat, h: nat)
    requires w > 0 && hist != [] && Rising(hist)
    ensures forall c :: c in AllCovers(hist, p, w, h) ==> c.frame <= Last(hist).counter
  {
    var f, before := Last(hist), hist[..|hist| - 1];
    CoversInFrame(f, |f.spans|, p, w, h);
    if before != [] {
      CoversAreOld(before, p, w, h);
      assert Last(before) == hist[|hist| - 2];
    }
  }

  /** In a steady run a pixel's track survives exactly while the last cover of the run is fresh. */
  lemma {:induction false} SteadyTrack(hist: seq<Frame>, p: nat, w: nat, h: nat)
    requires w > 0 && hist != [] && Steady(hist)
    ensures var covers, t, now := AllCovers(hist, p, w, h), TrackOf(hist, p, w, h), Last(hist);
            && (t != [] <==> covers != [] && now.counter - Last(covers).frame < now.decay)
            && (t != [] ==> Last(t) == Last(covers))
  {
    hide CoversIn, Covers;
    var f, before := Last(hist), hist[..|hist| - 1];
    CoversAreOld(hist, p, w, h);
    CoversInFrame(f, |f.spans|, p, w, h);
    var latest := CoversIn(f, |f.spans|, p, w, h);
    if before != [] {
      assert Last(before) == hist[|hist| - 2];
      SteadyTrack(before, p, w, h);
      TrackStep(AllCovers(before, p, w, h), TrackOf(before, p, w, h), latest, Last(before).counter, f);
    } else {
      TrackStep([], [], latest, f.counter, f);
    }
  }

  /** One more frame, in which some covers are new and the clock has not gone back. */
  lemma TrackStep(covers: seq<Cover>, t: seq<Cover>, latest: seq<Cover>, was: u32, f: Frame)
    requires was <= f.counter
    requires forall c :: c in covers + latest ==> c.frame <= f.counter
    requires forall c :: c in latest ==> c.frame == f.counter
    requires t != [] <==> covers != [] && was - Last(covers).frame < f.decay
    requires t != [] ==> Last(t) == Last(covers)
    ensures var covers', t' := covers + latest, Swept(t + latest, f);
            && (t' != [] <==> covers' != [] && f.counter - Last(covers').frame < f.decay)
            && (t' != [] ==> Last(t') == Last(covers'))
  {
    if latest != [] {
      assert Last(covers + latest) == Last(latest) == Last(t + latest);
      assert Last(latest) in latest;
    } else {
      assert covers + latest == covers && t + latest == t;
      if covers != [] {
        assert Last(covers) in covers;
      }
    }
  }

  /** The incremental track shows the simple rule's image at every pixel of a steady run. */
  lemma TrackShowsNaiveImage(hist: seq<Frame>, p: nat, w: nat, h: nat)
    requires w > 0 && hist != [] && Steady(hist)
    ensures Shade(TrackOf(hist, p, w, h), Last(hist)) == NaiveImage(hist, p, w, h)
    ensures NaiveImage(hist, p, w, h) != 0 <==> TrackOf(hist, p, w, h) != []
  {
    SteadyTrack(hist, p, w, h);
  }

  // ---------- The simple rule, said of the spans themselves ----------

  /** Span k of frame i is drawn on pixel p. */
  ghost predicate DrawnAt(hist: seq<Frame>, p: nat, i: int, k: int, w: nat, h: nat)
    requires w > 0
  {
    0 <= i < |hist| && 0 <= k < |hist[i].spans| &&
    var s := hist[i].spans[k];
    && s.x < w && s.y < h && s.blitId != 0
    && p / w == s.y && s.x <= p % w && (p % w == s.x || p % w <= s.xEnd)
  }

  /** No span of a later frame, and no later span of the same frame, is drawn on the pixel. */
  ghost predicate NoneLater(hist: seq<Frame>, p: nat, i: int, k: int, w: nat, h: nat)
    requires w > 0
  {
    forall j, l :: DrawnAt(hist, p, j, l, w, h) ==> j < i || (j == i && l <= k)
  }

  lemma {:induction false} LastInFrame(f: Frame, n: nat, p: nat, w: nat, h: nat) returns (k: int)
    requires w > 0 && n <= |f.spans|
    ensures -1 <= k < n && (k == -1 <==> CoversIn(f, n, p, w, h) == [])
    ensures k >= 0 ==> Covers(f.spans[k], p, w, h) && Last(CoversIn(f, n, p, w, h)) == Cover(f.spans[k], f.counter)
    ensures forall l :: k < l < n ==> !Covers(f.spans[l], p, w, h)
  {
    hide Covers;
    if n == 0 {
      k := -1;
    } else if Covers(f.spans[n - 1], p, w, h) {
      k := n - 1;
    } else {
      k := LastInFrame(f, n - 1, p, w, h);
    }
  }

  /** The last cover of a whole run is that of the last span drawn on the pixel. */
  lemma {:induction false} LastDrawn(hist: seq<Frame>, p: nat, w: nat, h: nat) returns (i: int, k: int)
    requires w > 0
    ensures AllCovers(hist, p, w, h) == [] ==> forall j, l :: !DrawnAt(hist, p, j, l, w, h)
    ensures AllCovers(hist, p, w, h) != [] ==>
              && DrawnAt(hist, p, i, k, w, h) && NoneLater(hist, p, i, k, w, h)
              && Last(AllCovers(hist, p, w, h)) == Cover(hist[i].spans[k], hist[i].counter)
  {
    hide Covers, CoversIn;
    i, k := -1, -1;
    if hist != [] {
      var f, before := hist[|hist| - 1], hist[..|hist| - 1];
      forall j, l | DrawnAt(hist, p, j, l, w, h) && j < |before| ensures DrawnAt(before, p, j, l, w, h) {
      }
      var last := LastInFrame(f, |f.spans|, p, w, h);
      forall l | 0 <= l < |f.spans| ensures Covers(f.spans[l], p, w, h) <==> DrawnAt(hist, p, |before|, l, w, h) {
        CoversIsRowAndColumn(f.spans[l], p, w, h);
      }
      if last >= 0 {
        i, k := |before|, last;
      } else {
        i, k := LastDrawn(before, p, w, h);
        assert AllCovers(hist, p, w, h) == AllCovers(before, p, w, h);
      }
    }
  }

  lemma OneLast(hist: seq<Frame>, p: nat, i: int, k: int, j: int, l: int, w: nat, h: nat)
    requires w > 0 && DrawnAt(hist, p, i, k, w, h) && NoneLater(hist, p, i, k, w, h)
    requires DrawnAt(hist, p, j, l, w, h) && NoneLater(hist, p, j, l, w, h)
    ensures i == j && k == l
  {
    hide DrawnAt;
  }

  /** The simple rule: 0 without a span on the pixel; else the last one decides, by its age and its id. */
  lemma NaiveImageIs(hist: seq<Frame>, p: nat, w: nat, h: nat)
    requires w > 0 && hist != []
    ensures (forall i, k :: !DrawnAt(hist, p, i, k, w, h)) ==> NaiveImage(hist, p, w, h) == 0
    ensures forall i, k :: DrawnAt(hist, p, i, k, w, h) && NoneLater(hist, p, i, k, w, h) ==>
              var now, age := hist[|hist| - 1], hist[|hist| - 1].counter - hist[i].counter;
              NaiveImage(hist, p, w, h) ==
              if age >= now.decay then 0
              else AlphaForAge(age % U32_LIMIT, now.decay) * 0x100_0000 + Rgb(hist[i].spans[k].blitId)
  {
    hide DrawnAt, NoneLater, AllCovers, AlphaForAge, Rgb;
    var i, k := LastDrawn(hist, p, w, h);
    forall j, l | DrawnAt(hist, p, j, l, w, h) && NoneLater(hist, p, j, l, w, h) && AllCovers(hist, p, w, h) != []
      ensures j == i && l == k
    {
      OneLast(hist, p, i, k, j, l, w, h);
    }
    forall j, l | DrawnAt(hist, p, j, l, w, h) ensures 0 <= j < |hist| && 0 <= l < |hist[j].spans| {
      DrawnInBounds(hist, p, j, l, w, h);
    }
    if AllCovers(hist, p, w, h) != [] {
      SubtractIsRemainder(Last(hist).counter, Last(AllCovers(hist, p, w, h)).frame);
    }
  }

  lemma DrawnInBounds(hist: seq<Frame>, p: nat, i: int, k: int, w: nat, h: nat)
    requires w > 0 && DrawnAt(hist, p, i, k, w, h)
    ensures 0 <= i < |hist| && 0 <= k < |hist[i].spans|
  {
  }

  lemma SubtractIsRemainder(a: u32, b: u32)
    ensures Sub32(a, b) == (a - b) % U32_LIMIT
  {
  }

  // ---------- The blit records, and what a click on a pixel lists ----------

  /** The blit table after the first n spans of a frame: the last landed span of every id. */
  function RecordedIn(m: map<nat, Record>, f: Frame, n: nat, w: nat, h: nat): map<nat, Record>
    requires n <= |f.spans|
  {
    if n == 0 then m
    else
      var s, before := f.spans[n - 1], RecordedIn(m, f, n - 1, w, h);
      if Lands(s, w, h) then before[s.blitId := Record(f.counter, s)] else before
  }

  function Recorded(hist: seq<Frame>, w: nat, h: nat): map<nat, Record> {
    if hist == [] then map[]
    else RecordedIn(Recorded(hist[..|hist| - 1], w, h), Last(hist), |Last(hist).spans|, w, h)
  }

  lemma {:induction false} RecordedGrows(m: map<nat, Record>, f: Frame, n: nat, n': nat, w: nat, h: nat)
    requires n <= n' <= |f.spans|
    ensures RecordedIn(m, f, n, w, h).Keys <= RecordedIn(m, f, n', w, h).Keys
  {
    if n < n' {
      RecordedGrows(m, f, n, n' - 1, w, h);
    }
  }

  function Ids(t: seq<Cover>): (ids: seq<nat>)
    ensures |ids| == |t| && forall i :: 0 <= i < |t| ==> ids[i] == t[i].span.blitId
  {
    seq(|t|, i requires 0 <= i < |t| => t[i].span.blitId)
  }

  /** The history a pixel keeps: the four most recent distinct ids among the covers it remembers. */
  function HistoryOf(t: seq<Cover>): seq<nat> {
    Take(Recency.ByRecency(Ids(t)), Recency.HISTORY)
  }

  lemma HistoryBasics(t: seq<Cover>)
    ensures Distinct(HistoryOf(t))
    ensures forall id :: id in HistoryOf(t) ==> id in Ids(t)
  {
    Recency.ByRecencyIsOrdered(Ids(t));
  }

  /** The ids of a history whose record is still fresh, in order. */
  function FreshIds(history: seq<nat>, m: map<nat, Record>, counter: u32, decay: u32): (r: seq<nat>)
    ensures forall id :: id in r ==> id in history
  {
    if history == [] then []
    else
      var rest := FreshIds(history[1..], m, counter, decay);
      if Fresh(m, history[0], counter, decay) then [history[0]] + rest else rest
  }

  predicate Fresh(m: map<nat, Record>, id: nat, counter: u32, decay: u32)
  {
    id in m && !(decay > 0 && Sub32(counter, m[id].frame) >= decay)
  }

  lemma {:induction false} RecordedInBounds(m: map<nat, Record>, f: Frame, n: nat, w: nat, h: nat)
    requires n <= |f.spans|
    requires forall id :: id in m ==> id != 0 && m[id].frame <= f.counter && m[id].span.blitId == id
    ensures forall id :: id in RecordedIn(m, f, n, w, h) ==>
              && id != 0 && RecordedIn(m, f, n, w, h)[id].frame <= f.counter
              && RecordedIn(m, f, n, w, h)[id].span.blitId == id
    ensures forall id :: id in m ==> id in RecordedIn(m, f, n, w, h) && m[id].frame <= RecordedIn(m, f, n, w, h)[id].frame
    ensures forall i :: 0 <= i < n && Lands(f.spans[i], w, h) ==>
              f.spans[i].blitId in RecordedIn(m, f, n, w, h) && RecordedIn(m, f, n, w, h)[f.spans[i].blitId].frame == f.counter
  {
    if n > 0 {
      RecordedInBounds(m, f, n - 1, w, h);
    }
  }

  lemma {:induction false} RecordedBounds(hist: seq<Frame>, w: nat, h: nat)
    requires hist != [] && Rising(hist)
    ensures forall id :: id in Recorded(hist, w, h) ==>
              && id != 0 && Recorded(hist, w, h)[id].frame <= Last(hist).counter
              && Recorded(hist, w, h)[id].span.blitId == id
  {
    var before, f := hist[..|hist| - 1], Last(hist);
    if before != [] {
      RecordedBounds(before, w, h);
      assert Last(before) == hist[|hist| - 2];
    }
    RecordedInBounds(Recorded(before, w, h), f, |f.spans|, w, h);
  }

  /** The table's frame for an id a pixel remembers is never older than the pixel's own frame. */
  lemma {:induction false} RecordsOutliveCovers(hist: seq<Frame>, p: nat, w: nat, h: nat)
    requires w > 0 && hist != [] && Rising(hist)
    ensures forall c :: c in TrackOf(hist, p, w, h) ==>
              c.span.blitId in Recorded(hist, w, h) && c.frame <= Recorded(hist, w, h)[c.span.blitId].frame
  {
    var before, f := hist[..|hist| - 1], Last(hist);
    if before != [] {
      RecordsOutliveCovers(before, p, w, h);
      RecordedBounds(before, w, h);
      assert Last(before) == hist[|hist| - 2];
    }
    RecordedInBounds(Recorded(before, w, h), f, |f.spans|, w, h);
    CoversInFrame(f, |f.spans|, p, w, h);
  }

  /** The history has the id, and its record is younger than the decay, or there is no decay. */
  predicate IsFresh(history: seq<nat>, m: map<nat, Record>, id: nat, counter: u32, decay: u32) {
    id in history && id in m && (decay == 0 || (counter - m[id].frame) % U32_LIMIT < decay)
  }

  /** Exactly the fresh ids are listed, in the order of the history. */
  lemma {:induction false} FreshIdsAre(history: seq<nat>, m: map<nat, Record>, counter: u32, decay: u32)
    ensures forall id :: id in FreshIds(history, m, counter, decay) <==> IsFresh(history, m, id, counter, decay)
    ensures IsSubsequence(FreshIds(history, m, counter, decay), history)
  {
    if history != [] {
      FreshIdsAre(history[1..], m, counter, decay);
      assert forall id :: id in history <==> id == history[0] || id in history[1..];
      assert Fresh(m, history[0], counter, decay) ==> FreshIds(history, m, counter, decay)[1..] == FreshIds(history[1..], m, counter, decay);
    }
  }

  /** s is t with some elements left out. */
  predicate IsSubsequence(s: seq<nat>, t: seq<nat>)
    decreases |t|
  {
    if t == [] then s == []
    else IsSubsequence(s, t[1..]) || (s != [] && s[0] == t[0] && IsSubsequence(s[1..], t[1..]))
  }

  lemma {:induction false} FreshIdsDistinct(history: seq<nat>, m: map<nat, Record>, counter: u32, decay: u32)
    requires Distinct(history)
    ensures Distinct(FreshIds(history, m, counter, decay))
  {
    if history != [] {
      assert forall i :: 0 <= i < |history[1..]| ==> history[1..][i] == history[i + 1];
      assert history[0] !in history[1..];
      FreshIdsDistinct(history[1..], m, counter, decay);
      var rest := FreshIds(history[1..], m, counter, decay);
      assert history[0] !in rest;
    }
  }

  /**
   Hover and click agree: on every pixel that is still shown, a click lists distinct ids, and the
   first of them is the id of the last span that covered the pixel, which is the hovered id.
   */
  lemma ClickStartsWithHoveredId(hist: seq<Frame>, p: nat, w: nat, h: nat)
    requires w > 0 && hist != [] && Rising(hist) && TrackOf(hist, p, w, h) != []
    ensures var t, now := TrackOf(hist, p, w, h), Last(hist);
            var hits := FreshIds(HistoryOf(t), Recorded(hist, w, h), now.counter, now.decay);
            && hits != [] && hits[0] == Last(t).span.blitId && hits[0] != 0
            && Distinct(hits)
  {
    var t, now, m := TrackOf(hist, p, w, h), Last(hist), Recorded(hist, w, h);
    RecordedBounds(hist, w, h);
    RecordsOutliveCovers(hist, p, w, h);
    assert Last(t) in t;
    Recency.ByRecencyIsOrdered(Ids(t));
    assert HistoryOf(t)[0] == Last(t).span.blitId;
    assert Fresh(m, Last(t).span.blitId, now.counter, now.decay);
    FreshIdsDistinct(HistoryOf(t), m, now.counter, now.decay);
  }
}
