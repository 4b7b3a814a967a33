/** The stacked bar that shows how a frame's slots were used. */
module DmaBar {
  import opened Bits
  import opened DmaStats

  /** A filled stretch of the bar, from column x0 up to but not including x1. */
  datatype Segment = Segment(color: Slot, x0: int, x1: int)

  /** The counters in the order they are drawn. */
  function Values(c: Counters): (values: seq<u32>)
    ensures |values| == 9 && forall i :: 0 <= i < 9 ==> values[i] == c.Get(AllSlots()[i])
  {
    [c.cpu, c.copper, c.audio, c.blitter, c.bitplane, c.sprite, c.disk, c.other, c.idle]
  }

  function Prefix(values: seq<u32>, n: nat): nat
    requires n <= |values|
  {
    if n == 0 then 0 else Prefix(values, n - 1) + values[n - 1]
  }

  /** The running total of the first n values; it stops at the maximum. */
  function Accumulated(values: seq<u32>, n: nat, limit: nat): nat
    requires n <= |values|
  {
    if Prefix(values, n) > limit then limit else Prefix(values, n)
  }

  function Scale(a: nat, width: nat, limit: nat): nat
    requires limit > 0
  {
    a * width / limit
  }

  /** The column where the first n segments end. */
  function Edge(values: seq<u32>, n: nat, limit: nat, width: nat): nat
    requires n <= |values| && limit > 0
  {
    Scale(Accumulated(values, n, limit), width, limit)
  }

  // ---------- Scaling ----------

  lemma ScaleBounds(a: nat, width: nat, limit: nat)
    requires limit > 0
    ensures Scale(a, width, limit) * limit <= a * width < Scale(a, width, limit) * limit + limit
  {
    var p := a * width;
    assert p == p / limit * limit + p % limit;
  }

  lemma ProductBelow(x: int, y: int, m: int)
    requires m > 0 && x * m < y * m + m
    ensures x <= y
  {
    if x > y {
      MulAtLeast(x - y, m);
    }
  }

  lemma ProductGrows(a: nat, b: nat, w: nat)
    requires a <= b
    ensures a * w <= b * w
  {
    assert (b - a) * w >= 0;
  }

  lemma ScaleGrows(a: nat, b: nat, width: nat, limit: nat)
    requires limit > 0 && a <= b
    ensures Scale(a, width, limit) <= Scale(b, width, limit)
  {
    hide Scale;
    ScaleBounds(a, width, limit);
    ScaleBounds(b, width, limit);
    ProductGrows(a, b, width);
    ProductBelow(Scale(a, width, limit), Scale(b, width, limit), limit);
  }

  lemma ScaleOfAll(width: nat, limit: nat)
    requires limit > 0
    ensures Scale(limit, width, limit) == width
  {
    DivModUnique(limit * width, limit, width, 0);
  }

  lemma EdgesGrow(values: seq<u32>, n: nat, limit: nat, width: nat)
    requires n < |values| && limit > 0
    ensures Edge(values, n, limit, width) <= Edge(values, n + 1, limit, width) <= width
    ensures Edge(values, 0, limit, width) == 0
  {
    hide Scale;
    ScaleGrows(Accumulated(values, n, limit), Accumulated(values, n + 1, limit), width, limit);
    ScaleGrows(Accumulated(values, n + 1, limit), limit, width, limit);
    ScaleOfAll(width, limit);
    ScaleOfNone(width, limit);
  }

  lemma ScaleOfNone(width: nat, limit: nat)
    requires limit > 0
    ensures Scale(0, width, limit) == 0
  {
  }

  lemma {:induction false} PrefixGrows(values: seq<u32>, n: nat, m: nat)
    requires n <= m <= |values|
    ensures Prefix(values, n) <= Prefix(values, m)
    decreases m
  {
    if n < m {
      PrefixGrows(values, n, m - 1);
    }
  }

  /** When the values fit, each segment is within one pixel of its share of the bar. */
  lemma SegmentIsProportional(values: seq<u32>, n: nat, limit: nat, width: nat)
    requires n < |values| && limit > 0 && Prefix(values, |values|) <= limit
    ensures var w := Edge(values, n + 1, limit, width) - Edge(values, n, limit, width);
            values[n] * width - limit < w * limit < values[n] * width + limit
  {
    hide Scale;
    PrefixGrows(values, n, |values|);
    PrefixGrows(values, n + 1, |values|);
    var a, b := Prefix(values, n), Prefix(values, n + 1);
    ScaleBounds(a, width, limit);
    ScaleBounds(b, width, limit);
    assert b * width == a * width + values[n] * width;
    var w := Scale(b, width, limit) - Scale(a, width, limit);
    assert w * limit == Scale(b, width, limit) * limit - Scale(a, width, limit) * limit;
  }

  // ---------- The segments ----------

  /** Segments that join up, none of them empty, from one column to another. */
  ghost predicate Tiles(segments: seq<Segment>, from: int, upto: int) {
    && (forall i :: 0 <= i < |segments| ==> segments[i].x0 < segments[i].x1)
    && (forall i :: 0 < i < |segments| ==> segments[i].x0 == segments[i - 1].x1)
    && (if segments == [] then from == upto else segments[0].x0 == from && segments[|segments| - 1].x1 == upto)
  }

  predicate Has(s: Segment, x: int) { s.x0 <= x < s.x1 }

  lemma {:induction false} TilesInOrder(segments: seq<Segment>, from: int, upto: int, i: nat, j: nat)
    requires Tiles(segments, from, upto) && i < j < |segments|
    ensures segments[i].x1 <= segments[j].x0
    decreases j
  {
    if i < j - 1 {
      TilesInOrder(segments, from, upto, i, j - 1);
    }
  }

  lemma {:induction false} TileAt(segments: seq<Segment>, from: int, upto: int, x: int) returns (i: nat)
    requires Tiles(segments, from, upto) && from <= x < upto
    ensures i < |segments| && Has(segments[i], x)
  {
    i := |segments| - 1;
    while !Has(segments[i], x)
      invariant i < |segments| && x < segments[i].x1
      decreases i
    {
      i := i - 1;
    }
  }

  /** Tiling segments fill every column exactly once. */
  lemma EveryColumnOnce(segments: seq<Segment>, from: int, upto: int, x: int)
    requires Tiles(segments, from, upto) && from <= x < upto
    ensures exists i :: 0 <= i < |segments| && Has(segments[i], x)
    ensures forall i, j :: 0 <= i < j < |segments| ==> !(Has(segments[i], x) && Has(segments[j], x))
  {
    var i := TileAt(segments, from, upto, x);
    forall i, j | 0 <= i < j < |segments| ensures !(Has(segments[i], x) && Has(segments[j], x)) {
      TilesInOrder(segments, from, upto, i, j);
    }
  }

  lemma TilesJoin(segments: seq<Segment>, from: int, mid: int, s: Segment)
    requires Tiles(segments, from, mid) && s.x0 == mid < s.x1
    ensures Tiles(segments + [s], from, s.x1)
  {
  }

  /** The segment of the i-th value. */
  function Share(values: seq<u32>, i: nat, limit: nat, x: int, width: nat): Segment
    requires i < |values| == 9 && limit > 0
  {
    Segment(AllSlots()[i], x + Edge(values, i, limit, width), x + Edge(values, i + 1, limit, width))
  }

  /** The segments of the first n values, those that have a column at all, and no others. */
  ghost predicate Drawn(segments: seq<Segment>, values: seq<u32>, n: nat, limit: nat, x: int, width: nat)
    requires n <= |values| == 9 && limit > 0
  {
    && Tiles(segments, x, x + Edge(values, n, limit, width))
    && (forall s :: s in segments ==> exists i :: 0 <= i < n && s == Share(values, i, limit, x, width))
    && (forall i :: 0 <= i < n && Share(values, i, limit, x, width).x0 < Share(values, i, limit, x, width).x1 ==>
          Share(values, i, limit, x, width) in segments)
  }

  lemma DrawnOneMore(segments: seq<Segment>, values: seq<u32>, n: nat, limit: nat, x: int, width: nat)
    requires n < |values| == 9 && limit > 0 && Drawn(segments, values, n, limit, x, width)
    ensures var s := Share(values, n, limit, x, width);
            Drawn(if s.x0 < s.x1 then segments + [s] else segments, values, n + 1, limit, x, width)
  {
    hide Edge, Tiles, AllSlots;
    EdgesGrow(values, n, limit, width);
    var s := Share(values, n, limit, x, width);
    if s.x0 < s.x1 {
      TilesJoin(segments, x, s.x0, s);
      SharesJoin(segments, values, n, limit, x, width);
    } else {
      forall t | t in segments ensures exists i :: 0 <= i < n + 1 && t == Share(values, i, limit, x, width) {
        var i :| 0 <= i < n && t == Share(values, i, limit, x, width);
        assert 0 <= i < n + 1;
      }
    }
  }

  lemma SharesJoin(segments: seq<Segment>, values: seq<u32>, n: nat, limit: nat, x: int, width: nat)
    requires n < |values| == 9 && limit > 0
    requires forall s :: s in segments ==> exists i :: 0 <= i < n && s == Share(values, i, limit, x, width)
    ensures forall s :: s in segments + [Share(values, n, limit, x, width)] ==>
              exists i :: 0 <= i < n + 1 && s == Share(values, i, limit, x, width)
  {
    hide Share;
    forall t | t in segments ensures exists i :: 0 <= i < n + 1 && t == Share(values, i, limit, x, width) {
      var i :| 0 <= i < n && t == Share(values, i, limit, x, width);
      assert 0 <= i < n + 1;
    }
  }

  /** The loop that draws the bar; what is left over is drawn as idle. */
  method DrawBar(values: seq<u32>, limit: u32, x: int, width: nat) returns (segments: seq<Segment>, ghost drawn: seq<Segment>)
    requires |values| == 9 && limit > 0
    ensures Tiles(segments, x, x + width)
    ensures Drawn(drawn, values, 9, limit, x, width)
    ensures var rest := x + Edge(values, 9, limit, width);
            segments == drawn + if rest < x + width then [Segment(Idle, rest, x + width)] else []
  {
    hide Edge, Tiles, Drawn;
    segments := [];
    var accum: nat, drawX := 0, x;
    NothingDrawn(values, limit, x, width);
    for i := 0 to 9
      invariant accum == Accumulated(values, i, limit)
      invariant drawX == x + Edge(values, i, limit, width)
      invariant Drawn(segments, values, i, limit, x, width)
    {
      var prev := accum;
      accum := accum + values[i];
      if accum > limit {
        accum := limit;
      }
      EdgesGrow(values, i, limit, width);
      DrawnOneMore(segments, values, i, limit, x, width);
      EdgeIsScaled(values, i, limit, width);
      EdgeIsScaled(values, i + 1, limit, width);
      var x0, x1 := x + Scale(prev, width, limit), x + Scale(accum, width, limit);
      if x1 <= x0 {
        continue;
      }
      segments := segments + [Segment(AllSlots()[i], x0, x1)];
      drawX := x1;
    }
    drawn := segments;
    DrawnTiles(drawn, values, limit, x, width);
    EdgesGrow(values, 8, limit, width);
    if drawX < x + width {
      TilesJoin(segments, x, drawX, Segment(Idle, drawX, x + width));
      segments := segments + [Segment(Idle, drawX, x + width)];
    }
  }

  lemma EdgeIsScaled(values: seq<u32>, n: nat, limit: nat, width: nat)
    requires n <= |values| && limit > 0
    ensures Edge(values, n, limit, width) == Scale(Accumulated(values, n, limit), width, limit)
  {
  }

  lemma NothingDrawn(values: seq<u32>, limit: nat, x: int, width: nat)
    requires |values| == 9 && limit > 0
    ensures Edge(values, 0, limit, width) == 0 && Drawn([], values, 0, limit, x, width)
  {
    EdgesGrow(values, 0, limit, width);
  }

  lemma DrawnTiles(segments: seq<Segment>, values: seq<u32>, limit: nat, x: int, width: nat)
    requires |values| == 9 && limit > 0 && Drawn(segments, values, 9, limit, x, width)
    ensures Tiles(segments, x, x + Edge(values, 9, limit, width))
  {
  }

  /** A frame's counters always fit the bar, so its segments are the counters' shares. */
  lemma FrameFitsTheBar(c: Counters, rows: nat, stride: nat, records: seq<DmaRecord>)
    requires Counts(c, records) && |records| <= U32_MAX
    ensures Prefix(Values(c), 9) == c.Sum() <= TotalMax(c, rows, stride)
  {
    SlotsAreConserved(c, records);
    var v := Values(c);
    PrefixOfThree(v, 0);
    PrefixOfThree(v, 3);
    PrefixOfThree(v, 6);
  }

  lemma PrefixOfThree(v: seq<u32>, n: nat)
    requires n + 3 <= |v|
    ensures Prefix(v, n + 3) == Prefix(v, n) + v[n] + v[n + 1] + v[n + 2]
    ensures Prefix(v, 0) == 0
  {
    assert Prefix(v, n + 3) == Prefix(v, n + 2) + v[n + 2];
    assert Prefix(v, n + 2) == Prefix(v, n + 1) + v[n + 1];
  }

  function AtMost(n: nat, limit: nat): nat {
    if n < limit then n else limit
  }

  /** The bar from left to right: each kind begins where the kinds before it end, in this order. */
  lemma BarOrder(c: Counters, limit: u32, x: int, width: nat, i: nat)
    requires limit > 0 && i < 9
    ensures var s, v := Share(Values(c), i, limit, x, width), Values(c);
            && s.color == [Cpu, Copper, Audio, Blitter, Bitplane, Sprite, Disk, Other, Idle][i]
            && v[i] == [c.cpu, c.copper, c.audio, c.blitter, c.bitplane, c.sprite, c.disk, c.other, c.idle][i]
            && s.x0 == x + AtMost(SumOf(v[..i]), limit) * width / limit
            && s.x1 == x + AtMost(SumOf(v[..i + 1]), limit) * width / limit
  {
    PrefixIsSum(Values(c), i);
    PrefixIsSum(Values(c), i + 1);
  }

  function SumOf(s: seq<u32>): nat {
    if s == [] then 0 else s[0] + SumOf(s[1..])
  }

  lemma {:induction false} SumOfMore(s: seq<u32>, v: u32)
    ensures SumOf(s + [v]) == SumOf(s) + v
  {
    if s == [] {
      assert [] + [v] == [v] && [v][1..] == [];
    } else {
      assert (s + [v])[1..] == s[1..] + [v];
      SumOfMore(s[1..], v);
    }
  }

  lemma {:induction false} PrefixIsSum(values: seq<u32>, n: nat)
    requires n <= |values|
    ensures Prefix(values, n) == SumOf(values[..n])
  {
    if n > 0 {
      PrefixIsSum(values, n - 1);
      assert values[..n] == values[..n - 1] + [values[n - 1]];
      SumOfMore(values[..n - 1], values[n - 1]);
    }
  }
}
