/**
 The overlay on runs of any kind, with a decay that changes and a counter that goes back, said of the
 spans themselves: what a pixel remembers, what the blit table holds, and what the buffers hold of both.
 */
module OverlayRuns {
  import opened Bits
  import BlitTable
  import opened OverlaySpec
  import opened Overlay
  import opened Sequences
  import Recency

  // ---------- Every cover of a pixel ----------

  ghost predicate Before(a: (nat, nat), b: (nat, nat)) {
    a.0 < b.0 || (a.0 == b.0 && a.1 < b.1)
  }

  /** Frame and place of all spans of a run that are drawn on the pixel, in order. */
  ghost predicate AllDrawn(hist: seq<Frame>, p: nat, at: seq<(nat, nat)>, w: nat, h: nat)
    requires w > 0
  {
    && (forall i, k :: DrawnAt(hist, p, i, k, w, h) <==> i >= 0 && k >= 0 && (i, k) in at)
    && forall a, b :: 0 <= a < b < |at| ==> Before(at[a], at[b])
  }

  /** The covers of a run are those of all spans drawn on the pixel, in the order they were drawn in. */
  lemma {:induction false} AllCoversAre(hist: seq<Frame>, p: nat, w: nat, h: nat) returns (at: seq<(nat, nat)>)
    requires w > 0
    ensures AllDrawn(hist, p, at, w, h) && |AllCovers(hist, p, w, h)| == |at|
    ensures forall n :: 0 <= n < |at| ==>
              && at[n].0 < |hist| && at[n].1 < |hist[at[n].0].spans|
              && AllCovers(hist, p, w, h)[n] == Cover(hist[at[n].0].spans[at[n].1], hist[at[n].0].counter)
  {
    hide Covers, CoversIn, AllDrawn, AllCovers;
    at := [];
    if hist == [] {
      NoneDrawn(p, w, h);
    } else {
      var f, before := hist[|hist| - 1], hist[..|hist| - 1];
      AllCoversUnfold(hist, p, w, h);
      var first := AllCoversAre(before, p, w, h);
      var ks := CoversInAre(f, |f.spans|, p, w, h);
      var last: seq<(nat, nat)> := seq(|ks|, n requires 0 <= n < |ks| => (|before|, ks[n]));
      at := first + last;
      AllCoversStep(hist, p, first, ks, last, w, h);
    }
  }

  lemma NoneDrawn(p: nat, w: nat, h: nat)
    requires w > 0
    ensures AllDrawn([], p, [], w, h) && AllCovers([], p, w, h) == []
  {
  }

  lemma AllCoversUnfold(hist: seq<Frame>, p: nat, w: nat, h: nat)
    requires w > 0 && hist != []
    ensures var f := hist[|hist| - 1];
            AllCovers(hist, p, w, h) == AllCovers(hist[..|hist| - 1], p, w, h) + CoversIn(f, |f.spans|, p, w, h)
  {
  }

  /** The same within a frame. */
  lemma {:induction false} CoversInAre(f: Frame, n: nat, p: nat, w: nat, h: nat) returns (ks: seq<nat>)
    requires w > 0 && n <= |f.spans|
    ensures forall k :: 0 <= k < n && Covers(f.spans[k], p, w, h) <==> k in ks
    ensures forall a, b :: 0 <= a < b < |ks| ==> ks[a] < ks[b]
    ensures |CoversIn(f, n, p, w, h)| == |ks|
    ensures forall a :: 0 <= a < |ks| ==> ks[a] < n && CoversIn(f, n, p, w, h)[a] == Cover(f.spans[ks[a]], f.counter)
  {
    hide Covers;
    ks := [];
    if n > 0 {
      ks := CoversInAre(f, n - 1, p, w, h);
      assert forall a :: 0 <= a < |ks| ==> ks[a] in ks;
      if Covers(f.spans[n - 1], p, w, h) {
        ks := ks + [n - 1];
      }
    }
  }

  lemma AllCoversStep(hist: seq<Frame>, p: nat, first: seq<(nat, nat)>, ks: seq<nat>, last: seq<(nat, nat)>, w: nat, h: nat)
    requires w > 0 && hist != [] && AllDrawn(hist[..|hist| - 1], p, first, w, h)
    requires var f := hist[|hist| - 1];
             && (forall k :: 0 <= k < |f.spans| && Covers(f.spans[k], p, w, h) <==> k in ks)
             && forall a, b :: 0 <= a < b < |ks| ==> ks[a] < ks[b]
    requires |last| == |ks| && forall a :: 0 <= a < |ks| ==> last[a] == (|hist| - 1, ks[a])
    ensures AllDrawn(hist, p, first + last, w, h)
  {
    hide Covers;
    var f, before, at := hist[|hist| - 1], hist[..|hist| - 1], first + last;
    forall i, k ensures DrawnAt(hist, p, i, k, w, h) <==> i >= 0 && k >= 0 && (i, k) in at {
      if i == |before| {
        if 0 <= k < |f.spans| {
          CoversIsRowAndColumn(f.spans[k], p, w, h);
        }
        assert !DrawnAt(before, p, i, k, w, h);
        if k >= 0 && k in ks {
          var a :| 0 <= a < |ks| && ks[a] == k;
          assert last[a] == (i, k);
        }
      } else {
        assert DrawnAt(hist, p, i, k, w, h) <==> DrawnAt(before, p, i, k, w, h);
      }
    }
    forall a, b | 0 <= a < b < |at| ensures Before(at[a], at[b]) {
      if a < |first| <= b {
        assert at[a] in first && DrawnAt(before, p, at[a].0, at[a].1, w, h);
      }
    }
  }

  // ---------- What a pixel remembers ----------

  lemma {:induction false} NeverDrawn(hist: seq<Frame>, p: nat, w: nat, h: nat)
    requires w > 0 && forall i, k :: !DrawnAt(hist, p, i, k, w, h)
    ensures TrackOf(hist, p, w, h) == []
  {
    hide Covers, CoversIn;
    if hist != [] {
      var f, before := hist[|hist| - 1], hist[..|hist| - 1];
      forall i, k ensures !DrawnAt(before, p, i, k, w, h) {
        assert !DrawnAt(hist, p, i, k, w, h);
      }
      NeverDrawn(before, p, w, h);
      var k := LastInFrame(f, |f.spans|, p, w, h);
      assert !DrawnAt(hist, p, |before|, k, w, h);
      if k >= 0 {
        CoversIsRowAndColumn(f.spans[k], p, w, h);
      }
    }
  }

  /** What was drawn in frame i was younger than the decay then and in every frame since. */
  ghost predicate StaysFresh(hist: seq<Frame>, i: int) {
    0 <= i < |hist| && forall j :: i <= j < |hist| ==> (hist[j].counter - hist[i].counter) % 0x1_0000_0000 < hist[j].decay
  }

  lemma StaysFreshStep(hist: seq<Frame>, i: int)
    requires 0 <= i < |hist|
    ensures var f := hist[|hist| - 1];
            StaysFresh(hist, i) <==>
            && (i == |hist| - 1 || StaysFresh(hist[..|hist| - 1], i))
            && (f.counter - hist[i].counter) % 0x1_0000_0000 < f.decay
  {
    var before := hist[..|hist| - 1];
    assert forall j :: 0 <= j < |before| ==> before[j] == hist[j];
  }

  lemma SweptIs(t: seq<Cover>, f: Frame)
    requires t != []
    ensures var young := (f.counter - t[|t| - 1].frame) % 0x1_0000_0000 < f.decay;
            (Swept(t, f) != [] <==> young) && Swept(t, f) == if young then t else []
  {
    SubtractIsRemainder(f.counter, Last(t).frame);
  }

  lemma TrackUnfolds(hist: seq<Frame>, p: nat, w: nat, h: nat)
    requires w > 0 && hist != []
    ensures var f := hist[|hist| - 1];
            TrackOf(hist, p, w, h) == Swept(TrackOf(hist[..|hist| - 1], p, w, h) + CoversIn(f, |f.spans|, p, w, h), f)
  {
  }

  /** The last span drawn on the pixel within the last frame, if there is one. */
  lemma LastFrame(hist: seq<Frame>, p: nat, i: int, k: int, w: nat, h: nat)
    requires w > 0 && DrawnAt(hist, p, i, k, w, h) && NoneLater(hist, p, i, k, w, h)
    ensures var f := hist[|hist| - 1];
            var c := CoversIn(f, |f.spans|, p, w, h);
            && (i == |hist| - 1 <==> c != [])
            && (c != [] ==> Last(c) == Cover(f.spans[k], f.counter))
            && (c == [] ==> DrawnAt(hist[..|hist| - 1], p, i, k, w, h) && NoneLater(hist[..|hist| - 1], p, i, k, w, h))
  {
    hide Covers, CoversIn;
    var f, before := hist[|hist| - 1], hist[..|hist| - 1];
    var last := LastInFrame(f, |f.spans|, p, w, h);
    if last >= 0 {
      CoversIsRowAndColumn(f.spans[last], p, w, h);
      assert DrawnAt(hist, p, |before|, last, w, h);
    }
    if i == |before| {
      CoversIsRowAndColumn(f.spans[k], p, w, h);
    } else {
      forall j, l | DrawnAt(before, p, j, l, w, h) ensures j < i || (j == i && l <= k) {
        assert DrawnAt(hist, p, j, l, w, h);
      }
    }
  }

  /**
   A pixel is shown at the end of a run if and only if the last span drawn on it was younger than the decay in
   its own frame and in every frame since; and then its colour is that of this span.
   */
  lemma {:induction false} ShownIff(hist: seq<Frame>, p: nat, i: int, k: int, w: nat, h: nat)
    requires w > 0 && DrawnAt(hist, p, i, k, w, h) && NoneLater(hist, p, i, k, w, h)
    ensures 0 <= i < |hist| && 0 <= k < |hist[i].spans|
    ensures TrackOf(hist, p, w, h) != [] <==> StaysFresh(hist, i)
    ensures TrackOf(hist, p, w, h) != [] ==> Last(TrackOf(hist, p, w, h)) == Cover(hist[i].spans[k], hist[i].counter)
    decreases |hist|
  {
    hide CoversIn, DrawnAt, NoneLater, Swept, TrackOf, StaysFresh;
    DrawnInBounds(hist, p, i, k, w, h);
    var f, before := hist[|hist| - 1], hist[..|hist| - 1];
    var was, latest := TrackOf(before, p, w, h), CoversIn(f, |f.spans|, p, w, h);
    LastFrame(hist, p, i, k, w, h);
    TrackUnfolds(hist, p, w, h);
    StaysFreshStep(hist, i);
    if latest == [] {
      ShownIff(before, p, i, k, w, h);
      assert was + latest == was;
    } else {
      assert Last(was + latest) == Last(latest);
    }
    if was + latest != [] {
      SweptIs(was + latest, f);
    } else {
      NothingSwept(f);
    }
  }

  lemma NothingSwept(f: Frame)
    ensures Swept([], f) == []
  {
  }

  /** A pixel remembers everything drawn on it since it was last dark, and nothing from before. */
  lemma {:induction false} RemembersSince(hist: seq<Frame>, n: nat, p: nat, w: nat, h: nat)
    requires w > 0 && n <= |hist| && TrackOf(hist[..n], p, w, h) == []
    requires forall m :: n < m <= |hist| ==> TrackOf(hist[..m], p, w, h) != []
    ensures TrackOf(hist, p, w, h) == AllCovers(hist[n..], p, w, h)
    decreases |hist|
  {
    hide CoversIn, TrackOf, AllCovers;
    if n == |hist| {
      assert hist[..n] == hist;
      NoneDrawn(p, w, h);
    } else {
      var f, before, after := hist[|hist| - 1], hist[..|hist| - 1], hist[n..];
      TrackUnfolds(hist, p, w, h);
      AllCoversUnfold(after, p, w, h);
      assert before[..n] == hist[..n] && hist[..|hist|] == hist;
      forall m | n < m <= |before| ensures TrackOf(before[..m], p, w, h) != [] {
        assert before[..m] == hist[..m];
      }
      RemembersSince(before, n, p, w, h);
      assert after[..|after| - 1] == before[n..];
    }
  }

  /** The ids a pixel keeps are the four used last, or all of them, the one used last first. */
  lemma HistoryIs(t: seq<Cover>)
    ensures var ids := HistoryOf(t);
            && Distinct(ids) && |ids| <= 4
            && (forall id :: id in ids ==> exists n :: 0 <= n < |t| && t[n].span.blitId == id)
            && (forall a, b :: 0 <= a < b < |ids| ==> DrawnAfter(t, ids[a], ids[b]))
            && (forall n :: 0 <= n < |t| && t[n].span.blitId !in ids ==>
                  |ids| == 4 && forall a :: 0 <= a < 4 ==> DrawnAfter(t, ids[a], t[n].span.blitId))
  {
    var all, r := Ids(t), Recency.ByRecency(Ids(t));
    Recency.ByRecencyIsOrdered(all);
    HistoryBasics(t);
    forall a, b | 0 <= a < b < |r| ensures DrawnAfter(t, r[a], r[b]) {
      UsedAfterIsDrawnAfter(t, r[a], r[b]);
    }
    forall n | 0 <= n < |t| && t[n].span.blitId !in HistoryOf(t)
      ensures |HistoryOf(t)| == 4 && forall a :: 0 <= a < 4 ==> DrawnAfter(t, HistoryOf(t)[a], t[n].span.blitId)
    {
      assert all[n] in r;
      var b :| 0 <= b < |r| && r[b] == all[n];
      assert forall a :: 0 <= a < |HistoryOf(t)| ==> HistoryOf(t)[a] == r[a] && r[a] in HistoryOf(t);
    }
  }

  /** A cover with id x comes after all covers with id y. */
  ghost predicate DrawnAfter(t: seq<Cover>, x: nat, y: nat) {
    exists n :: 0 <= n < |t| && t[n].span.blitId == x && forall m :: n <= m < |t| ==> t[m].span.blitId != y
  }

  lemma UsedAfterIsDrawnAfter(t: seq<Cover>, x: nat, y: nat)
    requires Recency.UsedAfter(Ids(t), x, y)
    ensures DrawnAfter(t, x, y)
  {
    var ids := Ids(t);
    var n :| 0 <= n < |ids| && ids[n] == x && y !in ids[n..];
    forall m | n <= m < |t| ensures t[m].span.blitId != y {
      assert ids[n..][m - n] == t[m].span.blitId;
    }
    assert t[n].span.blitId == x;
  }

  // ---------- What the blit table holds ----------

  /** Span k of frame i starts on the screen and has this id. */
  ghost predicate LandsAt(hist: seq<Frame>, id: nat, i: int, k: int, w: nat, h: nat) {
    0 <= i < |hist| && 0 <= k < |hist[i].spans| &&
    var s := hist[i].spans[k];
    s.x < w && s.y < h && s.blitId == id && id != 0
  }

  ghost predicate NoneLandsLater(hist: seq<Frame>, id: nat, i: int, k: int, w: nat, h: nat) {
    forall j, l :: LandsAt(hist, id, j, l, w, h) ==> j < i || (j == i && l <= k)
  }

  lemma {:induction false} RecordedInIs(m: map<nat, BlitTable.Record>, f: Frame, n: nat, id: nat, w: nat, h: nat) returns (k: int)
    requires n <= |f.spans|
    ensures -1 <= k < n
    ensures k == -1 ==> (id in RecordedIn(m, f, n, w, h) <==> id in m) && (id in m ==> RecordedIn(m, f, n, w, h)[id] == m[id])
    ensures k >= 0 ==>
              && f.spans[k].x < w && f.spans[k].y < h && f.spans[k].blitId == id && id != 0
              && id in RecordedIn(m, f, n, w, h) && RecordedIn(m, f, n, w, h)[id] == BlitTable.Record(f.counter, f.spans[k])
    ensures forall l :: k < l < n && f.spans[l].x < w && f.spans[l].y < h ==> f.spans[l].blitId == 0 || f.spans[l].blitId != id
  {
    k := -1;
    if n > 0 {
      var s := f.spans[n - 1];
      k := RecordedInIs(m, f, n - 1, id, w, h);
      if s.x < w && s.y < h && s.blitId == id && id != 0 {
        k := n - 1;
      }
    }
  }

  /** The record of an id is that of the last span with it that starts on the screen. */
  lemma {:induction false} RecordIs(hist: seq<Frame>, id: nat, i: int, k: int, w: nat, h: nat)
    requires LandsAt(hist, id, i, k, w, h) && NoneLandsLater(hist, id, i, k, w, h)
    ensures var m := Recorded(hist, w, h);
            id in m && m[id].frame == hist[i].counter && m[id].span == hist[i].spans[k]
  {
    hide RecordedIn;
    var f, before := hist[|hist| - 1], hist[..|hist| - 1];
    var last := RecordedInIs(Recorded(before, w, h), f, |f.spans|, id, w, h);
    if last >= 0 {
      assert LandsAt(hist, id, |before|, last, w, h);
    }
    if i == |before| {
      assert last == k;
    } else {
      assert last == -1;
      assert LandsAt(before, id, i, k, w, h);
      forall j, l | LandsAt(before, id, j, l, w, h) ensures j < i || (j == i && l <= k) {
        assert LandsAt(hist, id, j, l, w, h);
      }
      RecordIs(before, id, i, k, w, h);
    }
  }

  /** Other ids have no record. */
  lemma {:induction false} NoRecord(hist: seq<Frame>, id: nat, w: nat, h: nat)
    requires forall i, k :: !LandsAt(hist, id, i, k, w, h)
    ensures id !in Recorded(hist, w, h)
  {
    hide RecordedIn;
    if hist != [] {
      var f, before := hist[|hist| - 1], hist[..|hist| - 1];
      forall i, k ensures !LandsAt(before, id, i, k, w, h) {
        assert !LandsAt(hist, id, i, k, w, h);
      }
      NoRecord(before, id, w, h);
      var last := RecordedInIs(Recorded(before, w, h), f, |f.spans|, id, w, h);
      assert !LandsAt(hist, id, |before|, last, w, h);
    }
  }

  // ---------- What the buffers hold ----------

  /** In the buffers a pixel that is shown has the colour and the fields of the last span drawn on it. */
  lemma ShownPixelIs(o: Overlay, p: nat, i: int, k: int)
    requires o.Valid() && p < o.width * o.height && StaysFresh(o.hist, i)
    requires DrawnAt(o.hist, p, i, k, o.width, o.height) && NoneLater(o.hist, p, i, k, o.width, o.height)
    ensures p < o.pixels.Length && p < o.retained.Length && 0 <= i < |o.hist| && 0 <= k < |o.hist[i].spans|
    ensures var f, s := o.hist[|o.hist| - 1], o.hist[i].spans[k];
            o.pixels[p] == AlphaForAge((f.counter - o.hist[i].counter) % U32_LIMIT, f.decay) * 0x100_0000 + Rgb(s.blitId)
    ensures RetainedIs(o.retained[p], o.hist[i].spans[k], o.hist[i].counter)
  {
    hide TrackOf, AlphaForAge, Rgb, DrawnAt, NoneLater, StaysFresh, PixelMatches, Overlay.Valid, RetainedIs;
    ShownIff(o.hist, p, i, k, o.width, o.height);
    PixelHolds(o, p);
    SubtractIsRemainder(o.hist[|o.hist| - 1].counter, o.hist[i].counter);
    ShadeIs(TrackOf(o.hist, p, o.width, o.height), o.hist[|o.hist| - 1]);
    MatchIs(o.retained[p], TrackOf(o.hist, p, o.width, o.height));
  }

  /** The fields kept of a span drawn in a frame. */
  predicate RetainedIs(px: RetainedPixel, s: BlitTable.Span, counter: nat) {
    && px.blitId == s.blitId && px.frame == counter && px.rgb == Rgb(s.blitId) && px.detail == s.detail
    && px.sourceInfo % 0x8000_0000 == s.sourceAddr % 0x100_0000 && (px.sourceInfo >= 0x8000_0000 <==> s.sourceIsCopper)
  }

  lemma ShadeIs(t: seq<Cover>, f: Frame)
    requires t != []
    ensures Shade(t, f) == AlphaForAge(Sub32(f.counter, Last(t).frame), f.decay) * 0x100_0000 + Rgb(Last(t).span.blitId)
  {
  }

  lemma MatchIs(px: RetainedPixel, t: seq<Cover>)
    requires PixelMatches(px, t)
    ensures t == [] ==> px.blitId == 0
    ensures t != [] ==> RetainedIs(px, Last(t).span, Last(t).frame)
  {
    hide HistoryOf, Rgb, PackSource;
    if t != [] {
      PackSourceIs(Last(t).span.sourceAddr, Last(t).span.sourceIsCopper);
    }
  }

  /** What a valid overlay holds at a pixel, by what the pixel remembers. */
  lemma PixelHolds(o: Overlay, p: nat)
    requires o.Valid() && p < o.width * o.height
    ensures o.width > 0 && p < o.pixels.Length && p < o.retained.Length && p < o.active.slots.Length
    ensures var t := TrackOf(o.hist, p, o.width, o.height);
            && PixelMatches(o.retained[p], t) && (o.active.slots[p] != 0 <==> t != [])
            && (t == [] ==> o.pixels[p] == 0) && (t != [] && o.hist != [] ==> o.pixels[p] == Shade(t, Last(o.hist)))
  {
    hide TrackOf, PixelMatches, Shade;
    assert Tracks(o.hist, o.width, o.height)[p] == TrackOf(o.hist, p, o.width, o.height);
    assert o.retained[..][p] == o.retained[p] && o.active.slots[..][p] == o.active.slots[p] && o.pixels[..][p] == o.pixels[p];
  }

  /** Every other pixel is dark. */
  lemma DarkPixelIs(o: Overlay, p: nat)
    requires o.Valid() && p < o.width * o.height
    requires forall i, k :: DrawnAt(o.hist, p, i, k, o.width, o.height) && NoneLater(o.hist, p, i, k, o.width, o.height) ==>
               !StaysFresh(o.hist, i)
    ensures p < o.pixels.Length && p < o.retained.Length && p < o.active.slots.Length
    ensures o.pixels[p] == 0 && o.retained[p].blitId == 0 && o.active.slots[p] == 0
  {
    hide TrackOf, AllCovers, DrawnAt, NoneLater, StaysFresh, PixelMatches, Overlay.Valid;
    PixelHolds(o, p);
    var i, k := LastDrawn(o.hist, p, o.width, o.height);
    if AllCovers(o.hist, p, o.width, o.height) == [] {
      NeverDrawn(o.hist, p, o.width, o.height);
    } else {
      ShownIff(o.hist, p, i, k, o.width, o.height);
    }
    MatchIs(o.retained[p], TrackOf(o.hist, p, o.width, o.height));
  }
}
