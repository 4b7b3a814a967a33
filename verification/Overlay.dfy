/** The blitter overlay: spans are scattered into retained pixels, then a sweep fades and clears them. */
module Overlay {
  import opened Bits
  import BT = BlitTable
  import AS = ActiveSet
  import opened OverlaySpec
  import opened Sequences

  type Span = BT.Span

  /** What the overlay keeps for a pixel. Only the first historyCount ids are meaningful. */
  datatype RetainedPixel = RetainedPixel(blitId: nat, frame: nat, rgb: nat, sourceInfo: nat, detail: seq<int>,
                                         historyCount: nat, historyIds: seq<nat>)
  {
    function History(): seq<nat>
      requires historyCount <= |historyIds|
    {
      historyIds[..historyCount]
    }
  }

  const NO_PIXEL := RetainedPixel(0, 0, 0, 0, [], 0, [0, 0, 0, 0])

  function PackSource(addr: u32, isCopper: bool): nat {
    addr % 0x100_0000 + if isCopper then 0x8000_0000 else 0
  }

  /** The address in 24 bits, and the source's kind in the highest. */
  lemma PackSourceIs(addr: u32, isCopper: bool)
    ensures var info := PackSource(addr, isCopper);
            info % 0x8000_0000 == addr % 0x100_0000 && (info >= 0x8000_0000 <==> isCopper) && info < 0x1_0000_0000
  {
  }

  /** A retained pixel is exactly what the covers the pixel remembers make of it. */
  ghost predicate PixelMatches(px: RetainedPixel, t: seq<Cover>) {
    && |px.historyIds| == Recency.HISTORY && px.historyCount <= Recency.HISTORY
    && px.History() == HistoryOf(t)
    && (t == [] ==> px.blitId == 0)
    && (t != [] ==>
          && px.blitId == Last(t).span.blitId && px.blitId != 0
          && px.frame == Last(t).frame
          && px.rgb == Rgb(px.blitId)
          && px.sourceInfo == PackSource(Last(t).span.sourceAddr, Last(t).span.sourceIsCopper)
          && px.detail == Last(t).span.detail)
  }

  /** Pixel p is retained, and is on the active list, exactly if it remembers a cover. */
  ghost predicate Matches(retained: seq<RetainedPixel>, slots: seq<nat>, tracks: seq<seq<Cover>>) {
    && |tracks| <= |retained| && |tracks| <= |slots|
    && forall p :: 0 <= p < |tracks| ==> PixelMatches(retained[p], tracks[p]) && (slots[p] != 0 <==> tracks[p] != [])
  }

  // ---------- The tracks of all pixels ----------

  function Painted(tracks: seq<seq<Cover>>, c: Cover, a: nat, b: nat): (r: seq<seq<Cover>>)
    ensures |r| == |tracks|
  {
    seq(|tracks|, p requires 0 <= p < |tracks| => if a <= p < b then tracks[p] + [c] else tracks[p])
  }

  /** The tracks after the first n spans of a frame have been scattered. */
  function Scattered(hist: seq<Frame>, f: Frame, n: nat, w: nat, h: nat): (r: seq<seq<Cover>>)
    requires w > 0 && n <= |f.spans|
    ensures |r| == Area(w, h)
  {
    seq(Area(w, h), p requires 0 <= p < Area(w, h) => TrackOf(hist, p, w, h) + CoversIn(f, n, p, w, h))
  }

  function Tracks(hist: seq<Frame>, w: nat, h: nat): (r: seq<seq<Cover>>)
    requires w > 0
    ensures |r| == Area(w, h)
  {
    seq(Area(w, h), p requires 0 <= p < Area(w, h) => TrackOf(hist, p, w, h))
  }

  function SweptAll(tracks: seq<seq<Cover>>, f: Frame): (r: seq<seq<Cover>>)
    ensures |r| == |tracks|
  {
    seq(|tracks|, p requires 0 <= p < |tracks| => Swept(tracks[p], f))
  }

  lemma PaintOne(tracks: seq<seq<Cover>>, c: Cover, a: nat, b: nat)
    requires a <= b < |tracks|
    ensures Painted(tracks, c, a, b)[b := Painted(tracks, c, a, b)[b] + [c]] == Painted(tracks, c, a, b + 1)
  {
  }

  lemma ScatterStarts(hist: seq<Frame>, f: Frame, w: nat, h: nat)
    requires w > 0
    ensures Scattered(hist, f, 0, w, h) == Tracks(hist, w, h)
  {
    var a, b := Scattered(hist, f, 0, w, h), Tracks(hist, w, h);
    forall p | 0 <= p < Area(w, h) ensures a[p] == b[p] {
      assert TrackOf(hist, p, w, h) + [] == TrackOf(hist, p, w, h);
    }
  }

  /** A span extends the tracks of the pixels from its first to its last column, and no other. */
  lemma ScatterStep(hist: seq<Frame>, f: Frame, n: nat, w: nat, h: nat)
    requires w > 0 && n < |f.spans|
    ensures var s := f.spans[n];
            Scattered(hist, f, n + 1, w, h) ==
            if Lands(s, w, h) then
              Painted(Scattered(hist, f, n, w, h), Cover(s, f.counter), RowStart(s.y, w) + s.x, RowStart(s.y, w) + EndX(s, w) + 1)
            else Scattered(hist, f, n, w, h)
  {
    var s := f.spans[n];
    var before, after := Scattered(hist, f, n, w, h), Scattered(hist, f, n + 1, w, h);
    var painted := Painted(before, Cover(s, f.counter), RowStart(s.y, w) + s.x, RowStart(s.y, w) + EndX(s, w) + 1);
    forall p | 0 <= p < Area(w, h)
      ensures after[p] == if Lands(s, w, h) then painted[p] else before[p]
    {
      var t, c := TrackOf(hist, p, w, h), CoversIn(f, n, p, w, h);
      assert t + (c + [Cover(s, f.counter)]) == (t + c) + [Cover(s, f.counter)];
      assert t + (c + []) == t + c;
    }
  }

  lemma SweepEnds(hist: seq<Frame>, f: Frame, w: nat, h: nat)
    requires w > 0
    ensures SweptAll(Scattered(hist, f, |f.spans|, w, h), f) == Tracks(hist + [f], w, h)
  {
    var a, b := SweptAll(Scattered(hist, f, |f.spans|, w, h), f), Tracks(hist + [f], w, h);
    assert (hist + [f])[..|hist|] == hist;
    forall p | 0 <= p < Area(w, h) ensures a[p] == b[p] {
    }
  }

  lemma MatchOne(retained: seq<RetainedPixel>, slots: seq<nat>, tracks: seq<seq<Cover>>,
                 p: nat, px: RetainedPixel, slot: nat, t: seq<Cover>)
    requires Matches(retained, slots, tracks) && p < |tracks|
    requires PixelMatches(px, t) && (slot != 0 <==> t != [])
    ensures Matches(retained[p := px], slots[p := slot], tracks[p := t])
  {
  }

  /** Remembering one more cover: the history moves the id to its front. */
  lemma CoverRemembered(px: RetainedPixel, t: seq<Cover>, c: Cover, count: nat, ids: seq<nat>)
    requires PixelMatches(px, t) && c.span.blitId != 0
    requires |ids| == Recency.HISTORY && count <= Recency.HISTORY
    requires ids[..count] == Recency.Touch(px.History(), c.span.blitId)
    ensures PixelMatches(RetainedPixel(c.span.blitId, c.frame, Rgb(c.span.blitId),
                                       PackSource(c.span.sourceAddr, c.span.sourceIsCopper), c.span.detail, count, ids), t + [c])
    ensures Distinct(px.History())
  {
    assert Ids(t + [c]) == Ids(t) + [c.span.blitId];
    Recency.TouchIsRecency(Ids(t), c.span.blitId);
    Recency.ByRecencyIsOrdered(Ids(t));
  }

  lemma HistoryDistinct(px: RetainedPixel, t: seq<Cover>)
    requires PixelMatches(px, t)
    ensures Distinct(px.History())
  {
    Recency.ByRecencyIsOrdered(Ids(t));
  }

  // ---------- The sweep ----------

  /** Pixel p holds the faded colour of its last remembered cover. */
  ghost predicate Shown(pixels: seq<nat>, tracks: seq<seq<Cover>>, f: Frame) {
    |tracks| <= |pixels| && forall p :: 0 <= p < |tracks| ==> pixels[p] == Shade(tracks[p], f)
  }

  /**
   Midway through a sweep of f that has reached position n of the active list: pixels behind it
   are faded, pixels off the list are cleared, pixels still ahead are as they were.
   */
  ghost predicate HalfSwept(pixels: seq<nat>, retained: seq<RetainedPixel>, slots: seq<nat>,
                            tracks: seq<seq<Cover>>, f: Frame, n: nat)
  {
    && |tracks| <= |pixels| && |tracks| <= |retained| && |tracks| <= |slots|
    && forall p :: 0 <= p < |tracks| ==> PixelSwept(pixels[p], retained[p], slots[p], tracks[p], f, n)
  }

  ghost predicate PixelSwept(pixel: nat, px: RetainedPixel, slot: nat, t: seq<Cover>, f: Frame, n: nat) {
    if slot > n then PixelMatches(px, t) && t != []
    else
      && PixelMatches(px, Swept(t, f)) && pixel == Shade(Swept(t, f), f)
      && (slot != 0 <==> Swept(t, f) != [])
  }

  lemma SweepBegins(pixels: seq<nat>, retained: seq<RetainedPixel>, slots: seq<nat>, tracks: seq<seq<Cover>>, f: Frame)
    requires Matches(retained, slots, tracks) && |tracks| <= |pixels|
    requires forall p :: 0 <= p < |tracks| && slots[p] == 0 ==> pixels[p] == 0
    ensures HalfSwept(pixels, retained, slots, tracks, f, 0)
  {
  }

  lemma SweepDone(pixels: seq<nat>, retained: seq<RetainedPixel>, slots: seq<nat>, tracks: seq<seq<Cover>>, f: Frame, n: nat)
    requires HalfSwept(pixels, retained, slots, tracks, f, n)
    requires forall p :: 0 <= p < |tracks| ==> slots[p] <= n
    ensures Matches(retained, slots, SweptAll(tracks, f)) && Shown(pixels, SweptAll(tracks, f), f)
    ensures forall p :: 0 <= p < |tracks| && slots[p] == 0 ==> pixels[p] == 0
  {
    assert forall p :: 0 <= p < |tracks| ==> PixelSwept(pixels[p], retained[p], slots[p], tracks[p], f, n);
  }

  /** A fresh pixel at position n is faded and left behind. */
  lemma SweepKeeps(pixels: seq<nat>, retained: seq<RetainedPixel>, slots: seq<nat>, tracks: seq<seq<Cover>>, f: Frame,
                   n: nat, p: nat)
    requires HalfSwept(pixels, retained, slots, tracks, f, n) && p < |tracks| && slots[p] == n + 1
    requires forall q :: 0 <= q < |tracks| && slots[q] == n + 1 ==> q == p
    requires Swept(tracks[p], f) == tracks[p]
    ensures HalfSwept(pixels[p := Shade(tracks[p], f)], retained, slots, tracks, f, n + 1)
  {
    forall q | 0 <= q < |tracks|
      ensures PixelSwept(pixels[p := Shade(tracks[p], f)][q], retained[q], slots[q], tracks[q], f, n + 1)
    {
      assert PixelSwept(pixels[q], retained[q], slots[q], tracks[q], f, n);
    }
  }

  /** A stale pixel at position n is cleared and removed; the pixel moved into its place is still ahead. */
  lemma SweepClears(pixels: seq<nat>, retained: seq<RetainedPixel>, slots: seq<nat>, slots': seq<nat>,
                    tracks: seq<seq<Cover>>, f: Frame, n: nat, p: nat)
    requires HalfSwept(pixels, retained, slots, tracks, f, n) && p < |tracks| && slots[p] == n + 1
    requires Swept(tracks[p], f) == []
    requires |slots'| == |slots| && slots'[p] == 0
    requires forall q :: 0 <= q < |tracks| && q != p ==> slots'[q] == slots[q] || (slots[q] > n && slots'[q] == n + 1)
    ensures HalfSwept(pixels[p := 0], retained[p := NO_PIXEL], slots', tracks, f, n)
  {
    assert HistoryOf([]) == NO_PIXEL.History();
    forall q | 0 <= q < |tracks|
      ensures PixelSwept(pixels[p := 0][q], retained[p := NO_PIXEL][q], slots'[q], tracks[q], f, n)
    {
      assert PixelSwept(pixels[q], retained[q], slots[q], tracks[q], f, n);
    }
  }

  lemma NothingRecorded(m: map<nat, BT.Record>, f: Frame, w: nat, h: nat)
    ensures RecordedIn(m, f, 0, w, h) == m
  {
  }

  lemma RecordStep(m: map<nat, BT.Record>, f: Frame, n: nat, w: nat, h: nat)
    requires n < |f.spans|
    ensures var s := f.spans[n];
            RecordedIn(m, f, n + 1, w, h) ==
            if Lands(s, w, h) then RecordedIn(m, f, n, w, h)[s.blitId := BT.Record(f.counter, s)] else RecordedIn(m, f, n, w, h)
    ensures |RecordedIn(m, f, n, w, h)| <= |RecordedIn(m, f, n + 1, w, h)|
  {
    RecordedSizeGrows(m, f, n, w, h);
  }

  lemma RecordedSizeGrows(m: map<nat, BT.Record>, f: Frame, n: nat, w: nat, h: nat)
    requires n < |f.spans|
    ensures |RecordedIn(m, f, n, w, h)| <= |RecordedIn(m, f, n + 1, w, h)|
  {
    RecordedGrows(m, f, n, n + 1, w, h);
    SubsetSize(RecordedIn(m, f, n, w, h).Keys, RecordedIn(m, f, n + 1, w, h).Keys);
  }

  // ---------- The mouse ----------

  const MAX_HITS := 8

  /** The hits so far are the fresh ids of the first i of a history. */
  ghost predicate Listed(hits: seq<Span>, history: seq<nat>, i: nat, m: map<nat, BT.Record>, counter: u32, decay: u32)
    requires i <= |history|
  {
    HitIds(hits) + FreshIds(history[i..], m, counter, decay) == FreshIds(history, m, counter, decay)
  }

  lemma NothingListed(history: seq<nat>, m: map<nat, BT.Record>, counter: u32, decay: u32)
    ensures HitIds([]) == [] && Listed([], history, 0, m, counter, decay)
  {
    assert history[0..] == history;
  }

  lemma ListStep(hits: seq<Span>, history: seq<nat>, i: nat, m: map<nat, BT.Record>, counter: u32, decay: u32)
    requires i < |history| && Listed(hits, history, i, m, counter, decay)
    ensures if Fresh(m, history[i], counter, decay) then
              forall hit: Span :: hit.blitId == history[i] ==>
                Listed(hits + [hit], history, i + 1, m, counter, decay) && HitIds(hits + [hit]) == HitIds(hits) + [hit.blitId]
            else Listed(hits, history, i + 1, m, counter, decay)
  {
    assert history[i..][1..] == history[i + 1..];
  }

  lemma AllListed(hits: seq<Span>, history: seq<nat>, m: map<nat, BT.Record>, counter: u32, decay: u32)
    requires Listed(hits, history, |history|, m, counter, decay)
    ensures HitIds(hits) == FreshIds(history, m, counter, decay)
  {
    assert history[|history|..] == [];
  }

  lemma FreshStep(history: seq<nat>, i: nat)
    requires i < |history| && Distinct(history)
    ensures history[..i + 1] == history[..i] + [history[i]] && history[i] !in history[..i]
  {
  }

  function HitIds(hits: seq<Span>): (ids: seq<nat>)
    ensures |ids| == |hits| && forall i :: 0 <= i < |hits| ==> ids[i] == hits[i].blitId
  {
    seq(|hits|, i requires 0 <= i < |hits| => hits[i].blitId)
  }

  datatype Rect = Rect(x: int, y: int, w: int, h: int)

  predicate Inside(dst: Rect, x: int, y: int) {
    dst.w > 0 && dst.h > 0 && dst.x <= x < dst.x + dst.w && dst.y <= y < dst.y + dst.h
  }

  /** Maps a position inside a stretched picture back to the picture; it never needs the source's clamp. */
  function SourceCoord(local: nat, size: nat, stretched: nat): (c: nat)
    requires local < stretched && size > 0
    ensures c < size
  {
    ScaledBelow(local, size, stretched);
    local * size / stretched
  }

  lemma ScaledBelow(local: nat, size: nat, stretched: nat)
    requires local < stretched && size > 0
    ensures local * size / stretched < size
  {
    assert (local + 1) * size <= stretched * size;
    assert local * size < stretched * size;
    QuotientBelow(local * size, stretched, size);
  }

  function PixelUnder(dst: Rect, x: int, y: int, w: nat, h: nat): (p: nat)
    requires w > 0 && h > 0 && Inside(dst, x, y)
    ensures p < Area(w, h)
    ensures p % w * dst.w <= (x - dst.x) * w < p % w * dst.w + dst.w
    ensures p / w * dst.h <= (y - dst.y) * h < p / w * dst.h + dst.h
  {
    var srcX, srcY := SourceCoord(x - dst.x, w, dst.w), SourceCoord(y - dst.y, h, dst.h);
    RowFits(srcX, srcY, w, h);
    DivModUnique(RowStart(srcY, w) + srcX, w, srcY, srcX);
    ScaledCell(x - dst.x, w, dst.w);
    ScaledCell(y - dst.y, h, dst.h);
    RowStart(srcY, w) + srcX
  }

  /** The coordinate is that of the cell the position lies in. */
  lemma ScaledCell(local: nat, size: nat, stretched: nat)
    requires local < stretched && size > 0
    ensures var c := SourceCoord(local, size, stretched); c * stretched <= local * size < c * stretched + stretched
  {
    var product := local * size;
    assert product == product / stretched * stretched + product % stretched;
  }

  lemma RowFits(x: nat, y: nat, w: nat, h: nat)
    requires x < w && y < h
    ensures RowStart(y, w) + x < Area(w, h)
  {
    var rest := h - 1 - y;
    assert rest * w >= 0;
    assert h * w == y * w + w + rest * w;
  }

  class Overlay {
    var width: nat
    var height: nat
    var pixels: array<nat>
    var retained: array<RetainedPixel>
    var active: AS.ActiveSet
    var table: BT.BlitTable
    /** The frames rendered since the texture got its present size. */
    ghost var hist: seq<Frame>

    ghost predicate Apart()
      reads this, active, table
    {
      width > 0 && height > 0 && active.limit == Area(width, height) && Buffers()
    }

    /** The buffers are large enough and are not each other. */
    ghost predicate Buffers()
      reads this, active, table
    {
      && active.limit <= pixels.Length && active.limit <= retained.Length && active.limit <= active.slots.Length
      && pixels != active.list && pixels != active.slots && pixels != table.ids
      && active.list != table.ids && active.slots != table.ids
    }

    /** The buffers hold what the frames rendered so far make of them, pixel by pixel. */
    ghost predicate Content()
      reads this, pixels, retained, active, active.slots, table
      requires Apart()
    {
      && Matches(retained[..], active.slots[..], Tracks(hist, width, height))
      && (forall p :: 0 <= p < Area(width, height) && active.slots[..][p] == 0 ==> pixels[..][p] == 0)
      && (hist != [] ==> Shown(pixels[..], Tracks(hist, width, height), Last(hist)))
      && (|Recorded(hist, width, height)| < BT.SATURATION ==> table.model == Recorded(hist, width, height))
    }

    ghost predicate Valid()
      reads this, pixels, retained, active, active.list, active.slots, table, table.ids, table.records
    {
      Apart() && active.Valid() && table.Valid() && Content()
    }

    /** Everything the overlay owns. */
    ghost function Repr(): set<object>
      reads this, active, table
    {
      {pixels, retained, active, active.list, active.slots, table, table.ids, table.records}
    }

    constructor (w: nat, h: nat)
      requires w > 0 && h > 0
      ensures Valid() && hist == [] && width == w && height == h
      ensures fresh(pixels) && fresh(retained) && fresh(active) && fresh(active.list) && fresh(active.slots)
      ensures fresh(table) && fresh(table.ids) && fresh(table.records)
    {
      hide Area, AS.ActiveSet.Valid, BT.BlitTable.Valid;
      width, height := w, h;
      pixels := new nat[Area(w, h)](i => 0);
      retained := new RetainedPixel[Area(w, h)](i => NO_PIXEL);
      active := new AS.ActiveSet(Area(w, h));
      table := new BT.BlitTable();
      hist := [];
      new;
      hide Valid, Content, HistoryOf;
      EmptyValid();
    }

    lemma EmptyContent()
      requires Apart() && hist == [] && table.model == map[]
      requires forall p :: 0 <= p < Area(width, height) ==> pixels[p] == 0 && retained[p] == NO_PIXEL && active.slots[p] == 0
      ensures Content()
    {
      assert HistoryOf([]) == NO_PIXEL.History();
      assert forall p :: 0 <= p < Area(width, height) ==> Tracks([], width, height)[p] == [];
    }

    /**
     A texture of another size: the buffers are kept if they are large enough, everything below the
     new pixel count is cleared, and the run starts again. Whatever lies above it is never looked at.
     */
    method Resize(w: nat, h: nat)
      requires Valid() && w > 0 && h > 0
      modifies this, pixels, retained, active, active.slots, table, table.ids, table.records
      ensures Valid() && hist == [] && width == w && height == h
      ensures table.model == map[]
      ensures fresh(Repr() - old(Repr()))
    {
      hide Area, Valid, AS.ActiveSet.Valid, BT.BlitTable.Valid;
      ValidParts();
      ClearBuffers(Area(w, h));
      width, height, hist := w, h, [];
      EmptyValid();
    }

    method ClearBuffers(n: nat)
      requires Buffers() && active.Valid() && table.Valid()
      modifies this`pixels, this`retained, pixels, retained, active, active.slots, table, table.ids, table.records
      ensures Buffers() && active.Valid() && table.Valid() && active.limit == n && table.model == map[]
      ensures forall p :: 0 <= p < n ==> pixels[p] == 0 && retained[p] == NO_PIXEL && active.slots[p] == 0
      ensures fresh(Repr() - old(Repr()))
    {
      hide AS.ActiveSet.Valid, BT.BlitTable.Valid;
      var nextRetained := ClearedRetained(retained, n);
      var nextPixels := ClearedPixels(pixels, n);
      pixels, retained := nextPixels, nextRetained;
      active.Resize(n);
      table.Reset();
    }

    lemma ValidParts()
      requires Valid()
      ensures Apart() && active.Valid() && table.Valid()
    {
    }

    lemma EmptyValid()
      requires Apart() && active.Valid() && table.Valid() && hist == [] && table.model == map[]
      requires forall p :: 0 <= p < Area(width, height) ==> pixels[p] == 0 && retained[p] == NO_PIXEL && active.slots[p] == 0
      ensures Valid()
    {
      hide Content, AS.ActiveSet.Valid, BT.BlitTable.Valid;
      EmptyContent();
    }

    static method ClearedPixels(pixels: array<nat>, n: nat) returns (r: array<nat>)
      modifies pixels
      ensures r.Length >= n && (r == pixels || fresh(r))
      ensures forall p :: 0 <= p < n ==> r[p] == 0
    {
      if n > pixels.Length {
        return new nat[n](i => 0);
      }
      for p := 0 to n
        invariant forall q :: 0 <= q < p ==> pixels[q] == 0
      {
        pixels[p] := 0;
      }
      return pixels;
    }

    static method ClearedRetained(retained: array<RetainedPixel>, n: nat) returns (r: array<RetainedPixel>)
      modifies retained
      ensures r.Length >= n && (r == retained || fresh(r))
      ensures forall p :: 0 <= p < n ==> r[p] == NO_PIXEL
    {
      if n > retained.Length {
        return new RetainedPixel[n](i => NO_PIXEL);
      }
      for p := 0 to n
        invariant forall q :: 0 <= q < p ==> retained[q] == NO_PIXEL
      {
        retained[p] := NO_PIXEL;
      }
      return retained;
    }

    /** Draws one pixel of a span. */
    method PaintPixel(p: nat, s: Span, rgb: nat, counter: u32, ghost tracks: seq<seq<Cover>>)
      requires Apart() && active.Valid() && p < active.limit == |tracks|
      requires Matches(retained[..], active.slots[..], tracks)
      requires s.blitId != 0 && rgb == Rgb(s.blitId)
      modifies active`count, active.list, active.slots, retained
      ensures active.Valid()
      ensures Matches(retained[..], active.slots[..], tracks[p := tracks[p] + [Cover(s, counter)]])
    {
      hide Matches, PixelMatches, Area, Rgb, AS.Linked, HistoryOf, Recency.Touch, Distinct, PackSource;
      ghost var before, slots := retained[..], active.slots[..];
      MatchesAt(before, slots, tracks, p);
      var px := retained[p];
      active.Activate(p);
      HistoryDistinct(px, tracks[p]);
      var count, ids := Recency.RememberBlit(px.historyCount, px.historyIds, s.blitId);
      CoverRemembered(px, tracks[p], Cover(s, counter), count, ids);
      var next := RetainedPixel(s.blitId, counter, rgb, PackSource(s.sourceAddr, s.sourceIsCopper), s.detail, count, ids);
      retained[p] := next;
      assert retained[..] == before[p := next];
      assert active.slots[..] == slots[p := active.slots[p]];
      MatchOne(before, slots, tracks, p, next, active.slots[p], tracks[p] + [Cover(s, counter)]);
    }

    /** Draws a span: the pixels from its first to its last column each remember one more cover. */
    method PaintSpan(s: Span, rgb: nat, counter: u32, ghost tracks: seq<seq<Cover>>)
      requires Apart() && active.Valid() && |tracks| == active.limit
      requires Matches(retained[..], active.slots[..], tracks)
      requires Lands(s, width, height) && rgb == Rgb(s.blitId)
      modifies active`count, active.list, active.slots, retained
      ensures active.Valid()
      ensures Matches(retained[..], active.slots[..],
                      Painted(tracks, Cover(s, counter), RowStart(s.y, width) + s.x, RowStart(s.y, width) + EndX(s, width) + 1))
    {
      hide Matches, Painted, Area, RowStart, AS.ActiveSet.Valid, Rgb;
      ghost var c := Cover(s, counter);
      var row, end := RowStart(s.y, width), EndX(s, width);
      SpanInside(s, width, height);
      NothingPainted(tracks, c, row + s.x);
      for spanX := s.x to end + 1
        invariant active.Valid()
        invariant Matches(retained[..], active.slots[..], Painted(tracks, c, row + s.x, row + spanX))
      {
        PaintOne(tracks, c, row + s.x, row + spanX);
        PaintPixel(row + spanX, s, rgb, counter, Painted(tracks, c, row + s.x, row + spanX));
      }
    }

    /** The blit table knows the first n spans of f, unless it saturated on the way. */
    ghost predicate Knows(f: Frame, n: nat)
      reads this, table
      requires n <= |f.spans|
    {
      var m := RecordedIn(Recorded(hist, width, height), f, n, width, height);
      |m| < BT.SATURATION ==> table.model == m
    }

    /** One span: recorded and drawn, unless it starts outside the screen or has no id. */
    method ScatterSpan(f: Frame, n: nat, lastId: nat, lastRgb: nat) returns (id: nat, rgb: nat)
      requires Apart() && active.Valid() && table.Valid() && n < |f.spans|
      requires Matches(retained[..], active.slots[..], Scattered(hist, f, n, width, height)) && Knows(f, n)
      requires lastId == 0 || lastRgb == Rgb(lastId)
      modifies active`count, active.list, active.slots, retained, table, table.ids, table.records
      ensures Apart() && active.Valid() && table.Valid()
      ensures table.ids == old(table.ids) || fresh(table.ids)
      ensures table.records == old(table.records) || fresh(table.records)
      ensures Matches(retained[..], active.slots[..], Scattered(hist, f, n + 1, width, height)) && Knows(f, n + 1)
      ensures id == 0 || rgb == Rgb(id)
    {
      hide Matches, Scattered, Tracks, Recorded, RecordedIn, Painted, Area, RowStart, Rgb, EndX, AS.ActiveSet.Valid, BT.BlitTable.Valid;
      ScatterStep(hist, f, n, width, height);
      RecordStep(Recorded(hist, width, height), f, n, width, height);
      var s := f.spans[n];
      id, rgb := lastId, lastRgb;
      if s.x >= width || s.y >= height || s.blitId == 0 {
        return;
      }
      var ok := table.SetRecord(s, f.counter);
      if s.blitId != lastId {
        id, rgb := s.blitId, Rgb(s.blitId);
      }
      PaintSpan(s, rgb, f.counter, Scattered(hist, f, n, width, height));
    }

    /** The spans of a frame, in order. */
    method Scatter(f: Frame)
      requires Valid()
      modifies active`count, active.list, active.slots, retained, table, table.ids, table.records
      ensures Apart() && active.Valid() && table.Valid()
      ensures table.ids == old(table.ids) || fresh(table.ids)
      ensures table.records == old(table.records) || fresh(table.records)
      ensures Matches(retained[..], active.slots[..], Scattered(hist, f, |f.spans|, width, height))
      ensures Knows(f, |f.spans|)
    {
      hide Matches, Scattered, Tracks, Recorded, Area, Rgb, AS.ActiveSet.Valid, BT.BlitTable.Valid;
      ScatterStarts(hist, f, width, height);
      NothingRecorded(Recorded(hist, width, height), f, width, height);
      var lastId, lastRgb := 0, 0;
      for i := 0 to |f.spans|
        invariant Apart() && active.Valid() && table.Valid()
        invariant table.ids == old(table.ids) || fresh(table.ids)
        invariant table.records == old(table.records) || fresh(table.records)
        invariant Matches(retained[..], active.slots[..], Scattered(hist, f, i, width, height)) && Knows(f, i)
        invariant lastId == 0 || lastRgb == Rgb(lastId)
      {
        lastId, lastRgb := ScatterSpan(f, i, lastId, lastRgb);
      }
    }

    /**
     One step of the sweep, at position n of the active list. A fresh pixel is faded and passed; a stale
     one is cleared and removed, which moves the last pixel of the list to position n.
     */
    method SweepOne(f: Frame, n: nat, ghost tracks: seq<seq<Cover>>) returns (n': nat, shown: bool)
      requires Apart() && active.Valid() && |tracks| == active.limit && n < active.count
      requires HalfSwept(pixels[..], retained[..], active.slots[..], tracks, f, n)
      modifies pixels, active`count, active.list, active.slots, retained
      ensures active.Valid() && n' <= active.count
      ensures HalfSwept(pixels[..], retained[..], active.slots[..], tracks, f, n')
      ensures active.count - n' < old(active.count) - n
      ensures n' == if shown then n + 1 else n
    {
      hide HalfSwept, AS.Linked, Area, HistoryOf, Shade, Rgb, AlphaForAge, PixelMatches, Swept;
      ghost var ps, rs, ss := pixels[..], retained[..], active.slots[..];
      AS.EntryAt(active.list[..], ss, active.count, active.limit, n);
      var p := active.list[n];
      var px := retained[p];
      SweptPixel(ps, rs, ss, tracks, f, n, p);
      AS.SlotsBounded(active.list[..], ss, active.count, active.limit);
      var age := Sub32(f.counter, px.frame);
      if f.decay > 0 && age < f.decay {
        SweepKeeps(ps, rs, ss, tracks, f, n, p);
        pixels[p] := AlphaForAge(age, f.decay) * 0x100_0000 + px.rgb;
        assert pixels[..] == ps[p := Shade(tracks[p], f)];
        n', shown := n + 1, true;
      } else {
        pixels[p] := 0;
        retained[p] := NO_PIXEL;
        active.Remove(p);
        assert pixels[..] == ps[p := 0] && retained[..] == rs[p := NO_PIXEL];
        SweepClears(ps, rs, ss, active.slots[..], tracks, f, n, p);
        n', shown := n, false;
      }
    }

    /** Fades every active pixel and removes the stale ones while walking the list it removes them from. */
    method Sweep(f: Frame, ghost tracks: seq<seq<Cover>>) returns (visible: bool)
      requires Apart() && active.Valid() && |tracks| == active.limit
      requires Matches(retained[..], active.slots[..], tracks)
      requires forall p :: 0 <= p < |tracks| && active.slots[..][p] == 0 ==> pixels[..][p] == 0
      modifies pixels, active`count, active.list, active.slots, retained
      ensures active.Valid()
      ensures visible <==> active.count > 0
      ensures Matches(retained[..], active.slots[..], SweptAll(tracks, f))
      ensures Shown(pixels[..], SweptAll(tracks, f), f)
      ensures forall p :: 0 <= p < |tracks| && active.slots[..][p] == 0 ==> pixels[..][p] == 0
    {
      hide HalfSwept, AS.Linked, Area, Matches, Shown, SweptAll;
      SweepBegins(pixels[..], retained[..], active.slots[..], tracks, f);
      var n: nat := 0;
      visible := false;
      while n < active.count
        invariant active.Valid() && n <= active.count
        invariant visible <==> n > 0
        invariant HalfSwept(pixels[..], retained[..], active.slots[..], tracks, f, n)
        decreases active.count - n
      {
        var shown;
        n, shown := SweepOne(f, n, tracks);
        visible := visible || shown;
      }
      AS.SlotsBounded(active.list[..], active.slots[..], active.count, active.limit);
      SweepDone(pixels[..], retained[..], active.slots[..], tracks, f, n);
    }

    /**
     Renders a frame in overlay mode. Afterwards every pixel, and everything kept about it, is what
     the run so far makes of it.
     */
    method Render(f: Frame) returns (visible: bool)
      requires Valid()
      modifies this`hist, pixels, active`count, active.list, active.slots, retained, table, table.ids, table.records
      ensures Valid() && hist == old(hist) + [f]
      ensures visible <==> active.count > 0
      ensures fresh(Repr() - old(Repr()))
    {
      hide Matches, Shown, Tracks, Scattered, SweptAll, Recorded, Area, AS.ActiveSet.Valid, BT.BlitTable.Valid;
      ghost var rs, ss, ps := retained[..], active.slots[..], pixels[..];
      Scatter(f);
      ghost var tracks := Scattered(hist, f, |f.spans|, width, height);
      StillClear(hist, f, width, height, rs, ss, retained[..], active.slots[..], ps);
      visible := Sweep(f, tracks);
      SweepEnds(hist, f, width, height);
      RecordedAll(hist, f, width, height);
      hist := hist + [f];
      assert Last(hist) == f;
    }

    /**
     The overlay image is the simple rule's image, and the active list holds exactly the pixels that
     are shown, once each.
     */
    lemma ImageIsNaive()
      requires Valid() && hist != [] && Steady(hist)
      ensures forall p :: 0 <= p < Area(width, height) ==> pixels[..][p] == NaiveImage(hist, p, width, height)
      ensures forall p :: 0 <= p < Area(width, height) ==>
                (p in active.list[..active.count] <==> NaiveImage(hist, p, width, height) != 0)
      ensures Distinct(active.list[..active.count])
    {
      hide Shade, NaiveImage, TrackOf, PixelMatches;
      forall p | 0 <= p < Area(width, height)
        ensures pixels[..][p] == NaiveImage(hist, p, width, height)
        ensures p in active.list[..active.count] <==> NaiveImage(hist, p, width, height) != 0
      {
        TrackShowsNaiveImage(hist, p, width, height);
        assert Tracks(hist, width, height)[p] == TrackOf(hist, p, width, height);
        AS.ListedIffSlot(active.list[..], active.slots[..], active.count, active.limit, p);
      }
      AS.ListDistinct(active.list[..], active.slots[..], active.count, active.limit);
    }

    lemma PixelsCoverArea()
      requires Valid()
      ensures Area(width, height) <= pixels.Length
    {
    }

    /** Renders a whole run of frames; if the run is steady, the image at its end is the simple rule's. */
    method RenderAll(frames: seq<Frame>)
      requires Valid()
      modifies this`hist, Repr()
      ensures Valid() && hist == old(hist) + frames && fresh(Repr() - old(Repr()))
      ensures hist != [] && Steady(hist) ==>
                forall p :: 0 <= p < Area(width, height) ==> pixels[..][p] == NaiveImage(hist, p, width, height)
    {
      hide Valid, NaiveImage, Area, Steady;
      for i := 0 to |frames|
        invariant Valid() && hist == old(hist) + frames[..i] && fresh(Repr() - old(Repr()))
      {
        var visible := Render(frames[i]);
        assert frames[..i + 1] == frames[..i] + [frames[i]];
      }
      assert frames[..|frames|] == frames;
      if hist != [] && Steady(hist) {
        ImageIsNaive();
      }
    }

    /** What a valid overlay knows about one pixel. */
    lemma PixelFacts(p: nat)
      requires Valid() && p < Area(width, height)
      ensures p < retained.Length && PixelMatches(retained[p], TrackOf(hist, p, width, height))
    {
      assert Tracks(hist, width, height)[p] == TrackOf(hist, p, width, height);
      assert retained[..][p] == retained[p];
    }

    /** The blit id under the mouse: the last span that covered the pixel, or 0. */
    method HoveredId(dst: Rect, mouseX: int, mouseY: int) returns (id: nat)
      requires Valid()
      ensures Inside(dst, mouseX, mouseY) <==> dst.w > 0 && dst.h > 0 && dst.x <= mouseX < dst.x + dst.w && dst.y <= mouseY < dst.y + dst.h
      ensures !Inside(dst, mouseX, mouseY) ==> id == 0
      ensures Inside(dst, mouseX, mouseY) ==>
                var t := TrackOf(hist, PixelUnder(dst, mouseX, mouseY, width, height), width, height);
                id == if t == [] then 0 else Last(t).span.blitId
    {
      if !Inside(dst, mouseX, mouseY) {
        return 0;
      }
      var p := PixelUnder(dst, mouseX, mouseY, width, height);
      PixelFacts(p);
      id := retained[p].blitId;
    }

    /** A hit is listed once, if there is room and it has an id. */
    static method AppendHit(hits: seq<Span>, hitCap: nat, hit: Span) returns (hits': seq<Span>)
      ensures hits' == if hit.blitId == 0 || hit.blitId in HitIds(hits) || |hits| >= hitCap then hits else hits + [hit]
    {
      if hit.blitId == 0 {
        return hits;
      }
      for i := 0 to |hits|
        invariant hit.blitId !in HitIds(hits)[..i]
      {
        if hits[i].blitId == hit.blitId {
          assert HitIds(hits)[i] == hit.blitId;
          return hits;
        }
        assert HitIds(hits)[..i + 1] == HitIds(hits)[..i] + [hits[i].blitId];
      }
      assert HitIds(hits)[..|hits|] == HitIds(hits);
      if |hits| >= hitCap {
        return hits;
      }
      return hits + [hit];
    }

    /** The records a history stands for: those that are still fresh, in order, each id once. */
    static method CollectHits(table: BT.BlitTable, history: seq<nat>, frameCounter: u32, decay: u32, hitCap: nat)
      returns (hits: seq<Span>)
      requires table.Valid() && |history| <= hitCap && Distinct(history)
      ensures HitIds(hits) == FreshIds(history, table.model, frameCounter, decay)
      ensures forall s :: s in hits ==> s.blitId in table.model && s == table.model[s.blitId].span
      ensures forall id :: id in HitIds(hits) <==> IsFresh(history, table.model, id, frameCounter, decay)
      ensures IsSubsequence(HitIds(hits), history)
    {
      hide FreshIds, Distinct, HitIds, Listed, BT.BlitTable.Valid;
      ghost var m := table.model;
      hits := [];
      NothingListed(history, m, frameCounter, decay);
      for i := 0 to |history|
        invariant |hits| <= i
        invariant Listed(hits, history, i, m, frameCounter, decay)
        invariant forall id :: id in HitIds(hits) ==> id in history[..i]
        invariant forall s :: s in hits ==> s.blitId in m && s == m[s.blitId].span
      {
        var id := history[i];
        FreshStep(history, i);
        var found, r := table.GetMeta(id);
        ListStep(hits, history, i, m, frameCounter, decay);
        if found && !(decay > 0 && Sub32(frameCounter, r.frame) >= decay) {
          table.RecordHasId(id);
          hits := AppendHit(hits, hitCap, r.span);
        }
      }
      AllListed(hits, history, m, frameCounter, decay);
      FreshIdsAre(history, m, frameCounter, decay);
    }

    /** The records a click lists: those of the pixel's history that are still fresh, in order. */
    method HitsAtPoint(dst: Rect, mouseX: int, mouseY: int, frameCounter: u32, decay: u32) returns (hits: seq<Span>)
      requires Valid()
      ensures Inside(dst, mouseX, mouseY) <==> dst.w > 0 && dst.h > 0 && dst.x <= mouseX < dst.x + dst.w && dst.y <= mouseY < dst.y + dst.h
      ensures !Inside(dst, mouseX, mouseY) ==> hits == []
      ensures Inside(dst, mouseX, mouseY) ==>
                var t := TrackOf(hist, PixelUnder(dst, mouseX, mouseY, width, height), width, height);
                && HitIds(hits) == FreshIds(HistoryOf(t), table.model, frameCounter, decay)
                && (forall id :: id in HitIds(hits) <==> IsFresh(HistoryOf(t), table.model, id, frameCounter, decay))
                && IsSubsequence(HitIds(hits), HistoryOf(t))
      ensures forall s :: s in hits ==> s.blitId in table.model && s == table.model[s.blitId].span
    {
      hide HistoryOf, TrackOf, FreshIds, Distinct, Content, AS.ActiveSet.Valid, BT.BlitTable.Valid;
      if !Inside(dst, mouseX, mouseY) {
        return [];
      }
      var p := PixelUnder(dst, mouseX, mouseY, width, height);
      PixelFacts(p);
      HistoryBasics(TrackOf(hist, p, width, height));
      hits := CollectHits(table, retained[p].History(), frameCounter, decay, MAX_HITS);
    }

    /**
     On every pixel that is shown, a click in the current frame lists distinct ids, the first of
     which is the hovered id.
     */
    lemma ClickAgreesWithHover(p: nat)
      requires Valid() && hist != [] && Rising(hist) && p < Area(width, height)
      requires |Recorded(hist, width, height)| < BT.SATURATION
      requires active.slots[p] != 0
      ensures var hits := FreshIds(HistoryOf(TrackOf(hist, p, width, height)), table.model, Last(hist).counter, Last(hist).decay);
              hits != [] && hits[0] == retained[p].blitId != 0 && Distinct(hits)
    {
      hide FreshIds, HistoryOf;
      PixelFacts(p);
      assert active.slots[..][p] == active.slots[p];
      assert Tracks(hist, width, height)[p] == TrackOf(hist, p, width, height);
      ClickStartsWithHoveredId(hist, p, width, height);
    }
  }

  /** A new overlay that renders a steady run ends in the simple rule's image, whatever it kept in between. */
  method RenderRun(w: nat, h: nat, frames: seq<Frame>) returns (image: seq<nat>)
    requires w > 0 && h > 0 && frames != [] && Steady(frames)
    ensures |image| == Area(w, h)
    ensures forall p :: 0 <= p < |image| ==> image[p] == NaiveImage(frames, p, w, h)
  {
    hide Overlay.Valid, NaiveImage, Area, Steady;
    var overlay := new Overlay(w, h);
    overlay.RenderAll(frames);
    assert [] + frames == frames;
    overlay.PixelsCoverArea();
    image := overlay.pixels[..Area(w, h)];
    assert forall p :: 0 <= p < |image| ==> image[p] == overlay.pixels[..][p];
  }

  /** What the code sees of the pixel at position n: its last cover decides whether it is swept. */
  lemma SweptPixel(pixels: seq<nat>, retained: seq<RetainedPixel>, slots: seq<nat>, tracks: seq<seq<Cover>>, f: Frame,
                   n: nat, p: nat)
    requires HalfSwept(pixels, retained, slots, tracks, f, n) && p < |tracks| && slots[p] == n + 1
    ensures var t, px := tracks[p], retained[p];
            && t != [] && px.blitId != 0 && px.frame == Last(t).frame && px.rgb == Rgb(Last(t).span.blitId)
            && Swept(t, f) == (if f.decay > 0 && Sub32(f.counter, px.frame) < f.decay then t else [])
            && Shade(t, f) == AlphaForAge(Sub32(f.counter, px.frame), f.decay) * 0x100_0000 + px.rgb
  {
    assert PixelSwept(pixels[p], retained[p], slots[p], tracks[p], f, n);
  }

  /** A pixel that is inactive after the scatter was inactive, hence clear, before it. */
  lemma StillClear(hist: seq<Frame>, f: Frame, w: nat, h: nat, retained: seq<RetainedPixel>, slots: seq<nat>,
                   retained': seq<RetainedPixel>, slots': seq<nat>, pixels: seq<nat>)
    requires w > 0 && Area(w, h) <= |pixels|
    requires Matches(retained, slots, Tracks(hist, w, h)) && Matches(retained', slots', Scattered(hist, f, |f.spans|, w, h))
    requires forall p :: 0 <= p < Area(w, h) && slots[p] == 0 ==> pixels[p] == 0
    ensures forall p :: 0 <= p < Area(w, h) && slots'[p] == 0 ==> pixels[p] == 0
  {
    forall p | 0 <= p < Area(w, h) && slots'[p] == 0
      ensures pixels[p] == 0
    {
      assert Scattered(hist, f, |f.spans|, w, h)[p] == Tracks(hist, w, h)[p] + CoversIn(f, |f.spans|, p, w, h);
    }
  }

  lemma RecordedAll(hist: seq<Frame>, f: Frame, w: nat, h: nat)
    ensures RecordedIn(Recorded(hist, w, h), f, |f.spans|, w, h) == Recorded(hist + [f], w, h)
  {
    assert (hist + [f])[..|hist|] == hist;
  }

  lemma SpanInside(s: Span, w: nat, h: nat)
    requires w > 0 && Lands(s, w, h)
    ensures s.x <= EndX(s, w) && RowStart(s.y, w) + EndX(s, w) < Area(w, h)
  {
    CoveredInside(s, RowStart(s.y, w) + EndX(s, w), w, h);
  }

  lemma NothingPainted(tracks: seq<seq<Cover>>, c: Cover, a: nat)
    ensures Painted(tracks, c, a, a) == tracks
  {
  }

  lemma MatchesAt(retained: seq<RetainedPixel>, slots: seq<nat>, tracks: seq<seq<Cover>>, p: nat)
    requires Matches(retained, slots, tracks) && p < |tracks|
    ensures |tracks| <= |retained| && |tracks| <= |slots|
    ensures PixelMatches(retained[p], tracks[p]) && (slots[p] != 0 <==> tracks[p] != [])
    ensures |retained[p].historyIds| == Recency.HISTORY && retained[p].historyCount <= Recency.HISTORY
  {
  }
}
