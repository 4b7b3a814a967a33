/** Most-recently-used order, and the four-deep history a retained pixel keeps of it. */
module Recency {
  import opened Sequences

  const HISTORY := 4

  function Without(s: seq<nat>, x: nat): (r: seq<nat>)
    ensures |r| <= |s| && x !in r
    ensures forall y :: y in r <==> y in s && y != x
  {
    if s == [] then []
    else if s[0] == x then Without(s[1..], x)
    else [s[0]] + Without(s[1..], x)
  }

  /** The distinct elements of ids, last used first. */
  function ByRecency(ids: seq<nat>): (r: seq<nat>)
    ensures forall y :: y in r <==> y in ids
  {
    if ids == [] then []
    else [ids[|ids| - 1]] + Without(ByRecency(ids[..|ids| - 1]), ids[|ids| - 1])
  }

  /** Some use of x comes after every use of y. */
  ghost predicate UsedAfter(ids: seq<nat>, x: nat, y: nat) {
    exists i :: 0 <= i < |ids| && ids[i] == x && y !in ids[i..]
  }

  lemma {:induction false} WithoutSplits(a: seq<nat>, b: seq<nat>, x: nat)
    ensures Without(a + b, x) == Without(a, x) + Without(b, x)
  {
    if a == [] {
      assert a + b == b;
    } else {
      assert (a + b)[1..] == a[1..] + b;
      WithoutSplits(a[1..], b, x);
    }
  }

  lemma {:induction false} WithoutAbsent(s: seq<nat>, x: nat)
    requires x !in s
    ensures Without(s, x) == s
  {
    if s != [] {
      WithoutAbsent(s[1..], x);
    }
  }

  lemma WithoutMiddle(a: seq<nat>, x: nat, b: seq<nat>)
    requires x !in a && x !in b
    ensures Without(a + ([x] + b), x) == a + b
  {
    WithoutSplits(a, [x] + b, x);
    assert ([x] + b)[1..] == b;
    WithoutAbsent(a, x);
    WithoutAbsent(b, x);
  }

  /** Removing the one occurrence of x closes the gap it leaves. */
  lemma WithoutOnce(s: seq<nat>, e: nat)
    requires e < |s| && Distinct(s)
    ensures Without(s, s[e]) == s[..e] + s[e + 1..]
  {
    hide Without;
    assert s == s[..e] + ([s[e]] + s[e + 1..]);
    WithoutMiddle(s[..e], s[e], s[e + 1..]);
  }

  lemma {:induction false} WithoutDistinct(s: seq<nat>, x: nat)
    requires Distinct(s)
    ensures Distinct(Without(s, x))
  {
    if x in s {
      var e :| 0 <= e < |s| && s[e] == x;
      WithoutOnce(s, e);
    } else {
      WithoutAbsent(s, x);
    }
  }

  lemma UsedAfterExtends(ids: seq<nat>, x: nat, y: nat, z: nat)
    requires UsedAfter(ids, x, y) && y != z
    ensures UsedAfter(ids + [z], x, y)
  {
    var i :| 0 <= i < |ids| && ids[i] == x && y !in ids[i..];
    assert (ids + [z])[i..] == ids[i..] + [z];
  }

  /** The recency list has no repetition, and lists ids strictly by how late each was last used. */
  lemma {:induction false} ByRecencyIsOrdered(ids: seq<nat>)
    ensures Distinct(ByRecency(ids))
    ensures forall i, j :: 0 <= i < j < |ByRecency(ids)| ==> UsedAfter(ids, ByRecency(ids)[i], ByRecency(ids)[j])
  {
    if ids != [] {
      var init, x := ids[..|ids| - 1], ids[|ids| - 1];
      ByRecencyIsOrdered(init);
      RecencyStep(init, x);
      assert ids == init + [x];
    }
  }

  lemma RecencyStep(ids: seq<nat>, x: nat)
    requires Distinct(ByRecency(ids))
    requires forall i, j :: 0 <= i < j < |ByRecency(ids)| ==> UsedAfter(ids, ByRecency(ids)[i], ByRecency(ids)[j])
    ensures ByRecency(ids + [x]) == [x] + Without(ByRecency(ids), x)
    ensures Distinct(ByRecency(ids + [x]))
    ensures forall i, j :: 0 <= i < j < |ByRecency(ids + [x])| ==>
              UsedAfter(ids + [x], ByRecency(ids + [x])[i], ByRecency(ids + [x])[j])
  {
    var r0 := ByRecency(ids);
    assert (ids + [x])[..|ids|] == ids;
    WithoutDistinct(r0, x);
    var w := Without(r0, x);
    forall j | 0 <= j < |w|
      ensures UsedAfter(ids + [x], x, w[j])
    {
      assert w[j] in w;
      assert (ids + [x])[|ids|..] == [x];
    }
    forall i, j | 0 <= i < j < |w|
      ensures UsedAfter(ids + [x], w[i], w[j])
    {
      WithoutKeepsOrder(r0, x, i, j);
      assert w[j] in w;
      UsedAfterExtends(ids, w[i], w[j], x);
    }
  }

  lemma WithoutKeepsOrder(s: seq<nat>, x: nat, i: nat, j: nat)
    requires Distinct(s) && i < j < |Without(s, x)|
    ensures exists a, b :: 0 <= a < b < |s| && s[a] == Without(s, x)[i] && s[b] == Without(s, x)[j]
  {
    if x in s {
      var e :| 0 <= e < |s| && s[e] == x;
      WithoutOnce(s, e);
      var a, b := if i < e then i else i + 1, if j < e then j else j + 1;
      assert s[a] == Without(s, x)[i] && s[b] == Without(s, x)[j];
    } else {
      WithoutAbsent(s, x);
    }
  }

  /** What remembering an id does to a history: move it to the front, or push it and drop the fifth. */
  function Touch(history: seq<nat>, id: nat): seq<nat> {
    if id in history then [id] + Without(history, id) else [id] + Take(history, HISTORY - 1)
  }

  lemma TouchOfHead(r: seq<nat>, id: nat)
    requires Distinct(r)
    ensures Touch(Take(r, HISTORY), id) == Take([id] + Without(r, id), HISTORY)
  {
    hide Without;
    if id in r {
      var e :| 0 <= e < |r| && r[e] == id;
      WithoutOnce(r, e);
      if e < HISTORY {
        TouchKept(r, e);
      } else {
        TouchDropped(r, e);
      }
    } else {
      WithoutAbsent(r, id);
    }
  }

  /** The id is among those kept: it moves to the front. */
  lemma TouchKept(r: seq<nat>, e: nat)
    requires Distinct(r) && e < |r| && e < HISTORY
    ensures Touch(Take(r, HISTORY), r[e]) == Take([r[e]] + (r[..e] + r[e + 1..]), HISTORY)
  {
    hide Without;
    var top := Take(r, HISTORY);
    assert top[e] == r[e];
    DistinctTake(r);
    WithoutOnce(top, e);
  }

  lemma DistinctTake(r: seq<nat>)
    requires Distinct(r)
    ensures Distinct(Take(r, HISTORY))
  {
  }

  /** The id has already been dropped: it is pushed as if it were new. */
  lemma TouchDropped(r: seq<nat>, e: nat)
    requires Distinct(r) && HISTORY <= e < |r|
    ensures Touch(Take(r, HISTORY), r[e]) == Take([r[e]] + (r[..e] + r[e + 1..]), HISTORY)
  {
    hide Without;
    assert r[e] !in Take(r, HISTORY);
  }

  /** A history updated id by id is the head of the recency list of all ids so far. */
  lemma TouchIsRecency(ids: seq<nat>, id: nat)
    ensures Touch(Take(ByRecency(ids), HISTORY), id) == Take(ByRecency(ids + [id]), HISTORY)
  {
    ByRecencyIsOrdered(ids);
    TouchOfHead(ByRecency(ids), id);
    assert (ids + [id])[..|ids|] == ids;
  }

  /** Touch, by the position at which the id stands in the history (or past its end). */
  lemma TouchByPosition(history: seq<nat>, id: nat, e: nat)
    requires Distinct(history) && e <= |history| <= HISTORY
    requires id !in history[..e] && (e < |history| ==> history[e] == id)
    ensures e < |history| ==> Touch(history, id) == [id] + history[..e] + history[e + 1..]
    ensures e == |history| ==> Touch(history, id) == [id] + Take(history, HISTORY - 1)
  {
    if e < |history| {
      WithoutOnce(history, e);
    } else {
      assert history[..e] == history;
    }
  }

  /** The in-place update of a history array: shifts the ids in front of the slot that is freed. */
  method RememberBlit(count: nat, ids: seq<nat>, id: nat) returns (count': nat, ids': seq<nat>)
    requires |ids| == HISTORY && count <= HISTORY && id != 0 && Distinct(ids[..count])
    ensures |ids'| == HISTORY && count' <= HISTORY
    ensures ids'[..count'] == Touch(ids[..count], id)
  {
    count', ids' := count, ids;
    var existing: nat := 0;
    while existing < count && ids[existing] != id
      invariant existing <= count && id !in ids[..existing]
    {
      existing := existing + 1;
    }
    assert ids[..count][..existing] == ids[..existing];
    TouchByPosition(ids[..count], id, existing);
    if existing == 0 && count > 0 {
      return;
    }
    var gap: nat := existing;
    if existing == count {
      if count >= HISTORY {
        gap := HISTORY - 1;
      } else {
        count' := count + 1;
      }
    }
    ids' := ShiftIn(ids, gap, id);
    if existing < count {
      ghost var h := ids[..count];
      assert ids'[..count'] == [id] + h[..existing] + h[existing + 1..];
    } else {
      PushedIn(ids, count, id);
    }
  }

  lemma PushedIn(ids: seq<nat>, count: nat, id: nat)
    requires |ids| == HISTORY && count <= HISTORY
    ensures var gap, n := if count < HISTORY then count else HISTORY - 1, if count < HISTORY then count + 1 else count;
            ([id] + ids[..gap] + ids[gap + 1..])[..n] == [id] + Take(ids[..count], HISTORY - 1)
  {
    if count == HISTORY {
      assert ids[..count] == ids;
    }
  }

  /** Moves the ids in front of `gap` back by one and puts id first. */
  method ShiftIn(ids: seq<nat>, gap: nat, id: nat) returns (ids': seq<nat>)
    requires gap < |ids|
    ensures ids' == [id] + ids[..gap] + ids[gap + 1..]
  {
    ids' := ids;
    var i: nat := gap;
    while i > 0
      invariant i <= gap && |ids'| == |ids|
      invariant forall j :: 0 <= j <= i ==> ids'[j] == ids[j]
      invariant forall j :: i < j <= gap ==> ids'[j] == ids[j - 1]
      invariant forall j :: gap < j < |ids| ==> ids'[j] == ids[j]
    {
      ids' := ids'[i := ids'[i - 1]];
      i := i - 1;
    }
    ids' := ids'[0 := id];
  }
}
