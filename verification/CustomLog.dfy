/** The register log: filtering its entries and scrolling through those that pass. */
module CustomLog {
  const INT_MAX := 0x7fff_ffff
  const COLUMNS := 6

  /** The six texts of an entry's row: line, name, source, address, value, description. */
  type Columns = c: seq<string> | |c| == COLUMNS witness ["", "", "", "", "", ""]

  // ---------- Matching ----------

  function Lower(c: char): char {
    if 'A' <= c <= 'Z' then (c as int + 32) as char else c
  }

  predicate FoundAt(text: string, needle: string, i: int) {
    0 <= i <= |text| - |needle| && forall j :: 0 <= j < |needle| ==> Lower(text[i + j]) == Lower(needle[j])
  }

  /** The needle occurs in the text, letter case aside. */
  ghost predicate Contains(text: string, needle: string) {
    exists i :: FoundAt(text, needle, i)
  }

  /** The same character, or the two cases of one letter of the alphabet. */
  predicate SameLetter(c: char, d: char) {
    c == d || ('A' <= c <= 'Z' && d as int - c as int == 32) || ('A' <= d <= 'Z' && c as int - d as int == 32)
  }

  lemma LowerIs(c: char, d: char)
    ensures Lower(c) == Lower(d) <==> SameLetter(c, d)
  {
  }

  predicate SameLetters(s: string, t: string) {
    |s| == |t| && forall i :: 0 <= i < |s| ==> SameLetter(s[i], t[i])
  }

  /** The needle is found if some stretch of the text has the same letters. */
  lemma ContainsIs(text: string, needle: string)
    ensures Contains(text, needle) <==>
            exists i, j :: 0 <= i <= j <= |text| && SameLetters(text[i..j], needle)
  {
    forall i | 0 <= i <= |text| - |needle|
      ensures FoundAt(text, needle, i) <==> SameLetters(text[i..i + |needle|], needle)
    {
      forall j | 0 <= j < |needle|
        ensures SameLetter(text[i..i + |needle|][j], needle[j]) <==> Lower(text[i + j]) == Lower(needle[j])
      {
        LowerIs(text[i + j], needle[j]);
      }
    }
    if Contains(text, needle) {
      var i :| FoundAt(text, needle, i);
      assert SameLetters(text[i..i + |needle|], needle);
    }
    if i, j :| 0 <= i <= j <= |text| && SameLetters(text[i..j], needle) {
      assert FoundAt(text, needle, i);
    }
  }

  /** Changing the case of letters, in the text or in the needle, changes nothing. */
  lemma CaseIsIgnored(text: string, needle: string, text': string, needle': string)
    requires SameLetters(text, text') && SameLetters(needle, needle')
    ensures Contains(text, needle) <==> Contains(text', needle')
  {
    forall i | 0 <= i < |text| ensures Lower(text[i]) == Lower(text'[i]) {
      LowerIs(text[i], text'[i]);
    }
    forall i | 0 <= i < |needle| ensures Lower(needle[i]) == Lower(needle'[i]) {
      LowerIs(needle[i], needle'[i]);
    }
    forall i ensures FoundAt(text, needle, i) <==> FoundAt(text', needle', i) {
    }
  }

  method ContainsInsensitive(text: string, needle: string) returns (found: bool)
    ensures found <==> Contains(text, needle)
  {
    if needle == "" {
      assert FoundAt(text, needle, 0);
      return true;
    }
    if |needle| > |text| {
      return false;
    }
    var i := 0;
    while i + |needle| <= |text|
      invariant forall k :: 0 <= k < i ==> !FoundAt(text, needle, k)
    {
      var j := 0;
      while j < |needle|
        invariant j <= |needle| && forall k :: 0 <= k < j ==> Lower(text[i + k]) == Lower(needle[k])
      {
        if Lower(text[i + j]) != Lower(needle[j]) {
          break;
        }
        j := j + 1;
      }
      if j == |needle| {
        assert FoundAt(text, needle, i);
        return true;
      }
      i := i + 1;
    }
    return false;
  }

  ghost predicate Matches(filters: Columns, entry: Columns) {
    forall c :: 0 <= c < COLUMNS ==> Contains(entry[c], filters[c])
  }

  method EntryMatchesFilters(filters: Columns, entry: Columns) returns (matches: bool)
    ensures matches <==> Matches(filters, entry)
  {
    for c := 0 to COLUMNS
      invariant forall k :: 0 <= k < c ==> Contains(entry[k], filters[k])
    {
      var found := ContainsInsensitive(entry[c], filters[c]);
      if !found {
        return false;
      }
    }
    return true;
  }

  predicate AnyActive(filters: Columns) {
    exists c :: 0 <= c < COLUMNS && filters[c] != ""
  }

  lemma NoFilterMatchesAll(filters: Columns, entry: Columns)
    requires !AnyActive(filters)
    ensures Matches(filters, entry)
  {
    forall c | 0 <= c < COLUMNS ensures Contains(entry[c], filters[c]) {
      assert FoundAt(entry[c], filters[c], 0);
    }
  }

  /** Typing more into a filter never brings a row back. */
  lemma LongerFilterMatchesFewer(filters: Columns, c: nat, more: string, entry: Columns)
    requires c < COLUMNS && Matches(filters[c := filters[c] + more], entry)
    ensures Matches(filters, entry)
  {
    var longer := filters[c := filters[c] + more];
    assert Contains(entry[c], longer[c]);
    var i :| FoundAt(entry[c], longer[c], i);
    forall j | 0 <= j < |filters[c]| ensures Lower(entry[c][i + j]) == Lower(filters[c][j]) {
      assert longer[c][j] == filters[c][j];
    }
    assert FoundAt(entry[c], filters[c], i);
    forall k | 0 <= k < COLUMNS ensures Contains(entry[k], filters[k]) {
      assert k != c ==> Contains(entry[k], longer[k]);
    }
  }

  // ---------- The matching rows ----------

  /** The indices, in order, of the entries among the first n that match. */
  ghost function RowsUpTo(entries: seq<Columns>, filters: Columns, n: nat): (rows: seq<nat>)
    requires n <= |entries|
    ensures |rows| <= n
    ensures forall k :: 0 <= k < |rows| ==> rows[k] < n
  {
    if n == 0 then []
    else RowsUpTo(entries, filters, n - 1) + if Matches(filters, entries[n - 1]) then [n - 1] else []
  }

  ghost function Rows(entries: seq<Columns>, filters: Columns): seq<nat> {
    RowsUpTo(entries, filters, |entries|)
  }

  predicate Increasing(rows: seq<nat>) {
    forall i, j :: 0 <= i < j < |rows| ==> rows[i] < rows[j]
  }

  lemma {:induction false} RowsIncrease(entries: seq<Columns>, filters: Columns, n: nat)
    requires n <= |entries|
    ensures Increasing(RowsUpTo(entries, filters, n))
  {
    if n > 0 {
      RowsIncrease(entries, filters, n - 1);
    }
  }

  /** A row is listed exactly if its entry matches. */
  lemma {:induction false} RowsAreTheMatches(entries: seq<Columns>, filters: Columns, n: nat, i: nat)
    requires n <= |entries|
    ensures i in RowsUpTo(entries, filters, n) <==> i < n && Matches(filters, entries[i])
  {
    if n > 0 {
      RowsAreTheMatches(entries, filters, n - 1, i);
    }
  }

  lemma {:induction false} RowsWithoutFilter(entries: seq<Columns>, filters: Columns, n: nat)
    requires n <= |entries| && !AnyActive(filters)
    ensures |RowsUpTo(entries, filters, n)| == n
    ensures forall k :: 0 <= k < n ==> RowsUpTo(entries, filters, n)[k] == k
  {
    if n > 0 {
      RowsWithoutFilter(entries, filters, n - 1);
      NoFilterMatchesAll(filters, entries[n - 1]);
    }
  }

  lemma {:induction false} RowsGrow(entries: seq<Columns>, filters: Columns, n: nat, m: nat)
    requires n <= m <= |entries|
    ensures RowsUpTo(entries, filters, n) <= RowsUpTo(entries, filters, m)
    ensures forall k :: |RowsUpTo(entries, filters, n)| <= k < |RowsUpTo(entries, filters, m)| ==> n <= RowsUpTo(entries, filters, m)[k]
    decreases m
  {
    if n < m {
      RowsGrow(entries, filters, n, m - 1);
    }
  }

  lemma RowsStep(entries: seq<Columns>, filters: Columns, i: nat)
    requires i < |entries|
    ensures RowsUpTo(entries, filters, i + 1) ==
            RowsUpTo(entries, filters, i) + if Matches(filters, entries[i]) then [i] else []
    ensures Matches(filters, entries[i]) ==>
              && |RowsUpTo(entries, filters, i)| < |Rows(entries, filters)|
              && Rows(entries, filters)[|RowsUpTo(entries, filters, i)|] == i
  {
    RowsGrow(entries, filters, i + 1, |entries|);
    if Matches(filters, entries[i]) {
      assert RowsUpTo(entries, filters, i + 1)[|RowsUpTo(entries, filters, i)|] == i;
    }
  }

  // ---------- Rank and select ----------

  /** k rows lie before raw, and all others at or after it. */
  ghost predicate IsRank(rows: seq<nat>, raw: int, k: int) {
    && 0 <= k <= |rows|
    && (forall j :: 0 <= j < k ==> rows[j] < raw)
    && (forall j :: k <= j < |rows| ==> raw <= rows[j])
  }

  lemma LargerIsNoRank(rows: seq<nat>, raw: int, k: int, l: int)
    requires IsRank(rows, raw, k) && k < l <= |rows|
    ensures !IsRank(rows, raw, l)
  {
    assert raw <= rows[k];
  }

  lemma RankIsUnique(rows: seq<nat>, raw: int, k: int, l: int)
    requires IsRank(rows, raw, k) && IsRank(rows, raw, l)
    ensures k == l
  {
    if k < l {
      LargerIsNoRank(rows, raw, k, l);
    } else if l < k {
      LargerIsNoRank(rows, raw, l, k);
    }
  }

  function Rank(rows: seq<nat>, raw: int): (k: nat)
    ensures k <= |rows|
  {
    if rows == [] || raw <= rows[0] then 0 else 1 + Rank(rows[1..], raw)
  }

  lemma {:induction false} RankCounts(rows: seq<nat>, raw: int)
    requires Increasing(rows)
    ensures IsRank(rows, raw, Rank(rows, raw))
  {
    if rows != [] && rows[0] < raw {
      RankCounts(rows[1..], raw);
      forall j | Rank(rows, raw) <= j < |rows| ensures raw <= rows[j] {
        assert rows[j] == rows[1..][j - 1];
      }
      forall j | 0 <= j < Rank(rows, raw) ensures rows[j] < raw {
        assert j > 0 ==> rows[j] == rows[1..][j - 1];
      }
    }
  }

  function Select(rows: seq<nat>, index: int): nat {
    if rows == [] then 0
    else if index < 0 then rows[0]
    else if index < |rows| then rows[index]
    else rows[|rows| - 1]
  }

  /** Selecting the k-th matching row and ranking it gives back k. */
  lemma RankOfSelect(rows: seq<nat>, k: nat)
    requires Increasing(rows) && k < |rows|
    ensures Rank(rows, Select(rows, k)) == k
  {
    RankCounts(rows, rows[k]);
    RankIsUnique(rows, rows[k], Rank(rows, rows[k]), k);
  }

  /** Ranking a row and selecting gives the first matching row at or after it. */
  lemma SelectOfRank(rows: seq<nat>, raw: int)
    requires Increasing(rows) && Rank(rows, raw) < |rows|
    ensures raw <= Select(rows, Rank(rows, raw))
    ensures forall r :: r in rows && raw <= r ==> Select(rows, Rank(rows, raw)) <= r
  {
    RankCounts(rows, raw);
  }

  // ---------- The scroll model ----------

  datatype ScrollModel = ScrollModel(visibleRows: int, filteredCount: int, topFilteredRow: int, topRawRow: int)

  function AtLeastOne(n: int): int {
    if n <= 0 then 1 else n
  }

  function MaxScroll(count: int, visibleRows: int): (m: int)
    ensures m == if count > visibleRows then count - visibleRows else 0
  {
    if count - visibleRows > 0 then count - visibleRows else 0
  }

  function Clamp(n: int, high: int): int {
    if n < 0 then 0 else if n > high then high else n
  }

  /** The scroll model as the rows themselves give it. */
  function ModelOf(rows: seq<nat>, scrollRow: int, visibleRows: int): ScrollModel {
    var shown := AtLeastOne(visibleRows);
    if rows == [] then ScrollModel(shown, 0, 0, 0)
    else
      var top := Clamp(Rank(rows, scrollRow), MaxScroll(|rows|, shown));
      ScrollModel(shown, |rows|, top, rows[top])
  }

  /** n rows from the top-th on, or as many as there are. */
  function Slice(rows: seq<nat>, top: nat, n: nat): seq<nat>
    requires top <= |rows|
  {
    rows[top..if top + n <= |rows| then top + n else |rows|]
  }

  /** The rows in the window of a scroll model. */
  function Window(rows: seq<nat>, scrollRow: int, visibleRows: int): seq<nat> {
    var m := ModelOf(rows, scrollRow, visibleRows);
    Slice(rows, m.topFilteredRow, m.visibleRows)
  }

  /**
   The window in the rows' own terms: with b rows before the scroll row it begins at the b-th, unless too few
   follow; then it ends with the last row. A window of no height counts as one row high.
   */
  lemma WindowIs(rows: seq<nat>, scrollRow: int, visibleRows: int, b: nat)
    requires Increasing(rows) && b <= |rows|
    requires (forall j :: 0 <= j < b ==> rows[j] < scrollRow) && (forall j :: b <= j < |rows| ==> scrollRow <= rows[j])
    ensures var n := if visibleRows <= 0 then 1 else visibleRows;
            var top := if |rows| <= n then 0 else if b <= |rows| - n then b else |rows| - n;
            && ModelOf(rows, scrollRow, visibleRows) == ScrollModel(n, |rows|, top, if rows == [] then 0 else rows[top])
            && Window(rows, scrollRow, visibleRows) == if |rows| <= n then rows else rows[top..top + n]
  {
    RankCounts(rows, scrollRow);
    RankIsUnique(rows, scrollRow, Rank(rows, scrollRow), b);
  }

  /** The window is always as full as it can be. */
  lemma WindowIsFull(rows: seq<nat>, scrollRow: int, visibleRows: int)
    ensures var n := if visibleRows <= 0 then 1 else visibleRows;
            |Window(rows, scrollRow, visibleRows)| == if n < |rows| then n else |rows|
  {
  }

  /** A window scrolled to its own top row stays where it is. */
  lemma ModelIsStable(rows: seq<nat>, scrollRow: int, visibleRows: int)
    requires Increasing(rows)
    ensures ModelOf(rows, ModelOf(rows, scrollRow, visibleRows).topRawRow, visibleRows) == ModelOf(rows, scrollRow, visibleRows)
  {
    if rows != [] {
      RankOfSelect(rows, ModelOf(rows, scrollRow, visibleRows).topFilteredRow);
    }
  }

  /** Scrolling to a chosen row shows it at the top, as far as there are rows below to fill the window. */
  lemma TopIsAsChosen(rows: seq<nat>, top: int, visibleRows: int)
    requires Increasing(rows) && rows != []
    ensures var shown := AtLeastOne(visibleRows);
            ModelOf(rows, Select(rows, Clamp(top, MaxScroll(|rows|, shown))), visibleRows).topFilteredRow ==
            Clamp(top, MaxScroll(|rows|, shown))
  {
    RankOfSelect(rows, Clamp(top, MaxScroll(|rows|, AtLeastOne(visibleRows))));
  }

  /** The first row of a window that lies within the rows and is as near as can be to a chosen one. */
  function Within(top: int, count: nat, visibleRows: int): (r: int)
    ensures var n := if visibleRows <= 0 then 1 else visibleRows;
            && 0 <= r && (r == 0 || r + n <= count)
            && (top >= 0 && (top == 0 || top + n <= count) ==> r == top)
            && (top < 0 ==> r == 0) && (top > 0 && top + n > count && count >= n ==> r == count - n)
  {
    Clamp(top, MaxScroll(count, AtLeastOne(visibleRows)))
  }

  // ---------- The view ----------

  class Log {
    var entries: seq<Columns>
    var filters: Columns
    var scrollRow: int

    ghost predicate Valid()
      reads this
    {
      |entries| <= 0x7fff_ffff
    }

    /** The indices of the entries that pass the filters. */
    ghost function Matching(): seq<nat>
      reads this
    {
      Rows(entries, filters)
    }

    ghost function Model(visibleRows: int): ScrollModel
      reads this
    {
      ModelOf(Matching(), scrollRow, visibleRows)
    }

    method HasActiveFilters() returns (active: bool)
      ensures active <==> AnyActive(filters)
    {
      for c := 0 to COLUMNS
        invariant forall k :: 0 <= k < c ==> filters[k] == ""
      {
        if filters[c] != "" {
          return true;
        }
      }
      return false;
    }

    method FilteredCount() returns (count: int)
      requires Valid()
      ensures count == |Matching()|
    {
      if |entries| == 0 {
        return 0;
      }
      var active := HasActiveFilters();
      if !active {
        RowsWithoutFilter(entries, filters, |entries|);
        return |entries|;
      }
      count := 0;
      for i := 0 to |entries|
        invariant count == |RowsUpTo(entries, filters, i)|
      {
        var matches := EntryMatchesFilters(filters, entries[i]);
        if matches && count < INT_MAX {
          count := count + 1;
        }
      }
    }

    method RawRowForFilteredIndex(filteredIndex: int) returns (raw: int)
      requires Valid()
      ensures raw == Select(Matching(), filteredIndex)
      ensures var rows := Matching();
              raw == if rows == [] then 0
                     else rows[if filteredIndex < 0 then 0 else if filteredIndex >= |rows| then |rows| - 1 else filteredIndex]
    {
      hide RowsUpTo, Matches;
      RowsEmpty(entries, filters);
      if |entries| == 0 {
        return 0;
      }
      var index := if filteredIndex < 0 then 0 else filteredIndex;
      var active := HasActiveFilters();
      if !active {
        RowsWithoutFilter(entries, filters, |entries|);
        return if index > |entries| - 1 then |entries| - 1 else index;
      }
      var matchIndex, lastMatch := 0, -1;
      for i := 0 to |entries|
        invariant matchIndex == |RowsUpTo(entries, filters, i)| <= index
        invariant lastMatch == if matchIndex == 0 then -1 else RowsUpTo(entries, filters, i)[matchIndex - 1]
      {
        RowsStep(entries, filters, i);
        var matches := EntryMatchesFilters(filters, entries[i]);
        if !matches {
          continue;
        }
        lastMatch := i;
        if matchIndex == index {
          return i;
        }
        matchIndex := matchIndex + 1;
      }
      return if lastMatch >= 0 then lastMatch else 0;
    }

    /** The rank of a row; without filters, a row past the end counts as the last one. */
    method FilteredIndexForRawRow(rawRow: int) returns (index: int)
      requires Valid()
      ensures index == if !AnyActive(filters) && 0 < |entries| <= rawRow then |entries| - 1 else Rank(Matching(), rawRow)
    {
      hide RowsUpTo, Matches, Rank, IsRank;
      RowsEmpty(entries, filters);
      RankOfClamped(entries, filters, rawRow);
      if |entries| == 0 {
        return 0;
      }
      var raw := if rawRow < 0 then 0 else rawRow;
      raw := if raw > |entries| then |entries| else raw;
      var active := HasActiveFilters();
      if !active {
        RankWithoutFilter(entries, filters, raw);
        return if raw > |entries| - 1 then |entries| - 1 else raw;
      }
      index := 0;
      for i := 0 to |entries|
        invariant index == |RowsUpTo(entries, filters, i)|
        invariant AllBelow(RowsUpTo(entries, filters, i), raw)
      {
        RowsStep(entries, filters, i);
        var matches := EntryMatchesFilters(filters, entries[i]);
        if !matches {
          continue;
        }
        if i >= raw {
          RankReached(entries, filters, raw, i);
          return;
        }
        index := index + 1;
      }
      RankReached(entries, filters, raw, |entries|);
    }

    /** With or without filters the model is the one the matching rows give: the shortcuts agree with the scan. */
    method BuildScrollModel(visibleRows: int) returns (m: ScrollModel)
      requires Valid()
      ensures m == Model(visibleRows)
    {
      var shown := AtLeastOne(visibleRows);
      var count := FilteredCount();
      if count <= 0 {
        return ScrollModel(shown, count, 0, 0);
      }
      var topFiltered := FilteredIndexForRawRow(scrollRow);
      PastTheEnd(entries, filters, scrollRow);
      var top := Clamp(topFiltered, MaxScroll(count, shown));
      var topRaw := RawRowForFilteredIndex(top);
      return ScrollModel(shown, count, top, topRaw);
    }

    method SetTopFilteredRow(visibleRows: int, topFilteredRow: int)
      requires Valid()
      modifies this`scrollRow
      ensures Matching() == [] ==> scrollRow == 0
      ensures Matching() != [] ==>
                && scrollRow in Matching()
                && Model(visibleRows).topFilteredRow == Within(topFilteredRow, |Matching()|, visibleRows)
    {
      RowsIncrease(entries, filters, |entries|);
      var m := BuildScrollModel(visibleRows);
      if m.filteredCount <= 0 {
        scrollRow := 0;
        return;
      }
      var top := Clamp(topFilteredRow, MaxScroll(m.filteredCount, m.visibleRows));
      TopIsAsChosen(Matching(), topFilteredRow, visibleRows);
      var raw := RawRowForFilteredIndex(top);
      scrollRow := raw;
    }

    /** Clamping lands on a matching row, keeps the model, and so does nothing the second time. */
    method ClampScroll(visibleRows: int)
      requires Valid()
      modifies this`scrollRow
      ensures scrollRow == old(Model(visibleRows)).topRawRow
      ensures Model(visibleRows) == old(Model(visibleRows))
      ensures if Matching() == [] then scrollRow == 0 else scrollRow in Matching()
    {
      RowsIncrease(entries, filters, |entries|);
      ModelIsStable(Matching(), scrollRow, visibleRows);
      NegativeIsTop(Matching(), scrollRow);
      if scrollRow < 0 {
        scrollRow := 0;
      }
      var m := BuildScrollModel(visibleRows);
      scrollRow := m.topRawRow;
    }

    method AdjustScroll(deltaRows: int, visibleRows: int)
      requires Valid()
      modifies this`scrollRow
      ensures deltaRows == 0 ==> scrollRow == old(scrollRow)
      ensures deltaRows != 0 ==> if Matching() == [] then scrollRow == 0 else scrollRow in Matching()
      ensures Matching() != [] ==>
                Model(visibleRows).topFilteredRow == Within(old(Model(visibleRows)).topFilteredRow + deltaRows, |Matching()|, visibleRows)
    {
      if deltaRows == 0 {
        return;
      }
      var m := BuildScrollModel(visibleRows);
      var next := m.topFilteredRow + deltaRows;
      next := if next < 0 then 0 else next;
      next := if next > INT_MAX then INT_MAX else next;
      SetTopFilteredRow(visibleRows, next);
    }

    /** Drawing shows exactly the window of the filtered rows. */
    method Render(visibleRows: int) returns (drawn: seq<nat>)
      requires Valid() && visibleRows >= 1
      modifies this`scrollRow
      ensures drawn == Window(Matching(), old(scrollRow), visibleRows)
      ensures scrollRow == old(Model(visibleRows)).topRawRow
    {
      RowsIncrease(entries, filters, |entries|);
      ghost var m := Model(visibleRows);
      ClampScroll(visibleRows);
      drawn := DrawFrom(scrollRow, visibleRows, m.topFilteredRow);
    }

    method DrawFrom(start: int, visibleRows: int, ghost top: nat) returns (drawn: seq<nat>)
      requires visibleRows >= 1 && 0 <= start
      requires if Matching() == [] then start == top == 0 else top < |Matching()| && start == Matching()[top]
      ensures drawn == Slice(Matching(), top, visibleRows)
    {
      hide RowsUpTo, Matches, Extends, Slice;
      drawn := [];
      var scanIndex := start;
      RowsBefore(entries, filters, top, start);
      ExtendsByNone(RowsUpTo(entries, filters, start));
      while scanIndex < |entries| && |drawn| < visibleRows
        invariant start <= scanIndex <= |entries| && |drawn| <= visibleRows
        invariant Extends(RowsUpTo(entries, filters, start), drawn, RowsUpTo(entries, filters, scanIndex))
      {
        RowsStep(entries, filters, scanIndex);
        ExtendsStep(RowsUpTo(entries, filters, start), drawn, RowsUpTo(entries, filters, scanIndex), scanIndex);
        var matches := EntryMatchesFilters(filters, entries[scanIndex]);
        if matches {
          drawn := drawn + [scanIndex];
        }
        scanIndex := scanIndex + 1;
      }
      RowsGrow(entries, filters, scanIndex, |entries|);
      DrawnIsSlice(Matching(), top, drawn, RowsUpTo(entries, filters, scanIndex), visibleRows);
    }
  }

  predicate Extends(before: seq<nat>, drawn: seq<nat>, after: seq<nat>) {
    before + drawn == after
  }

  lemma ExtendsByNone(before: seq<nat>)
    ensures Extends(before, [], before)
  {
    assert before + [] == before;
  }

  lemma ExtendsStep(before: seq<nat>, drawn: seq<nat>, after: seq<nat>, i: nat)
    requires Extends(before, drawn, after)
    ensures Extends(before, drawn + [i], after + [i]) && Extends(before, drawn, after + [])
  {
    assert before + (drawn + [i]) == before + drawn + [i];
    assert after + [] == after;
  }

  lemma DrawnIsSlice(rows: seq<nat>, top: nat, drawn: seq<nat>, after: seq<nat>, n: nat)
    requires top <= |rows| && Extends(rows[..top], drawn, after) && after <= rows
    requires |drawn| <= n && (|drawn| == n || after == rows)
    ensures drawn == Slice(rows, top, n)
  {
    assert forall k :: 0 <= k < |drawn| ==> drawn[k] == (rows[..top] + drawn)[top + k];
  }

  lemma RowsEmpty(entries: seq<Columns>, filters: Columns)
    ensures RowsUpTo(entries, filters, 0) == []
  {
  }

  predicate AllBelow(rows: seq<nat>, raw: int) {
    forall k :: 0 <= k < |rows| ==> rows[k] < raw
  }

  lemma RankReached(entries: seq<Columns>, filters: Columns, raw: nat, i: nat)
    requires i <= |entries| && AllBelow(RowsUpTo(entries, filters, i), raw) && (raw <= i || i == |entries|)
    ensures Rank(Rows(entries, filters), raw) == |RowsUpTo(entries, filters, i)|
  {
    var rows := Rows(entries, filters);
    RowsGrow(entries, filters, i, |entries|);
    RowsIncrease(entries, filters, |entries|);
    RankCounts(rows, raw);
    RankIsUnique(rows, raw, Rank(rows, raw), |RowsUpTo(entries, filters, i)|);
  }

  lemma RankWithoutFilter(entries: seq<Columns>, filters: Columns, raw: nat)
    requires !AnyActive(filters) && raw <= |entries|
    ensures Rank(Rows(entries, filters), raw) == raw
  {
    RowsWithoutFilter(entries, filters, |entries|);
    RowsIncrease(entries, filters, |entries|);
    RankCounts(Rows(entries, filters), raw);
    RankIsUnique(Rows(entries, filters), raw, Rank(Rows(entries, filters), raw), raw);
  }

  lemma RankOfClamped(entries: seq<Columns>, filters: Columns, rawRow: int)
    ensures Rank(Rows(entries, filters), rawRow) ==
            Rank(Rows(entries, filters), if rawRow < 0 then 0 else if rawRow > |entries| then |entries| else rawRow)
    ensures entries == [] ==> Rank(Rows(entries, filters), rawRow) == 0
  {
    if rawRow < 0 {
      NegativeIsTop(Rows(entries, filters), rawRow);
    } else if rawRow > |entries| {
      PastTheEnd(entries, filters, rawRow);
      PastTheEnd(entries, filters, |entries|);
    }
  }

  lemma PastTheEnd(entries: seq<Columns>, filters: Columns, scrollRow: int)
    ensures |entries| <= scrollRow ==> Rank(Rows(entries, filters), scrollRow) == |Rows(entries, filters)|
    ensures !AnyActive(filters) ==> |Rows(entries, filters)| == |entries|
  {
    RowsIncrease(entries, filters, |entries|);
    if |entries| <= scrollRow {
      RankCounts(Rows(entries, filters), scrollRow);
      RankIsUnique(Rows(entries, filters), scrollRow, Rank(Rows(entries, filters), scrollRow), |Rows(entries, filters)|);
    }
    if !AnyActive(filters) {
      RowsWithoutFilter(entries, filters, |entries|);
    }
  }

  lemma NegativeIsTop(rows: seq<nat>, scrollRow: int)
    ensures scrollRow < 0 ==> Rank(rows, scrollRow) == Rank(rows, 0) == 0
  {
  }

  /** The rows before the top-th matching row are the first top of them. */
  lemma RowsBefore(entries: seq<Columns>, filters: Columns, top: nat, start: nat)
    requires Rows(entries, filters) == [] ==> start == top == 0
    requires Rows(entries, filters) != [] ==> top < |Rows(entries, filters)| && start == Rows(entries, filters)[top]
    ensures start <= |entries| && RowsUpTo(entries, filters, start) == Rows(entries, filters)[..top]
  {
    var rows := Rows(entries, filters);
    RowsIncrease(entries, filters, |entries|);
    if rows != [] {
      RowsGrow(entries, filters, start, |entries|);
      RankIsUnique(rows, start, |RowsUpTo(entries, filters, start)|, top);
    }
  }
}
