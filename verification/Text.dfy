/** The C string operations the option files are read and written with, on sequences of characters. */
module Text {
  import opened Sequences

  predicate IsBlank(c: char) {
    c == ' ' || c == '\t'
  }

  predicate IsTrailing(c: char) {
    c == ' ' || c == '\t' || c == '\r' || c == '\n'
  }

  function TrimLeft(s: string): (r: string)
    ensures r == "" || !IsBlank(r[0])
    ensures |r| <= |s|
  {
    if s != "" && IsBlank(s[0]) then TrimLeft(s[1..]) else s
  }

  function TrimRight(s: string): (r: string)
    ensures r == "" || !IsTrailing(r[|r| - 1])
    ensures |r| <= |s|
  {
    if s != "" && IsTrailing(s[|s| - 1]) then TrimRight(s[..|s| - 1]) else s
  }

  /** Trimming on the left takes spaces and tabs, all of them, and nothing else. */
  lemma {:induction false} TrimLeftIs(s: string) returns (n: nat)
    ensures n <= |s| && TrimLeft(s) == s[n..] && forall i :: 0 <= i < n ==> s[i] == ' ' || s[i] == '\t'
    ensures n < |s| ==> s[n] != ' ' && s[n] != '\t'
  {
    if s != "" && IsBlank(s[0]) {
      var m := TrimLeftIs(s[1..]);
      n := m + 1;
    } else {
      n := 0;
    }
  }

  /** Trimming on the right takes spaces, tabs and both line end characters, all of them, and nothing else. */
  lemma {:induction false} TrimRightIs(s: string) returns (n: nat)
    ensures n <= |s| && TrimRight(s) == s[..n]
    ensures forall i :: n <= i < |s| ==> s[i] == ' ' || s[i] == '\t' || s[i] == '\r' || s[i] == '\n'
    ensures n > 0 ==> s[n - 1] != ' ' && s[n - 1] != '\t' && s[n - 1] != '\r' && s[n - 1] != '\n'
  {
    if s != "" && IsTrailing(s[|s| - 1]) {
      n := TrimRightIs(s[..|s| - 1]);
    } else {
      n := |s|;
    }
  }

  /** strchr: the first position of c, or the length. */
  function IndexOf(s: string, c: char): (i: nat)
    ensures i <= |s| && (i < |s| ==> s[i] == c)
    ensures forall j :: 0 <= j < i ==> s[j] != c
  {
    if s == "" || s[0] == c then 0 else 1 + IndexOf(s[1..], c)
  }

  /** strrchr: the last position of c, or the length. */
  function LastIndexOf(s: string, c: char): (i: nat)
    ensures i <= |s| && (i < |s| ==> s[i] == c)
    ensures forall j :: 0 <= j < |s| && (i < j || i == |s|) ==> s[j] != c
  {
    if s == "" then 0
    else if s[|s| - 1] == c then |s| - 1
    else
      var i := LastIndexOf(s[..|s| - 1], c);
      if i == |s| - 1 then |s| else i
  }

  predicate StartsWith(s: string, prefix: string) {
    prefix <= s
  }

  lemma Around<T>(a: seq<T>, x: T, b: seq<T>)
    ensures var s := a + [x] + b;
            |s| == |a| + 1 + |b| && s[..|a|] == a && s[|a|] == x && s[|a| + 1..] == b
  {
  }

  lemma SliceAppend<T>(s: seq<T>, t: seq<T>, i: nat)
    requires i <= |s|
    ensures (s + t)[..i] == s[..i] && (s + t)[i..] == s[i..] + t
  {
  }

  lemma IndexOfAt(s: string, c: char, i: nat)
    requires i < |s| && s[i] == c && forall j :: 0 <= j < i ==> s[j] != c
    ensures IndexOf(s, c) == i
  {
  }

  lemma LastIndexOfAt(s: string, c: char, i: nat)
    requires i < |s| && s[i] == c && forall j :: i < j < |s| ==> s[j] != c
    ensures LastIndexOf(s, c) == i
  {
  }

  lemma {:induction false} TrimRightNewline(s: string)
    ensures TrimRight(s + "\n") == TrimRight(s)
  {
    assert (s + "\n")[..|s|] == s;
  }

  // ---------- Quoting ----------

  /** What the writer puts between quotes: backslashes are doubled, quotes are left alone. */
  function Escape(s: string): (r: string)
    ensures |s| <= |r| <= 2 * |s|
  {
    if s == "" then ""
    else (if s[0] == '\\' then ['\\', '\\'] else [s[0]]) + Escape(s[1..])
  }

  /** What the reader makes of it: a backslash stands for the character after it, if there is one. */
  function Unescape(s: string): string {
    if s == "" then ""
    else if s[0] == '\\' && |s| > 1 then [s[1]] + Unescape(s[2..])
    else [s[0]] + Unescape(s[1..])
  }

  /** Text is escaped character by character: a backslash becomes two, every other character stays. */
  lemma {:induction false} EscapeIs(s: string, t: string, c: char)
    ensures Escape(s + t) == Escape(s) + Escape(t)
    ensures Escape([c]) == if c == '\\' then [c, c] else [c]
  {
    EscapeOne(c);
    if s == "" {
      assert s + t == t && Escape(t) == "" + Escape(t);
    } else {
      assert (s + t)[1..] == s[1..] + t;
      EscapeIs(s[1..], t, c);
    }
  }

  lemma EscapeOne(c: char)
    ensures Escape([c]) == if c == '\\' then [c, c] else [c]
  {
    assert [c][1..] == "" && Escape("") == "";
  }

  /** Reading takes a backslash and the character after it for that character, and a last backslash for itself. */
  lemma UnescapeIs(s: string, c: char)
    ensures Unescape(['\\', c] + s) == [c] + Unescape(s)
    ensures c != '\\' ==> Unescape([c] + s) == [c] + Unescape(s)
    ensures Unescape("\\") == "\\" && Unescape("") == ""
  {
    assert (['\\', c] + s)[2..] == s && ([c] + s)[1..] == s;
  }

  lemma {:induction false} UnescapeEscape(s: string)
    ensures Unescape(Escape(s)) == s
  {
    if s != "" {
      UnescapeEscape(s[1..]);
      if s[0] == '\\' {
        assert Escape(s)[2..] == Escape(s[1..]);
      } else {
        assert Escape(s)[1..] == Escape(s[1..]);
      }
    }
  }

  /** What stands before an unescaped character of an escaped text is the escape of a shorter text. */
  lemma {:induction false} UnescapePrefix(s: string, i: nat)
    requires i < |Escape(s)| && Escape(s)[i] != '\\'
    ensures |Unescape(Escape(s)[..i])| < |s|
  {
    var e := Escape(s);
    if s[0] == '\\' {
      assert e[0] == '\\' && e[1] == '\\' && i >= 2;
      assert e[..i][2..] == Escape(s[1..])[..i - 2];
      UnescapePrefix(s[1..], i - 2);
    } else if i == 0 {
      assert e[..0] == "";
    } else {
      assert e[..i][1..] == Escape(s[1..])[..i - 1];
      UnescapePrefix(s[1..], i - 1);
    }
  }

  lemma {:induction false} EscapeKeepsOut(s: string, c: char)
    requires c !in s
    ensures c !in Escape(s)
  {
    if s != "" {
      EscapeKeepsOut(s[1..], c);
    }
  }

  /** The writer's loop, appending to the file. */
  method WriteQuoted(out: string, path: string) returns (out': string)
    ensures out' == out + "\"" + Escape(path) + "\""
  {
    out' := out + "\"";
    assert path[0..] == path;
    for i := 0 to |path|
      invariant out' + Escape(path[i..]) == out + "\"" + Escape(path)
    {
      assert path[i..][1..] == path[i + 1..];
      if path[i] == '\\' {
        out' := out' + "\\";
      }
      out' := out' + [path[i]];
    }
    assert path[|path|..] == "";
    out' := out' + "\"";
  }

  lemma UnescapeStep(body: string, p: nat)
    requires p < |body|
    ensures var q := if body[p] == '\\' && p + 1 < |body| then p + 1 else p;
            Unescape(body[p..]) == [body[q]] + Unescape(body[q + 1..])
  {
    if body[p] == '\\' && p + 1 < |body| {
      assert body[p..][2..] == body[p + 2..];
    } else {
      assert body[p..][1..] == body[p + 1..];
    }
  }

  /** The reader's loop, filling a buffer of `cap` bytes that keeps one for the terminator. */
  method ReadQuoted(body: string, cap: nat) returns (out: string)
    requires cap > 0
    ensures out == Take(Unescape(body), cap - 1)
  {
    hide Unescape;
    out := "";
    var p: nat := 0;
    assert body[0..] == body;
    while p < |body| && |out| + 1 < cap
      invariant p <= |body| && |out| <= cap - 1
      invariant Unescape(body) == out + Unescape(body[p..])
    {
      UnescapeStep(body, p);
      ghost var rest := Unescape(body[p..]);
      if body[p] == '\\' && p + 1 < |body| {
        p := p + 1;
      }
      assert out + rest == (out + [body[p]]) + Unescape(body[p + 1..]);
      out := out + [body[p]];
      p := p + 1;
    }
    if p == |body| {
      assert body[p..] == "";
      UnescapeNothing();
    }
  }

  lemma UnescapeNothing()
    ensures Unescape("") == ""
  {
  }
}
