/** The Python `str` operations the scripts rely on: `strip()`, `split(sep)`,
    `split(sep, 1)`, and the code-point order that `sorted()` puts strings in. */
module Text {

  /** `str.isspace()` on one character: the characters Python counts as
      whitespace (bidirectional class WS, B or S, or general category Zs). */
  predicate IsSpace(c: char) {
    || '\t' <= c <= '\r'
    || '\U{1C}' <= c <= ' '
    || c == '\U{85}' || c == '\U{A0}' || c == '\U{1680}'
    || '\U{2000}' <= c <= '\U{200A}'
    || c == '\U{2028}' || c == '\U{2029}' || c == '\U{202F}' || c == '\U{205F}'
    || c == '\U{3000}'
  }

  predicate AllSpace(s: string) {
    forall i :: 0 <= i < |s| ==> IsSpace(s[i])
  }

  /** Neither starts nor ends with whitespace. */
  predicate Trimmed(s: string) {
    |s| == 0 || (!IsSpace(s[0]) && !IsSpace(s[|s| - 1]))
  }

  /** `s` is `t` with the whitespace `a` before it and the whitespace `b`
      after it. */
  predicate Padding(s: string, a: string, t: string, b: string) {
    s == a + t + b && AllSpace(a) && AllSpace(b)
  }

  function TrimStart(s: string): string {
    if |s| > 0 && IsSpace(s[0]) then TrimStart(s[1..]) else s
  }

  function TrimEnd(s: string): string {
    if |s| > 0 && IsSpace(s[|s| - 1]) then TrimEnd(s[..|s| - 1]) else s
  }

  /** `str.strip()`: the text between the leading and the trailing
      whitespace. */
  function Strip(s: string): string {
    TrimEnd(TrimStart(s))
  }

  /** `TrimStart` removes a whitespace prefix and leaves text that does not
      start with whitespace. */
  lemma {:induction false} TrimStartSplits(s: string)
    ensures |TrimStart(s)| > 0 ==> !IsSpace(TrimStart(s)[0])
    ensures exists a :: Padding(s, a, TrimStart(s), [])
  {
    var r := TrimStart(s);
    if |s| > 0 && IsSpace(s[0]) {
      TrimStartSplits(s[1..]);
      var a :| Padding(s[1..], a, r, []);
      assert s == [s[0]] + s[1..];
      assert Padding(s, [s[0]] + a, r, []);
    } else {
      assert Padding(s, [], r, []);
    }
  }

  /** `TrimEnd` removes a whitespace suffix and leaves text that does not
      end with whitespace. */
  lemma {:induction false} TrimEndSplits(s: string)
    ensures |TrimEnd(s)| > 0 ==> !IsSpace(TrimEnd(s)[|TrimEnd(s)| - 1])
    ensures exists b :: Padding(s, [], TrimEnd(s), b)
  {
    var r := TrimEnd(s);
    if |s| > 0 && IsSpace(s[|s| - 1]) {
      TrimEndSplits(s[..|s| - 1]);
      var b :| Padding(s[..|s| - 1], [], r, b);
      PaddingSnoc(s, r, b);
    } else {
      assert Padding(s, [], r, []);
    }
  }

  /** `strip()` leaves trimmed text, with only whitespace around it in the
      original. */
  lemma StripSplits(s: string)
    ensures Trimmed(Strip(s))
    ensures exists a, b :: Padding(s, a, Strip(s), b)
  {
    var u := TrimStart(s);
    var r := Strip(s);
    TrimStartSplits(s);
    TrimEndSplits(u);
    var a :| Padding(s, a, u, []);
    var b :| Padding(u, [], r, b);
    PaddingCompose(s, a, u, r, b);
  }

  lemma PaddingSnoc(s: string, r: string, b: string)
    requires |s| > 0 && IsSpace(s[|s| - 1]) && Padding(s[..|s| - 1], [], r, b)
    ensures Padding(s, [], r, b + [s[|s| - 1]])
  {
    assert s == s[..|s| - 1] + [s[|s| - 1]];
  }

  /** Padding around padding is padding; trimmed at both ends is trimmed. */
  lemma PaddingCompose(s: string, a: string, u: string, r: string, b: string)
    requires Padding(s, a, u, []) && Padding(u, [], r, b)
    requires |u| > 0 ==> !IsSpace(u[0])
    requires |r| > 0 ==> !IsSpace(r[|r| - 1])
    ensures Trimmed(r) && Padding(s, a, r, b)
  {
    assert u == r + b;
    if |r| > 0 {
      assert r[0] == u[0];
    }
  }

  lemma {:induction false} TrimStartPadded(a: string, u: string)
    requires AllSpace(a)
    ensures TrimStart(a + u) == TrimStart(u)
  {
    if |a| > 0 {
      assert (a + u)[0] == a[0];
      assert (a + u)[1..] == a[1..] + u;
      TrimStartPadded(a[1..], u);
    } else {
      assert a + u == u;
    }
  }

  lemma {:induction false} TrimEndPadded(u: string, b: string)
    requires AllSpace(b)
    ensures TrimEnd(u + b) == TrimEnd(u)
  {
    if |b| > 0 {
      assert (u + b)[|u + b| - 1] == b[|b| - 1];
      assert (u + b)[..|u + b| - 1] == u + b[..|b| - 1];
      TrimEndPadded(u, b[..|b| - 1]);
    } else {
      assert u + b == u;
    }
  }

  /** Whitespace on either side of trimmed text is exactly what `strip()`
      removes: the result is that text, and nothing else. */
  lemma StripUnique(a: string, t: string, b: string)
    requires AllSpace(a) && AllSpace(b) && Trimmed(t)
    ensures Strip(a + t + b) == t
  {
    assert a + t + b == a + (t + b);
    TrimStartPadded(a, t + b);
    if |t| > 0 {
      assert (t + b)[0] == t[0];
      TrimEndPadded(t, b);
    } else {
      assert t + b == b;
      TrimStartPadded(b, []);
      assert b + [] == b;
    }
  }

  /** Stripping again changes nothing. */
  lemma StripIdempotent(s: string)
    ensures Strip(Strip(s)) == Strip(s)
  {
    var t := Strip(s);
    StripSplits(s);
    assert [] + t + [] == t;
    StripUnique([], t, []);
  }

  /** The position of the first `c` in `s`. */
  function IndexOf(s: string, c: char): (k: nat)
    requires c in s
    ensures k < |s| && s[k] == c && c !in s[..k]
  {
    if s[0] == c then 0
    else
      var k := IndexOf(s[1..], c) + 1;
      assert s[..k] == [s[0]] + s[1..][..k - 1];
      k
  }

  lemma {:induction false} IndexOfJoined(u: string, c: char, v: string)
    requires c !in u
    ensures IndexOf(u + [c] + v, c) == |u|
  {
    if |u| > 0 {
      assert (u + [c] + v)[0] == u[0];
      assert (u + [c] + v)[1..] == u[1..] + [c] + v;
      assert c !in u[1..] by {
        assert forall i :: 0 <= i < |u| - 1 ==> u[1..][i] == u[i + 1];
      }
      IndexOfJoined(u[1..], c, v);
    }
  }

  /** `sep.join(parts)`. */
  function Join(parts: seq<string>, sep: char): string {
    if |parts| == 0 then []
    else if |parts| == 1 then parts[0]
    else parts[0] + [sep] + Join(parts[1..], sep)
  }

  /** `s.split(sep)` with an explicit one-character separator: the pieces
      between separators, empty ones included, so there is always at least
      one. Joining the pieces gives back `s`. */
  function Split(s: string, sep: char): (r: seq<string>)
    ensures |r| >= 1
    ensures forall i :: 0 <= i < |r| ==> sep !in r[i]
    ensures Join(r, sep) == s
    decreases |s|
  {
    if sep !in s then [s]
    else
      var k := IndexOf(s, sep);
      var rest := Split(s[k + 1..], sep);
      var r := [s[..k]] + rest;
      assert r[1..] == rest;
      assert s == s[..k] + [sep] + s[k + 1..];
      r
  }

  /** Splitting pieces that do not contain the separator after joining them
      gives the pieces back. */
  lemma {:induction false} SplitJoin(parts: seq<string>, sep: char)
    requires |parts| >= 1
    requires forall i :: 0 <= i < |parts| ==> sep !in parts[i]
    ensures Split(Join(parts, sep), sep) == parts
  {
    if |parts| > 1 {
      SplitFirst(parts[0], sep, Join(parts[1..], sep));
      SplitJoin(parts[1..], sep);
      assert parts == [parts[0]] + parts[1..];
    }
  }

  /** Splitting peels off the text before the first separator. */
  lemma SplitFirst(u: string, sep: char, v: string)
    requires sep !in u
    ensures Split(u + [sep] + v, sep) == [u] + Split(v, sep)
  {
    var s := u + [sep] + v;
    IndexOfJoined(u, sep, v);
    assert s[..|u|] == u;
    assert s[|u| + 1..] == v;
  }

  /** The first field of `s.split(c, 1)`: the text before the first `c`. */
  function BeforeFirst(s: string, c: char): (r: string)
    requires c in s
    ensures |r| < |s| && c !in r && s[..|r| + 1] == r + [c]
  {
    s[..IndexOf(s, c)]
  }

  /** Only the text before the first `c` decides the first field. */
  lemma BeforeFirstOfJoined(u: string, c: char, v: string)
    requires c !in u
    ensures BeforeFirst(u + [c] + v, c) == u
  {
    IndexOfJoined(u, c, v);
    assert (u + [c] + v)[..|u|] == u;
  }

  /** The first field is the first piece of the full split. */
  lemma BeforeFirstIsFirstPiece(s: string, c: char)
    requires c in s
    ensures BeforeFirst(s, c) == Split(s, c)[0]
  {
  }

  /** Python's `<` on strings: code-point lexicographic order, a proper
      prefix coming first. */
  predicate Below(a: string, b: string)
    decreases |a|
  {
    if |a| == 0 then |b| > 0
    else if |b| == 0 then false
    else a[0] < b[0] || (a[0] == b[0] && Below(a[1..], b[1..]))
  }

  lemma {:induction false} BelowIrreflexive(a: string)
    ensures !Below(a, a)
  {
    if |a| > 0 {
      BelowIrreflexive(a[1..]);
    }
  }

  lemma {:induction false} BelowTransitive(a: string, b: string, c: string)
    requires Below(a, b) && Below(b, c)
    ensures Below(a, c)
    decreases |a|
  {
    if |a| > 0 && a[0] == b[0] && b[0] == c[0] {
      BelowTransitive(a[1..], b[1..], c[1..]);
    }
  }

  lemma {:induction false} BelowTotal(a: string, b: string)
    ensures a == b || Below(a, b) || Below(b, a)
    decreases |a|
  {
    if |a| > 0 && |b| > 0 && a[0] == b[0] {
      BelowTotal(a[1..], b[1..]);
      if a[1..] == b[1..] {
        assert a == [a[0]] + a[1..] && b == [b[0]] + b[1..];
      }
    }
  }

  lemma BelowAsymmetric(a: string, b: string)
    requires Below(a, b)
    ensures !Below(b, a)
  {
    if Below(b, a) {
      BelowTransitive(a, b, a);
      BelowIrreflexive(a);
    }
  }

  predicate Ascending(s: seq<string>) {
    forall i, j :: 0 <= i < j < |s| ==> Below(s[i], s[j])
  }

  predicate IsLeast(m: string, s: set<string>) {
    m in s && forall x :: x in s && x != m ==> Below(m, x)
  }

  lemma {:induction false} LeastExists(s: set<string>)
    requires s != {}
    ensures exists m :: IsLeast(m, s)
    decreases |s|
  {
    var x :| x in s;
    var rest := s - {x};
    if rest == {} {
      forall y | y in s
        ensures y == x
      {
        assert y !in rest;
      }
      assert IsLeast(x, s);
    } else {
      LeastExists(rest);
      var m :| IsLeast(m, rest);
      BelowTotal(x, m);
      if Below(x, m) {
        forall y | y in s && y != x
          ensures Below(x, y)
        {
          if y != m {
            BelowTransitive(x, m, y);
          }
        }
        assert IsLeast(x, s);
      } else {
        assert IsLeast(m, s);
      }
    }
  }

  lemma LeastUnique(m1: string, m2: string, s: set<string>)
    requires IsLeast(m1, s) && IsLeast(m2, s)
    ensures m1 == m2
  {
    if m1 != m2 {
      BelowAsymmetric(m1, m2);
    }
  }

  /** The first string of a set in code-point order. */
  function Least(s: set<string>): (m: string)
    requires s != {}
    ensures IsLeast(m, s)
  {
    LeastExists(s);
    BelowStrict();
    var m :| IsLeast(m, s);
    m
  }

  lemma BelowStrict()
    ensures forall a, b :: Below(a, b) ==> !Below(b, a)
  {
    forall a, b | Below(a, b)
      ensures !Below(b, a)
    {
      BelowAsymmetric(a, b);
    }
  }

  lemma AscendingCons(m: string, rest: seq<string>)
    requires Ascending(rest)
    requires forall x :: x in rest ==> Below(m, x)
    ensures Ascending([m] + rest)
  {
    var r := [m] + rest;
    forall i, j | 0 <= i < j < |r|
      ensures Below(r[i], r[j])
    {
      assert r[j] == rest[j - 1];
      if i > 0 {
        assert r[i] == rest[i - 1];
      }
    }
  }

  /** `sorted(s)` for a set of strings: its members, each once, in
      ascending order. */
  function SortedList(s: set<string>): (r: seq<string>)
    ensures Ascending(r)
    ensures forall x :: x in r <==> x in s
    ensures |r| == |s|
    decreases |s|
  {
    if s == {} then []
    else
      var m := Least(s);
      var rest := SortedList(s - {m});
      AscendingCons(m, rest);
      [m] + rest
  }

  /** An ascending sequence holds no value twice. */
  lemma AscendingDistinct(r: seq<string>, i: nat, j: nat)
    requires Ascending(r) && i < j < |r|
    ensures r[i] != r[j]
  {
    BelowIrreflexive(r[i]);
  }

  /** The head of an ascending sequence is below all its other members. */
  lemma HeadIsLeast(a: seq<string>)
    requires Ascending(a) && |a| > 0
    ensures forall x :: x in a && x != a[0] ==> Below(a[0], x)
  {
    forall x | x in a && x != a[0]
      ensures Below(a[0], x)
    {
      var i :| 0 <= i < |a| && a[i] == x;
    }
  }

  lemma SameHead(a: seq<string>, b: seq<string>)
    requires Ascending(a) && Ascending(b) && |a| > 0 && |b| > 0
    requires forall x :: x in a <==> x in b
    ensures a[0] == b[0]
  {
    if a[0] != b[0] {
      assert a[0] in a && b[0] in b;
      HeadIsLeast(a);
      HeadIsLeast(b);
      BelowAsymmetric(a[0], b[0]);
    }
  }

  /** Two ascending sequences with the same members are the same sequence,
      so `SortedList` is the only ascending listing of a set. */
  lemma {:induction false} AscendingUnique(a: seq<string>, b: seq<string>)
    requires Ascending(a) && Ascending(b)
    requires forall x :: x in a <==> x in b
    ensures a == b
    decreases |a|
  {
    if |a| > 0 {
      assert a[0] in a;
    }
    if |b| > 0 {
      assert b[0] in b;
    }
    if |a| > 0 && |b| > 0 {
      SameHead(a, b);
      forall x
        ensures x in a[1..] <==> x in b[1..]
      {
        TailMembers(a, x);
        TailMembers(b, x);
      }
      AscendingUnique(a[1..], b[1..]);
      assert a == [a[0]] + a[1..] && b == [b[0]] + b[1..];
    }
  }

  /** The tail of an ascending sequence holds its members other than the
      head. */
  lemma TailMembers(a: seq<string>, x: string)
    requires Ascending(a) && |a| > 0
    ensures x in a[1..] <==> x in a && x != a[0]
  {
    if x in a[1..] {
      var i :| 1 <= i < |a| && a[i] == x;
      BelowIrreflexive(a[0]);
    }
    if x in a && x != a[0] {
      var i :| 0 <= i < |a| && a[i] == x;
      assert a[1..][i - 1] == x;
    }
  }
}
