/** Text with a separator in it, and cutting it at the first one. */
module Separators {

  ghost predicate Without(c: char, s: string) {
    c !in s
  }

  lemma FirstSeparator(sep: char, a: string, x: string)
    requires Without(sep, a)
    ensures (a + [sep] + x)[|a|] == sep && forall k | 0 <= k < |a| :: (a + [sep] + x)[k] != sep
  {
    assert forall k | 0 <= k < |a| :: (a + [sep] + x)[k] == a[k];
  }

  /** Cutting at the first separator is unambiguous. */
  lemma CutIsUnique(sep: char, a: string, x: string, b: string, y: string)
    requires Without(sep, a) && Without(sep, b)
    requires a + [sep] + x == b + [sep] + y
    ensures a == b && x == y
  {
    var p, q := a + [sep] + x, b + [sep] + y;
    FirstSeparator(sep, a, x);
    FirstSeparator(sep, b, y);
    assert |a| == |b|;
    assert a == p[..|a|] && b == q[..|b|];
    assert x == p[|a| + 1..] && y == q[|b| + 1..];
  }

  /** JavaScript's `s.indexOf(sep)`. */
  function IndexOf(s: string, sep: char): (at: int)
    ensures -1 <= at < |s|
  {
    if s == [] then -1
    else if s[0] == sep then 0
    else
      var at := IndexOf(s[1..], sep);
      if at < 0 then -1 else at + 1
  }

  /** `[s.slice(0, at), s.slice(at + 1)]` where `at` is the first separator; a missing one is at -1,
      and then the first slice loses the last character and the second is everything. */
  function SplitAt(s: string, sep: char): (string, string) {
    var at := IndexOf(s, sep);
    if at >= 0 then (s[..at], s[at + 1..])
    else if s == [] then ("", "")
    else (s[..|s| - 1], s)
  }

  lemma {:induction false} SplitJoined(sep: char, a: string, x: string)
    requires Without(sep, a)
    ensures SplitAt(a + [sep] + x, sep) == (a, x)
  {
    IndexOfJoined(sep, a, x);
    var s := a + [sep] + x;
    assert s[..|a|] == a && s[|a| + 1..] == x;
  }

  lemma {:induction false} IndexOfJoined(sep: char, a: string, x: string)
    requires Without(sep, a)
    ensures IndexOf(a + [sep] + x, sep) == |a|
  {
    var s := a + [sep] + x;
    if a != [] {
      assert s[0] == a[0] && s[1..] == a[1..] + [sep] + x;
      IndexOfJoined(sep, a[1..], x);
    }
  }

  /** Cutting a text that has a separator and putting it together again. */
  lemma {:induction false} JoinSplit(s: string, sep: char)
    requires sep in s
    ensures var (a, x) := SplitAt(s, sep); Without(sep, a) && s == a + [sep] + x
  {
    IndexOfFirst(s, sep);
  }

  lemma {:induction false} IndexOfFirst(s: string, sep: char)
    ensures IndexOf(s, sep) >= 0 <==> sep in s
    ensures IndexOf(s, sep) >= 0 ==> s[IndexOf(s, sep)] == sep
    ensures forall k | 0 <= k < IndexOf(s, sep) :: s[k] != sep
  {
    if s != [] && s[0] != sep {
      IndexOfFirst(s[1..], sep);
      assert s == [s[0]] + s[1..];
    }
  }
}
