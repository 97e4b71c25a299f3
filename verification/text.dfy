/** The Python string operations the response cleaning is made of. */
module Text {

  /** `str.isspace()` for one character: the characters `str.strip()` removes. */
  predicate IsSpace(c: char) {
    || c == ' ' || '\t' <= c <= '\r'
    || '\U{1C}' <= c <= '\U{1F}'
    || c == '\U{85}' || c == '\U{A0}' || c == '\U{1680}'
    || '\U{2000}' <= c <= '\U{200A}'
    || c == '\U{2028}' || c == '\U{2029}' || c == '\U{202F}' || c == '\U{205F}' || c == '\U{3000}'
  }

  /** The characters a strip call removes: `strip()` or `strip(chars)`. */
  datatype CharSet = Whitespace | AnyOf(chars: string)

  predicate Drops(cs: CharSet, c: char) {
    match cs
    case Whitespace => IsSpace(c)
    case AnyOf(chars) => c in chars
  }

  /** How many leading characters of `s` belong to `cs`. */
  function LeadingCount(s: string, cs: CharSet): (n: nat)
    ensures n <= |s|
  {
    if s != [] && Drops(cs, s[0]) then 1 + LeadingCount(s[1..], cs) else 0
  }

  /** How many trailing characters of `s` belong to `cs`. */
  function TrailingCount(s: string, cs: CharSet): (n: nat)
    ensures n <= |s|
  {
    if s != [] && Drops(cs, s[|s| - 1]) then 1 + TrailingCount(s[..|s| - 1], cs) else 0
  }

  /** The leading run ends at the first character that is not dropped. */
  lemma {:induction false} LeadingRun(s: string, cs: CharSet)
    ensures forall i :: 0 <= i < LeadingCount(s, cs) ==> Drops(cs, s[i])
    ensures LeadingCount(s, cs) < |s| ==> !Drops(cs, s[LeadingCount(s, cs)])
  {
    if s != [] && Drops(cs, s[0]) {
      LeadingRun(s[1..], cs);
      assert forall i :: 1 <= i < |s| ==> s[i] == s[1..][i - 1];
    }
  }

  /** The trailing run starts after the last character that is not dropped. */
  lemma {:induction false} TrailingRun(s: string, cs: CharSet)
    ensures forall i :: |s| - TrailingCount(s, cs) <= i < |s| ==> Drops(cs, s[i])
    ensures TrailingCount(s, cs) < |s| ==> !Drops(cs, s[|s| - 1 - TrailingCount(s, cs)])
  {
    if s != [] && Drops(cs, s[|s| - 1]) {
      TrailingRun(s[..|s| - 1], cs);
    }
  }

  /** Neither end of `s` is a character of `cs`. */
  predicate StrippedOf(s: string, cs: CharSet) {
    s == [] || (!Drops(cs, s[0]) && !Drops(cs, s[|s| - 1]))
  }

  /**
   * `s.strip(chars)` with the characters given as a `CharSet`: the
   * longest leading and trailing runs of such characters are removed.
   */
  function StripWith(s: string, cs: CharSet): (r: string)
    ensures StrippedOf(r, cs)
    ensures |r| <= |s|
  {
    var left := s[LeadingCount(s, cs)..];
    LeadingRun(s, cs);
    TrailingRun(left, cs);
    left[..|left| - TrailingCount(left, cs)]
  }

  /** The stripped string is the piece of `s` that starts after the leading run. */
  lemma StripWithSlice(s: string, cs: CharSet)
    ensures var r, i := StripWith(s, cs), LeadingCount(s, cs);
            i + |r| <= |s| && r == s[i..i + |r|]
  {
    var i := LeadingCount(s, cs);
    var left := s[i..];
    var t := TrailingCount(left, cs);
    var r := StripWith(s, cs);
    assert r == left[..|left| - t];
    assert r == s[i..|s| - t];
  }

  /** Everything after the stripped piece is a character of `cs`. */
  lemma StripWithTail(s: string, cs: CharSet)
    ensures var r, i := StripWith(s, cs), LeadingCount(s, cs);
            i + |r| <= |s| && forall k :: i + |r| <= k < |s| ==> Drops(cs, s[k])
  {
    var i := LeadingCount(s, cs);
    var left := s[i..];
    var t := TrailingCount(left, cs);
    var r := StripWith(s, cs);
    assert r == left[..|left| - t];
    TrailingRun(left, cs);
    forall k | |s| - t <= k < |s|
      ensures Drops(cs, s[k])
    {
      assert s[k] == left[k - i];
    }
  }

  /**
   * Only the ends go: the stripped string is one contiguous piece of the
   * input, and everything before and after that piece is a character of `cs`.
   * With `StrippedOf` this pins the result down: the runs removed are the
   * longest ones.
   */
  lemma StripWithRemovesEnds(s: string, cs: CharSet)
    ensures var r, i := StripWith(s, cs), LeadingCount(s, cs);
            && i + |r| <= |s| && r == s[i..i + |r|]
            && (forall k :: 0 <= k < i ==> Drops(cs, s[k]))
            && (forall k :: i + |r| <= k < |s| ==> Drops(cs, s[k]))
  {
    StripWithSlice(s, cs);
    StripWithTail(s, cs);
    LeadingRun(s, cs);
  }

  /** A leading piece made only of dropped characters adds its length to the leading run. */
  lemma {:induction false} LeadingCountAppend(p: string, q: string, cs: CharSet)
    requires forall k :: 0 <= k < |p| ==> Drops(cs, p[k])
    ensures LeadingCount(p + q, cs) == |p| + LeadingCount(q, cs)
  {
    if p == [] {
      assert p + q == q;
    } else {
      assert (p + q)[0] == p[0];
      assert (p + q)[1..] == p[1..] + q;
      LeadingCountAppend(p[1..], q, cs);
    }
  }

  /** A trailing piece made only of dropped characters adds its length to the trailing run. */
  lemma {:induction false} TrailingCountAppend(p: string, q: string, cs: CharSet)
    requires forall k :: 0 <= k < |q| ==> Drops(cs, q[k])
    ensures TrailingCount(p + q, cs) == |q| + TrailingCount(p, cs)
  {
    if q == [] {
      assert p + q == p;
    } else {
      var n := |q| - 1;
      assert (p + q)[|p + q| - 1] == q[n];
      assert (p + q)[..|p + q| - 1] == p + q[..n];
      TrailingCountAppend(p, q[..n], cs);
    }
  }

  /**
   * The converse of `StripWithRemovesEnds`: a text whose ends are not in the
   * strip set, surrounded by pieces made only of such characters, is exactly
   * what the strip gives back.
   */
  lemma StripWithExact(p: string, m: string, q: string, cs: CharSet)
    requires forall k :: 0 <= k < |p| ==> Drops(cs, p[k])
    requires forall k :: 0 <= k < |q| ==> Drops(cs, q[k])
    requires m != [] && !Drops(cs, m[0]) && !Drops(cs, m[|m| - 1])
    ensures StripWith(p + m + q, cs) == m
  {
    var s := p + m + q;
    assert s == p + (m + q);
    LeadingCountAppend(p, m + q, cs);
    assert LeadingCount(m + q, cs) == 0 by {
      assert (m + q)[0] == m[0];
    }
    assert s[|p|..] == m + q;
    TrailingCountAppend(m, q, cs);
    assert TrailingCount(m, cs) == 0;
    assert (m + q)[..|m|] == m;
  }

  /** A text whose ends are not in the strip set is left as it is. */
  lemma StripWithUnchanged(m: string, cs: CharSet)
    requires m != [] && !Drops(cs, m[0]) && !Drops(cs, m[|m| - 1])
    ensures StripWith(m, cs) == m
  {
    StripWithExact([], m, [], cs);
    assert [] + m + [] == m;
  }

  /** `s.strip()`. */
  function Strip(s: string): string {
    StripWith(s, Whitespace)
  }

  /** Stripping twice is stripping once. */
  lemma StripIdempotent(s: string, cs: CharSet)
    ensures StripWith(StripWith(s, cs), cs) == StripWith(s, cs)
  {
  }

  /** `s.split(sep)`: never empty, and no piece contains the separator. */
  function Split(s: string, sep: char): (r: seq<string>)
    ensures |r| >= 1
    ensures forall i :: 0 <= i < |r| ==> sep !in r[i]
  {
    if s == [] then
      [[]]
    else
      var rest := Split(s[1..], sep);
      if s[0] == sep then [[]] + rest else [[s[0]] + rest[0]] + rest[1..]
  }

  /** `sep.join(parts)`. */
  function Join(parts: seq<string>, sep: char): string
    decreases |parts|
  {
    if parts == [] then []
    else if |parts| == 1 then parts[0]
    else parts[0] + [sep] + Join(parts[1..], sep)
  }

  /** Splitting loses nothing: joining the pieces gives the text back. */
  lemma {:induction false} JoinSplit(s: string, sep: char)
    ensures Join(Split(s, sep), sep) == s
  {
    if s != [] {
      var rest := Split(s[1..], sep);
      JoinSplit(s[1..], sep);
      if s[0] == sep {
        assert ([[]] + rest)[1..] == rest;
      } else {
        var r := [[s[0]] + rest[0]] + rest[1..];
        assert r[1..] == rest[1..];
        if |rest| > 1 {
          assert Join(rest, sep) == rest[0] + [sep] + Join(rest[1..], sep);
        }
      }
    }
  }
}
