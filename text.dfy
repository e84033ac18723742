/** Optional and fallible values shared by the three matchers. */
module Wrappers {
  datatype Option<T> = None | Some(value: T)

  datatype Result<T, E> = Ok(value: T) | Err(error: E)
}

/**
  The few Python `str` operations the audit scripts rely on, over strings as
  sequences of Unicode scalar values: `isspace`/`strip`, `startswith`, the
  search behind `split(sep)`, and `splitlines`.
 */
module Text {
  import opened Wrappers

  /** Python's `str.isspace` for one character. */
  predicate IsSpace(c: char) {
    || ('\t' <= c <= '\r')
    || ('\U{1C}' <= c <= '\U{1F}')
    || c == ' ' || c == '\U{85}' || c == '\U{A0}' || c == '\U{1680}'
    || ('\U{2000}' <= c <= '\U{200A}')
    || c == '\U{2028}' || c == '\U{2029}' || c == '\U{202F}' || c == '\U{205F}' || c == '\U{3000}'
  }

  predicate AllSpace(s: string) {
    forall k :: 0 <= k < |s| ==> IsSpace(s[k])
  }

  /** True when `s` neither begins nor ends with whitespace. */
  predicate Stripped(s: string) {
    s != [] ==> !IsSpace(s[0]) && !IsSpace(s[|s| - 1])
  }

  /** `s.lstrip()`: drops the leading whitespace and keeps the rest as it is. */
  function TrimStart(s: string): (r: string)
    ensures |r| <= |s|
    ensures r != [] ==> !IsSpace(r[0])
  {
    if s != [] && IsSpace(s[0]) then TrimStart(s[1..]) else s
  }

  /** `s.rstrip()`: drops the trailing whitespace and keeps the rest as it is. */
  function TrimEnd(s: string): (r: string)
    ensures |r| <= |s|
    ensures r != [] ==> !IsSpace(r[|r| - 1])
  {
    if s != [] && IsSpace(s[|s| - 1]) then TrimEnd(s[..|s| - 1]) else s
  }

  /** What `lstrip` removes is whitespace, and what it keeps is the rest of `s`. */
  lemma {:induction false} TrimStartSuffix(s: string)
    ensures TrimStart(s) == s[|s| - |TrimStart(s)|..]
    ensures AllSpace(s[..|s| - |TrimStart(s)|])
  {
    if s != [] && IsSpace(s[0]) {
      TrimStartSuffix(s[1..]);
      var n := |s| - |TrimStart(s)|;
      assert s[..n] == [s[0]] + s[1..][..n - 1];
    }
  }

  /** What `rstrip` removes is whitespace, and what it keeps is the start of `s`. */
  lemma {:induction false} TrimEndPrefix(s: string)
    ensures TrimEnd(s) == s[..|TrimEnd(s)|]
    ensures AllSpace(s[|TrimEnd(s)|..])
  {
    if s != [] && IsSpace(s[|s| - 1]) {
      var s' := s[..|s| - 1];
      TrimEndPrefix(s');
      var n := |TrimEnd(s)|;
      assert s[n..] == s'[n..] + [s[|s| - 1]];
    }
  }

  /** `s.strip()` with no argument. */
  function Strip(s: string): (r: string)
    ensures Stripped(r)
    ensures |r| <= |s|
  {
    var t := TrimStart(s);
    TrimEndPrefix(t);
    TrimEnd(t)
  }

  /** What `strip` keeps is a piece of `s`. */
  lemma StripSlice(s: string)
    ensures |s| - |TrimStart(s)| + |Strip(s)| <= |s|
    ensures Strip(s) == s[|s| - |TrimStart(s)|..|s| - |TrimStart(s)| + |Strip(s)|]
  {
    var t := TrimStart(s);
    TrimStartSuffix(s);
    TrimEndPrefix(t);
  }

  lemma {:induction false} TrimStartAllSpace(s: string)
    requires AllSpace(s)
    ensures TrimStart(s) == []
  {
    if s != [] {
      TrimStartAllSpace(s[1..]);
    }
  }

  /** Stripping removes exactly the whitespace padding around a stripped core. */
  lemma StripPadded(p: string, t: string, q: string)
    requires AllSpace(p) && AllSpace(q) && Stripped(t)
    ensures Strip(p + t + q) == t
  {
    assert p + t + q == p + (t + q);
    if t == [] {
      assert t + q == q;
      TrimStartAllSpace(p + q);
    } else {
      TrimStartPadded(p, t + q);
      TrimEndPadded(t, q);
    }
  }

  lemma {:induction false} TrimStartPadded(p: string, u: string)
    requires AllSpace(p) && (u != [] ==> !IsSpace(u[0]))
    ensures TrimStart(p + u) == u
  {
    if p == [] {
      assert p + u == u;
    } else {
      assert (p + u)[1..] == p[1..] + u;
      TrimStartPadded(p[1..], u);
    }
  }

  lemma {:induction false} TrimEndPadded(t: string, q: string)
    requires AllSpace(q) && (t != [] ==> !IsSpace(t[|t| - 1]))
    ensures TrimEnd(t + q) == t
  {
    if q == [] {
      assert t + q == t;
    } else {
      assert (t + q)[..|t + q| - 1] == t + q[..|q| - 1];
      TrimEndPadded(t, q[..|q| - 1]);
    }
  }

  /** `Strip` is idempotent. */
  lemma StripIdempotent(s: string)
    ensures Strip(Strip(s)) == Strip(s)
  {
    var t := Strip(s);
    assert [] + t + [] == t;
    StripPadded([], t, []);
  }

  /** `s.startswith(p)`. */
  predicate StartsWith(s: string, p: string) {
    |p| <= |s| && s[..|p|] == p
  }

  /** `sep` occurs in `s` at index `k`. */
  predicate OccursAt(s: string, sep: string, k: nat) {
    k + |sep| <= |s| && s[k..k + |sep|] == sep
  }

  /** The first index at or after `from` where `sep` occurs, as `str.find` with a start. */
  function FindFrom(s: string, sep: string, from: nat): (r: Option<nat>)
    decreases |s| - from
    ensures r.Some? ==> from <= r.value && r.value + |sep| <= |s|
  {
    if |s| < from + |sep| then None
    else if OccursAt(s, sep, from) then Some(from)
    else FindFrom(s, sep, from + 1)
  }

  /** `FindFrom` gives the first occurrence at or after `from`, and `None` only when there is none. */
  lemma {:induction false} FindFromFirst(s: string, sep: string, from: nat)
    ensures FindFrom(s, sep, from).Some? ==> OccursAt(s, sep, FindFrom(s, sep, from).value)
    ensures FindFrom(s, sep, from).Some? ==>
      forall k :: from <= k < FindFrom(s, sep, from).value ==> !OccursAt(s, sep, k)
    ensures FindFrom(s, sep, from).None? ==> forall k :: from <= k ==> !OccursAt(s, sep, k)
    decreases |s| - from
  {
    if |s| >= from + |sep| && !OccursAt(s, sep, from) {
      FindFromFirst(s, sep, from + 1);
    }
  }

  /**
    `s.split(sep)[1]` for an `s` that starts with `sep`: the text after the
    leading `sep` up to the next non-overlapping occurrence of `sep`, or to
    the end when there is none.
   */
  function SecondField(s: string, sep: string): (r: string)
    requires sep != [] && StartsWith(s, sep)
    ensures |sep| + |r| <= |s|
  {
    match FindFrom(s, sep, |sep|)
    case None => s[|sep|..]
    case Some(j) => s[|sep|..j]
  }

  /** The field ends at the first occurrence of `sep` after the leading one, or at the end of `s`. */
  lemma SecondFieldUpTo(s: string, sep: string, j: nat)
    requires sep != [] && StartsWith(s, sep) && |sep| <= j <= |s|
    requires j == |s| || OccursAt(s, sep, j)
    requires forall k :: |sep| <= k < j ==> !OccursAt(s, sep, k)
    ensures SecondField(s, sep) == s[|sep|..j]
  {
    FindFromFirst(s, sep, |sep|);
  }

  /** The characters at which Python's `str.splitlines` ends a line. */
  predicate IsLineBreak(c: char) {
    || c == '\n' || c == '\r' || c == '\U{0B}' || c == '\U{0C}'
    || c == '\U{1C}' || c == '\U{1D}' || c == '\U{1E}' || c == '\U{85}'
    || c == '\U{2028}' || c == '\U{2029}'
  }

  predicate NoBreaks(s: string) {
    forall k :: 0 <= k < |s| ==> !IsLineBreak(s[k])
  }

  lemma SliceNoBreaks(s: string, i: nat, j: nat)
    requires i <= j <= |s| && NoBreaks(s)
    ensures NoBreaks(s[i..j])
  {
    forall k | 0 <= k < j - i ensures !IsLineBreak(s[i..j][k]) {
      assert s[i..j][k] == s[i + k];
    }
  }

  /** Stripping a line keeps it free of line breaks. */
  lemma StripNoBreaks(s: string)
    requires NoBreaks(s)
    ensures NoBreaks(Strip(s))
  {
    StripSlice(s);
    SliceNoBreaks(s, |s| - |TrimStart(s)|, |s| - |TrimStart(s)| + |Strip(s)|);
  }

  /** The field after a separator is a piece of the line, so it has no line breaks either. */
  lemma SecondFieldNoBreaks(s: string, sep: string)
    requires sep != [] && StartsWith(s, sep) && NoBreaks(s)
    ensures NoBreaks(SecondField(s, sep))
  {
    var r := SecondField(s, sep);
    SliceNoBreaks(s, |sep|, |sep| + |r|);
  }

  /** Index of the first line break at or after `from`. */
  function FirstBreak(s: string, from: nat): (r: Option<nat>)
    decreases |s| - from
    ensures r.Some? ==> from <= r.value < |s|
  {
    if |s| <= from then None
    else if IsLineBreak(s[from]) then Some(from)
    else FirstBreak(s, from + 1)
  }

  /** `FirstBreak` finds the first line break, and `None` only when there is none. */
  lemma {:induction false} FirstBreakFirst(s: string, from: nat)
    ensures FirstBreak(s, from).Some? ==> IsLineBreak(s[FirstBreak(s, from).value])
    ensures FirstBreak(s, from).Some? ==>
      forall k :: from <= k < FirstBreak(s, from).value ==> !IsLineBreak(s[k])
    ensures FirstBreak(s, from).None? ==> forall k :: from <= k < |s| ==> !IsLineBreak(s[k])
    decreases |s| - from
  {
    if from < |s| && !IsLineBreak(s[from]) {
      FirstBreakFirst(s, from + 1);
    }
  }

  /**
    `s.splitlines()`: the lines of `s` without their terminators; "\r\n"
    ends one line, a final terminator does not start an empty line.
   */
  function SplitLines(s: string): (lines: seq<string>)
    decreases |s|
  {
    if s == [] then []
    else match FirstBreak(s, 0)
      case None => [s]
      case Some(i) =>
        var next := if s[i] == '\r' && i + 1 < |s| && s[i + 1] == '\n' then i + 2 else i + 1;
        [s[..i]] + SplitLines(s[next..])
  }

  /** No line that `splitlines` gives contains a line break. */
  lemma {:induction false} SplitLinesNoBreaks(s: string)
    ensures forall i :: 0 <= i < |SplitLines(s)| ==> NoBreaks(SplitLines(s)[i])
    decreases |s|
  {
    if s != [] {
      FirstBreakFirst(s, 0);
      match FirstBreak(s, 0)
      case None =>
      case Some(i) =>
        var next := if s[i] == '\r' && i + 1 < |s| && s[i + 1] == '\n' then i + 2 else i + 1;
        SplitLinesNoBreaks(s[next..]);
        assert NoBreaks(s[..i]) by {
          forall k | 0 <= k < i ensures !IsLineBreak(s[..i][k]) {
            assert s[..i][k] == s[k];
          }
        }
    }
  }

  /** A line written with a "\n" terminator comes back as that line, followed by the rest. */
  lemma SplitLinesCons(a: string, b: string)
    requires NoBreaks(a)
    ensures SplitLines(a + "\n" + b) == [a] + SplitLines(b)
  {
    var s := a + "\n" + b;
    assert s[|a|] == '\n';
    assert forall k :: 0 <= k < |a| ==> s[k] == a[k];
    FirstBreakFirst(s, 0);
    assert FirstBreak(s, 0) == Some(|a|);
    assert s[..|a|] == a;
    assert s[|a| + 1..] == b;
  }
}
