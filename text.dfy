/**
  The few Python string operations the ingest pipeline and the synthetic data
  loader rely on, with the meaning Python gives them: `str.isspace`,
  `str.strip()`, `str.split(sep)`, `str.endswith`,
  `str(n)` for a non-negative integer, and the code-point order `sorted` uses.
 */
module Text {

  /** Python's `str.isspace` for one character (the Unicode White_Space
      characters plus the information separators U+001C..U+001F). */
  predicate IsSpace(c: char) {
    || c == ' '
    || ('\t' <= c <= '\r')
    || ('\U{1C}' <= c <= '\U{1F}')
    || c == '\U{85}' || c == '\U{A0}' || c == '\U{1680}'
    || ('\U{2000}' <= c <= '\U{200A}')
    || c == '\U{2028}' || c == '\U{2029}' || c == '\U{202F}' || c == '\U{205F}' || c == '\U{3000}'
  }

  /** A string with no white space at either end: what `strip()` returns. */
  predicate IsStripped(s: string) {
    s == [] || (!IsSpace(s[0]) && !IsSpace(s[|s| - 1]))
  }

  /** `s.lstrip()`: drop white space from the front. */
  function StripStart(s: string): string {
    if s != [] && IsSpace(s[0]) then StripStart(s[1..]) else s
  }

  /** `s.rstrip()`: drop white space from the back. */
  function StripEnd(s: string): string {
    if s != [] && IsSpace(s[|s| - 1]) then StripEnd(s[..|s| - 1]) else s
  }

  /** `lstrip()` returns the longest suffix that does not start with white
      space. */
  lemma {:induction false} StripStartSuffix(s: string)
    ensures var r := StripStart(s);
      && |r| <= |s| && r == s[|s| - |r|..]
      && (r != [] ==> !IsSpace(r[0]))
      && (forall i :: 0 <= i < |s| - |r| ==> IsSpace(s[i]))
  {
    if s != [] && IsSpace(s[0]) {
      var t := s[1..];
      StripStartSuffix(t);
      var r := StripStart(t);
      assert StripStart(s) == r;
      assert t[|t| - |r|..] == s[|s| - |r|..];
      forall i | 0 <= i < |s| - |r|
        ensures IsSpace(s[i])
      {
        if i > 0 {
          assert s[i] == t[i - 1];
        }
      }
    }
  }

  /** `rstrip()` returns the longest prefix that does not end with white
      space. */
  lemma {:induction false} StripEndPrefix(s: string)
    ensures var r := StripEnd(s);
      && |r| <= |s| && r == s[..|r|]
      && (r != [] ==> !IsSpace(r[|r| - 1]))
      && (forall i :: |r| <= i < |s| ==> IsSpace(s[i]))
  {
    if s != [] && IsSpace(s[|s| - 1]) {
      var t := s[..|s| - 1];
      StripEndPrefix(t);
      var r := StripEnd(t);
      assert StripEnd(s) == r;
      assert t[..|r|] == s[..|r|];
      forall i | |r| <= i < |s|
        ensures IsSpace(s[i])
      {
        if i < |t| {
          assert s[i] == t[i];
        }
      }
    }
  }

  /** `s.strip()`. */
  function Strip(s: string): string {
    StripEnd(StripStart(s))
  }

  /** `strip()` returns a contiguous slice `s[i..j]` of its argument, removes
      only white space, and leaves no white space at either end. */
  lemma StripIsTrimmedSlice(s: string) returns (i: nat, j: nat)
    ensures i <= j <= |s| && Strip(s) == s[i..j]
    ensures forall k :: 0 <= k < i ==> IsSpace(s[k])
    ensures forall k :: j <= k < |s| ==> IsSpace(s[k])
    ensures IsStripped(Strip(s))
  {
    var t := StripStart(s);
    StripStartSuffix(s);
    var u := StripEnd(t);
    StripEndPrefix(t);
    i := |s| - |t|;
    j := i + |u|;
    assert t == s[i..];
    assert u == t[..|u|];
    forall k | j <= k < |s|
      ensures IsSpace(s[k])
    {
      assert s[k] == t[k - i];
    }
    if u != [] {
      assert u[0] == t[0];
    }
  }

  /** A stripped string is left alone by `strip()`: stripping is idempotent. */
  lemma StripFixesStripped(s: string)
    requires IsStripped(s)
    ensures Strip(s) == s
  {
    assert StripStart(s) == s;
  }

  lemma StripIdempotent(s: string)
    ensures Strip(Strip(s)) == Strip(s)
  {
    var _, _ := StripIsTrimmedSlice(s);
    StripFixesStripped(Strip(s));
  }

  /** `s.endswith(suffix)`. */
  predicate EndsWith(s: string, suffix: string) {
    |suffix| <= |s| && s[|s| - |suffix|..] == suffix
  }

  /** `s.split(sep)` for a non-empty separator: cut at every occurrence of
      `sep`, scanning left to right; the pieces keep everything else. */
  function Split(s: string, sep: string): seq<string>
    requires sep != []
  {
    SplitAfter(s, sep, "")
  }

  /** The pieces of `cur + s` when `cur` is known to hold no separator
      start: `cur` is the piece being built. */
  function SplitAfter(s: string, sep: string, cur: string): seq<string>
    requires sep != []
    decreases |s|
  {
    if |s| < |sep| then [cur + s]
    else if s[..|sep|] == sep then [cur] + SplitAfter(s[|sep|..], sep, "")
    else SplitAfter(s[1..], sep, cur + [s[0]])
  }

  /** `sep.join(pieces)`. */
  function Join(pieces: seq<string>, sep: string): string
    requires |pieces| >= 1
  {
    if |pieces| == 1 then pieces[0] else pieces[0] + sep + Join(pieces[1..], sep)
  }

  /** Splitting loses nothing: joining the pieces with the separator gives
      the original string back. */
  lemma {:induction false} JoinSplitAfter(s: string, sep: string, cur: string)
    requires sep != []
    ensures |SplitAfter(s, sep, cur)| >= 1
    ensures Join(SplitAfter(s, sep, cur), sep) == cur + s
    decreases |s|
  {
    if |s| < |sep| {
    } else if s[..|sep|] == sep {
      var rest := SplitAfter(s[|sep|..], sep, "");
      JoinSplitAfter(s[|sep|..], sep, "");
      var r := [cur] + rest;
      assert r[1..] == rest;
      assert Join(r, sep) == cur + sep + Join(rest, sep);
      assert s == sep + s[|sep|..];
    } else {
      JoinSplitAfter(s[1..], sep, cur + [s[0]]);
      assert s == [s[0]] + s[1..];
    }
  }

  /** `sep` occurs in `t` starting at position `i`. */
  predicate OccursAt(t: string, sep: string, i: nat) {
    i + |sep| <= |t| && t[i..i + |sep|] == sep
  }

  /** Splitting cuts at every occurrence: when no occurrence of `sep` starts
      inside the pending piece `cur`, no piece holds `sep` anywhere. */
  lemma {:induction false} SplitAfterPiecesClean(s: string, sep: string, cur: string)
    requires sep != []
    requires forall i :: 0 <= i < |cur| ==> !OccursAt(cur + s, sep, i)
    ensures forall k, i :: 0 <= k < |SplitAfter(s, sep, cur)| ==> !OccursAt(SplitAfter(s, sep, cur)[k], sep, i)
    decreases |s|
  {
    var r := SplitAfter(s, sep, cur);
    if |s| < |sep| {
      forall i: nat ensures !OccursAt(cur + s, sep, i) {
        if i < |cur| {
        } else {
          assert i + |sep| > |cur + s|;
        }
      }
    } else if s[..|sep|] == sep {
      SplitAfterPiecesClean(s[|sep|..], sep, "");
      forall i: nat ensures !OccursAt(cur, sep, i) {
        if i + |sep| <= |cur| {
          assert !OccursAt(cur + s, sep, i);
          assert (cur + s)[i..i + |sep|] == cur[i..i + |sep|];
        }
      }
      assert r == [cur] + SplitAfter(s[|sep|..], sep, "");
    } else {
      var next := cur + [s[0]];
      assert next + s[1..] == cur + s;
      forall i | 0 <= i < |next| ensures !OccursAt(next + s[1..], sep, i) {
        if i == |cur| {
          assert (cur + s)[i..i + |sep|] == s[..|sep|];
        }
      }
      SplitAfterPiecesClean(s[1..], sep, next);
    }
  }

  /** `split` is undone by `join`, and it leaves no separator inside any
      piece. */
  lemma JoinSplit(s: string, sep: string)
    requires sep != []
    ensures |Split(s, sep)| >= 1 && Join(Split(s, sep), sep) == s
    ensures forall k, i :: 0 <= k < |Split(s, sep)| ==> !OccursAt(Split(s, sep)[k], sep, i)
  {
    JoinSplitAfter(s, sep, "");
    SplitAfterPiecesClean(s, sep, "");
  }

  predicate IsDigit(c: char) {
    '0' <= c <= '9'
  }

  function DigitChar(d: nat): (c: char)
    requires d < 10
    ensures IsDigit(c)
  {
    ['0', '1', '2', '3', '4', '5', '6', '7', '8', '9'][d]
  }

  function DigitValue(c: char): (d: nat)
    requires IsDigit(c)
    ensures d < 10
  {
    (c as int - '0' as int) as nat
  }

  /** `str(n)` for a non-negative integer: its decimal digits, most
      significant first, with no leading zero. */
  function Decimal(n: nat): (r: string)
    ensures |r| >= 1
    ensures forall i :: 0 <= i < |r| ==> IsDigit(r[i])
    ensures |r| > 1 ==> r[0] != '0'
  {
    if n < 10 then [DigitChar(n)] else Decimal(n / 10) + [DigitChar(n % 10)]
  }

  /** The value a string of decimal digits denotes (what `int(s)` gives). */
  function DecimalValue(s: string): nat
    requires forall i :: 0 <= i < |s| ==> IsDigit(s[i])
  {
    if s == [] then 0 else DecimalValue(s[..|s| - 1]) * 10 + DigitValue(s[|s| - 1])
  }

  lemma DigitRoundTrip(d: nat)
    requires d < 10
    ensures DigitValue(DigitChar(d)) == d
  {
  }

  /** `int(str(n)) == n`. */
  lemma {:induction false} DecimalRoundTrip(n: nat)
    ensures DecimalValue(Decimal(n)) == n
  {
    DigitRoundTrip(n % 10);
    if n >= 10 {
      DecimalRoundTrip(n / 10);
      var r := Decimal(n);
      assert r[..|r| - 1] == Decimal(n / 10);
    }
  }

  /** String order as Python compares strings: code point by code point, a
      proper prefix first. `Below(a, b)` is `a <= b`. */
  predicate Below(a: string, b: string)
    decreases |a|
  {
    a == [] || (b != [] && (a[0] < b[0] || (a[0] == b[0] && Below(a[1..], b[1..]))))
  }

  /** `Below` is a total order. */
  lemma {:induction false} BelowTotal(a: string, b: string)
    ensures Below(a, b) || Below(b, a)
    decreases |a|
  {
    if a != [] && b != [] && a[0] == b[0] {
      BelowTotal(a[1..], b[1..]);
    }
  }

  lemma {:induction false} BelowAntisymmetric(a: string, b: string)
    requires Below(a, b) && Below(b, a)
    ensures a == b
    decreases |a|
  {
    if a != [] {
      BelowAntisymmetric(a[1..], b[1..]);
      assert a == [a[0]] + a[1..] && b == [b[0]] + b[1..];
    }
  }

  lemma {:induction false} BelowTransitive(a: string, b: string, c: string)
    requires Below(a, b) && Below(b, c)
    ensures Below(a, c)
    decreases |a|
  {
    if a != [] && a[0] == b[0] && b[0] == c[0] {
      BelowTransitive(a[1..], b[1..], c[1..]);
    }
  }
}
