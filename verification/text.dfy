/** String operations the converter relies on, over sequences of
    characters: suffix tests, substring search and containment (Python's
    `in`), whitespace stripping (`str.strip()`), and splitting on and
    joining with a separator character (`str.split`, `str.join`). */
module Text {
  import opened Wrappers

  /** The six C-locale whitespace characters: space, tab, line feed,
      carriage return, vertical tab and form feed. `str.strip()` removes
      these and more (see the README). */
  predicate IsWhitespace(c: char) {
    c == ' ' || c == '\t' || c == '\n' || c == '\r' || c == '\U{0B}' || c == '\U{0C}'
  }

  /** The characters the regular-expression class `\d` matches, restricted to ASCII. */
  predicate IsDigit(c: char) {
    '0' <= c <= '9'
  }

  predicate AllWhitespace(s: string) {
    forall k :: 0 <= k < |s| ==> IsWhitespace(s[k])
  }

  predicate AllDigits(s: string) {
    forall k :: 0 <= k < |s| ==> IsDigit(s[k])
  }

  /** `s.endswith(suffix)`. */
  predicate EndsWith(s: string, suffix: string) {
    |suffix| <= |s| && s[|s| - |suffix|..] == suffix
  }

  /** `p` occurs in `s` starting at index `i`. */
  predicate OccursAt(s: string, p: string, i: nat) {
    i + |p| <= |s| && s[i..i + |p|] == p
  }

  /** `p in s`: `p` occurs somewhere in `s`. */
  predicate Contains(s: string, p: string) {
    exists k: nat :: k <= |s| && OccursAt(s, p, k)
  }

  /** `s.find(p, from)`: the first index at or after `from` where `p` occurs. */
  function Find(s: string, p: string, from: nat): (r: Option<nat>)
    ensures r.Some? ==> from <= r.value && OccursAt(s, p, r.value)
    ensures r.Some? ==> forall k: nat :: from <= k < r.value ==> !OccursAt(s, p, k)
    ensures r.None? ==> forall k: nat :: from <= k ==> !OccursAt(s, p, k)
    decreases |s| - from
  {
    if |s| < from + |p| then None
    else if OccursAt(s, p, from) then Some(from)
    else Find(s, p, from + 1)
  }

  /** A one-character string occurs at `k` exactly when that character is at `k`. */
  lemma OccursAtChar(s: string, c: char, k: nat)
    ensures OccursAt(s, [c], k) <==> k < |s| && s[k] == c
  {
    if k < |s| {
      assert s[k..k + 1] == [s[k]];
    }
  }

  /** Searching a suffix of `s` is searching `s` itself, with the
      positions shifted by where the suffix begins. */
  lemma {:induction false} FindInSuffix(s: string, p: string, d: nat, from: nat)
    requires d <= |s|
    ensures Find(s[d..], p, from) == match Find(s, p, d + from) case None => None case Some(i) => Some(i - d)
    decreases |s| - d - from
  {
    if d + from + |p| <= |s| {
      assert s[d..][from..from + |p|] == s[d + from..d + from + |p|];
      if !OccursAt(s, p, d + from) {
        FindInSuffix(s, p, d, from + 1);
      }
    }
  }

  /** A pattern absent from `s` is absent from every suffix of `s`. */
  lemma AbsentFromSuffix(s: string, p: string, d: nat)
    requires d <= |s| && !Contains(s, p)
    ensures !Contains(s[d..], p)
  {
    forall k: nat | k <= |s[d..]|
      ensures !OccursAt(s[d..], p, k)
    {
      if k + |p| <= |s| - d {
        assert !OccursAt(s, p, d + k);
        assert s[d..][k..k + |p|] == s[d + k..d + k + |p|];
      }
    }
  }

  /** An occurrence in a prefix of `s` is an occurrence in `s`. */
  lemma OccursInPrefix(s: string, t: string, p: string, k: nat)
    requires OccursAt(s, p, k)
    ensures OccursAt(s + t, p, k)
  {
    assert (s + t)[k..k + |p|] == s[k..k + |p|];
  }

  // ---------------------------------------------------------------------
  // Stripping

  /** Length of the longest prefix of `s` whose characters satisfy `p`. */
  function LeadingCount(s: string, p: char -> bool): (n: nat)
    ensures n <= |s|
    ensures forall k :: 0 <= k < n ==> p(s[k])
    ensures n < |s| ==> !p(s[n])
  {
    if |s| == 0 || !p(s[0]) then 0 else 1 + LeadingCount(s[1..], p)
  }

  /** Length of the longest suffix of `s` whose characters satisfy `p`. */
  function TrailingCount(s: string, p: char -> bool): (n: nat)
    ensures n <= |s|
    ensures forall k :: |s| - n <= k < |s| ==> p(s[k])
    ensures n < |s| ==> !p(s[|s| - n - 1])
  {
    if |s| == 0 || !p(s[|s| - 1]) then 0 else 1 + TrailingCount(s[..|s| - 1], p)
  }

  /** Neither end of `s` is whitespace: what `str.strip()` returns. */
  predicate IsStripped(s: string) {
    |s| == 0 || (!IsWhitespace(s[0]) && !IsWhitespace(s[|s| - 1]))
  }

  /** `s.strip()`: `s` without its leading and trailing whitespace. */
  function Strip(s: string): (r: string)
    ensures IsStripped(r)
    ensures |r| <= |s|
  {
    var a := LeadingCount(s, IsWhitespace);
    var t := s[a..];
    t[..|t| - TrailingCount(t, IsWhitespace)]
  }

  /** What stripping removes is a whitespace-only prefix and suffix. */
  lemma StripIsTrim(s: string) returns (a: nat, b: nat)
    ensures a <= b <= |s| && Strip(s) == s[a..b]
    ensures AllWhitespace(s[..a]) && AllWhitespace(s[b..])
  {
    a := LeadingCount(s, IsWhitespace);
    var t := s[a..];
    b := a + |t| - TrailingCount(t, IsWhitespace);
    assert t[..|t| - TrailingCount(t, IsWhitespace)] == s[a..b];
    forall k | 0 <= k < |s| - b
      ensures IsWhitespace(s[b..][k])
    {
      assert s[b..][k] == t[b - a + k];
    }
  }

  /** Stripping has a unique answer: whichever whitespace-only prefix and
      suffix are cut from `s`, if what remains is stripped it is `Strip(s)`. */
  lemma StripUnique(s: string, a: nat, b: nat)
    requires a <= b <= |s|
    requires AllWhitespace(s[..a]) && AllWhitespace(s[b..])
    requires IsStripped(s[a..b])
    ensures Strip(s) == s[a..b]
  {
    var a' := LeadingCount(s, IsWhitespace);
    var t := s[a'..];
    var n := TrailingCount(t, IsWhitespace);
    var b' := a' + |t| - n;
    assert Strip(s) == s[a'..b'] by {
      assert t[..|t| - n] == s[a'..b'];
    }
    if a < b {
      assert s[a..b][0] == s[a] && s[a..b][|s[a..b]| - 1] == s[b - 1];
      assert forall k :: 0 <= k < a ==> s[..a][k] == s[k];
      assert a' == a;
      assert forall k :: b <= k < |s| ==> s[b..][k - b] == s[k];
      assert forall k :: 0 <= k < |t| ==> t[k] == s[a + k];
      assert b' == b;
    } else {
      forall k | 0 <= k < |s|
        ensures IsWhitespace(s[k])
      {
        if k < a {
          assert s[..a][k] == s[k];
        } else {
          assert s[b..][k - b] == s[k];
        }
      }
      assert a' == |s|;
    }
  }

  /** A stripped string is left alone by `str.strip()`. */
  lemma StripKeepsStripped(s: string)
    requires IsStripped(s)
    ensures Strip(s) == s
  {
    assert s[..0] == [] && s[|s|..] == [] && s[0..|s|] == s;
    StripUnique(s, 0, |s|);
  }

  /** Stripping only removes characters. */
  lemma StripKeepsAbsence(s: string, c: char)
    requires c !in s
    ensures c !in Strip(s)
  {
    var a, b := StripIsTrim(s);
    assert forall k :: 0 <= k < b - a ==> s[a..b][k] == s[a + k];
  }

  /** `str.strip()` is idempotent. */
  lemma StripIdempotent(s: string)
    ensures Strip(Strip(s)) == Strip(s)
  {
    StripKeepsStripped(Strip(s));
  }

  /** Stripping yields the empty string exactly when `s` is all whitespace. */
  lemma StripEmptyIff(s: string)
    ensures Strip(s) == [] <==> AllWhitespace(s)
  {
    var a, b := StripIsTrim(s);
    if Strip(s) == [] {
      forall k | 0 <= k < |s|
        ensures IsWhitespace(s[k])
      {
        if k < a {
          assert s[..a][k] == s[k];
        } else {
          assert s[b..][k - b] == s[k];
        }
      }
    }
    if Strip(s) != [] {
      assert Strip(s)[0] == s[a];
    }
  }

  /** The concatenation of stripped strings is stripped. */
  lemma StrippedConcat(a: string, b: string)
    requires IsStripped(a) && IsStripped(b)
    ensures IsStripped(a + b)
  {
    if |a| > 0 && |b| > 0 {
      assert (a + b)[0] == a[0] && (a + b)[|a + b| - 1] == b[|b| - 1];
    }
  }

  // ---------------------------------------------------------------------
  // Splitting and joining

  /** `sep.join(lines)`. */
  function Join(lines: seq<string>, sep: char): string
  {
    if |lines| == 0 then []
    else if |lines| == 1 then lines[0]
    else lines[0] + [sep] + Join(lines[1..], sep)
  }

  /** No occurrence of the one-character string `[c]` means `c` is absent. */
  lemma NoOccurrenceNoChar(s: string, c: char)
    requires forall k: nat :: !OccursAt(s, [c], k)
    ensures c !in s
  {
    if c in s {
      var k :| 0 <= k < |s| && s[k] == c;
      assert s[k..k + 1] == [c];
      assert OccursAt(s, [c], k);
    }
  }

  /** `s.split(sep)`: the pieces of `s` between occurrences of `sep`. */
  function Split(s: string, sep: char): (r: seq<string>)
    ensures |r| >= 1
    ensures forall k :: 0 <= k < |r| ==> sep !in r[k]
    ensures Join(r, sep) == s
    decreases |s|
  {
    match Find(s, [sep], 0)
    case None =>
      NoOccurrenceNoChar(s, sep);
      [s]
    case Some(i) =>
      var rest := Split(s[i + 1..], sep);
      var r := [s[..i]] + rest;
      assert sep !in s[..i] by {
        if sep in s[..i] {
          var k :| 0 <= k < i && s[..i][k] == sep;
          assert s[k..k + 1] == [sep];
          assert OccursAt(s, [sep], k);
        }
      }
      assert r[1..] == rest;
      assert s[i..i + 1] == [sep];
      assert s == s[..i] + [sep] + s[i + 1..];
      r
  }

  /** Joining the lines of a text and then splitting it gives the lines
      back, when no line contains the separator. */
  lemma {:induction false} SplitJoin(lines: seq<string>, sep: char)
    requires |lines| >= 1
    requires forall k :: 0 <= k < |lines| ==> sep !in lines[k]
    ensures Split(Join(lines, sep), sep) == lines
    decreases |lines|
  {
    var s := Join(lines, sep);
    if |lines| == 1 {
      forall k: nat | k < |s|
        ensures !OccursAt(s, [sep], k)
      {
        assert s[k..k + 1] == [s[k]];
      }
      assert Find(s, [sep], 0).None?;
    } else {
      var h := lines[0];
      var tail := Join(lines[1..], sep);
      assert s == h + [sep] + tail;
      assert OccursAt(s, [sep], |h|) by {
        assert s[|h|..|h| + 1] == [sep];
      }
      match Find(s, [sep], 0)
      case None =>
        assert false;
      case Some(i) =>
        forall k: nat | k < |h|
          ensures !OccursAt(s, [sep], k)
        {
          assert s[k..k + 1] == [h[k]];
        }
        assert i == |h|;
        assert s[i + 1..] == tail;
        assert s[..i] == h;
        SplitJoin(lines[1..], sep);
        assert Split(s, sep) == [h] + lines[1..];
    }
  }

  /** Joining a non-empty list of lines with a final line appends
      the separator and that line. */
  lemma {:induction false} JoinSnoc(lines: seq<string>, last: string, sep: char)
    requires |lines| >= 1
    ensures Join(lines + [last], sep) == Join(lines, sep) + [sep] + last
    decreases |lines|
  {
    if |lines| == 1 {
      assert (lines + [last])[1..] == [last];
    } else {
      assert (lines + [last])[1..] == lines[1..] + [last];
      JoinSnoc(lines[1..], last, sep);
    }
  }
}
