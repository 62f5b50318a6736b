/**
 * The parts of Python's `str` behaviour the handlers rely on: `strip()`, `split(sep)`,
 * `lower()`, `isdigit()`, `int()`, the substring test `t in s`, slicing with negative
 * indices, and SQLite's `LIKE '%q%'`.
 */
module Strings {
  import opened Wrappers

  // ---------------------------------------------------------------- whitespace

  /**
   * The characters `str.isspace()` accepts and `str.strip()` and `int()` remove: the ASCII
   * controls 9-13 and 28-31, the space, NEL, the no-break space and the other Unicode spaces
   * and line and paragraph separators.
   */
  predicate IsSpace(c: char)
  {
    || '\U{0009}' <= c <= '\U{000D}'
    || '\U{001C}' <= c <= '\U{0020}'
    || c == '\U{0085}' || c == '\U{00A0}' || c == '\U{1680}'
    || '\U{2000}' <= c <= '\U{200A}'
    || c == '\U{2028}' || c == '\U{2029}' || c == '\U{202F}' || c == '\U{205F}' || c == '\U{3000}'
  }

  /** Neither end of `s` is whitespace. */
  predicate Unpadded(s: string)
  {
    s == [] || (!IsSpace(s[0]) && !IsSpace(s[|s| - 1]))
  }

  /** The first index at or after `i` that is not whitespace (or `|s|`). */
  function SkipSpaces(s: string, i: nat): (k: nat)
    requires i <= |s|
    ensures i <= k <= |s|
    ensures forall m :: i <= m < k ==> IsSpace(s[m])
    ensures k == |s| || !IsSpace(s[k])
    decreases |s| - i
  {
    if i < |s| && IsSpace(s[i]) then SkipSpaces(s, i + 1) else i
  }

  /** The end of `s[lo..j]` once its trailing whitespace is dropped. */
  function SkipSpacesBack(s: string, lo: nat, j: nat): (k: nat)
    requires lo <= j <= |s|
    ensures lo <= k <= j
    ensures forall m :: k <= m < j ==> IsSpace(s[m])
    ensures k == lo || !IsSpace(s[k - 1])
  {
    if lo < j && IsSpace(s[j - 1]) then SkipSpacesBack(s, lo, j - 1) else j
  }

  /** Where the stripped text starts inside `s`. */
  function StripStart(s: string): (k: nat)
    ensures k <= |s|
  {
    SkipSpaces(s, 0)
  }

  /** Where the stripped text ends inside `s`. */
  function StripEnd(s: string): (k: nat)
    ensures StripStart(s) <= k <= |s|
  {
    SkipSpacesBack(s, StripStart(s), |s|)
  }

  /**
   * `s.strip()`: a slice of `s` that neither starts nor ends with whitespace, obtained by
   * removing whitespace only.
   */
  function Strip(s: string): (r: string)
    ensures Unpadded(r)
    ensures StripStart(s) + |r| <= |s| && r == s[StripStart(s)..StripStart(s) + |r|]
    ensures forall i :: 0 <= i < StripStart(s) ==> IsSpace(s[i])
    ensures forall i :: StripStart(s) + |r| <= i < |s| ==> IsSpace(s[i])
  {
    s[StripStart(s)..StripEnd(s)]
  }

  /** A character that is not whitespace survives stripping. */
  lemma StripKeepsNonSpace(s: string, i: int)
    requires 0 <= i < |s| && !IsSpace(s[i])
    ensures StripStart(s) <= i < StripStart(s) + |Strip(s)|
  {
  }

  /** Stripping text that has no whitespace at either end leaves it as it is. */
  lemma StripUnpadded(s: string)
    requires Unpadded(s)
    ensures Strip(s) == s
  {
  }

  /** `strip()` is idempotent. */
  lemma StripIdempotent(s: string)
    ensures Strip(Strip(s)) == Strip(s)
  {
    StripUnpadded(Strip(s));
  }

  /**
   * `strip()` is determined by its result: any cut of `s` into whitespace, an unpadded middle
   * and whitespace has that middle as `s.strip()`.
   */
  lemma StripUnique(s: string, a: int, b: int)
    requires 0 <= a <= b <= |s|
    requires forall i :: 0 <= i < a ==> IsSpace(s[i])
    requires forall i :: b <= i < |s| ==> IsSpace(s[i])
    requires Unpadded(s[a..b])
    ensures Strip(s) == s[a..b]
  {
    var r := Strip(s);
    var lo := StripStart(s);
    var hi := lo + |r|;
    if a < b {
      assert s[a] == s[a..b][0] && s[b - 1] == s[a..b][b - a - 1];
      assert r != [];
      assert s[lo] == r[0] && s[hi - 1] == r[|r| - 1];
      assert lo == a;
      assert hi == b;
    }
  }

  /** Whitespace in front of `s[a..]` does not change the strip. */
  lemma StripDropFront(s: string, a: int)
    requires 0 <= a <= |s|
    requires forall i :: 0 <= i < a ==> IsSpace(s[i])
    ensures Strip(s[a..]) == Strip(s)
  {
    var r := Strip(s);
    var lo := StripStart(s);
    var t := s[a..];
    if r == [] {
      StripUnique(t, 0, 0);
      assert Strip(t) == [];
    } else {
      assert s[lo] == r[0];
      assert a <= lo;
      assert t[lo - a..lo - a + |r|] == r;
      StripUnique(t, lo - a, lo - a + |r|);
    }
  }

  /** Whitespace after `s[..e]` does not change the strip. */
  lemma StripDropBack(s: string, e: int)
    requires 0 <= e <= |s|
    requires forall i :: e <= i < |s| ==> IsSpace(s[i])
    ensures Strip(s[..e]) == Strip(s)
  {
    var r := Strip(s);
    var lo := StripStart(s);
    var t := s[..e];
    if r == [] {
      StripUnique(t, 0, 0);
      assert Strip(t) == [];
    } else {
      assert s[lo + |r| - 1] == r[|r| - 1];
      assert lo + |r| <= e;
      assert t[lo..lo + |r|] == r;
      StripUnique(t, lo, lo + |r|);
    }
  }

  // ---------------------------------------------------------------- substrings

  /** `t` occurs in `s` starting at index `i`. */
  predicate OccursAt(s: string, t: string, i: int)
  {
    0 <= i && i + |t| <= |s| && s[i..i + |t|] == t
  }

  /** `s` starts with `t`. */
  predicate StartsWith(s: string, t: string)
  {
    |t| <= |s| && s[..|t|] == t
  }

  /** Python's `t in s` on strings. */
  function Contains(s: string, t: string): (r: bool)
    ensures r <==> exists i :: OccursAt(s, t, i)
    decreases |s|
  {
    if StartsWith(s, t) then
      assert OccursAt(s, t, 0);
      true
    else if s == [] then
      assert forall i :: !OccursAt(s, t, i);
      false
    else
      var r := Contains(s[1..], t);
      assert r ==> exists i :: OccursAt(s, t, i) by {
        if r {
          var i :| OccursAt(s[1..], t, i);
          assert s[i + 1..i + 1 + |t|] == s[1..][i..i + |t|];
          assert OccursAt(s, t, i + 1);
        }
      }
      assert (exists i :: OccursAt(s, t, i)) ==> r by {
        if exists i :: OccursAt(s, t, i) {
          var i :| OccursAt(s, t, i);
          assert i != 0;
          assert s[1..][i - 1..i - 1 + |t|] == s[i..i + |t|];
          assert OccursAt(s[1..], t, i - 1);
        }
      }
      r
  }

  /** A character occurs in a string exactly when the one-character string does. */
  lemma ContainsChar(s: string, c: char)
    ensures Contains(s, [c]) <==> c in s
  {
    if c in s {
      var i :| 0 <= i < |s| && s[i] == c;
      assert OccursAt(s, [c], i);
    }
    if Contains(s, [c]) {
      var i :| OccursAt(s, [c], i);
      assert s[i] == s[i..i + 1][0];
    }
  }

  // ---------------------------------------------------------------- case

  /** `str.lower()` on one character: ASCII and the Russian alphabet (with Ё). */
  function LowerChar(c: char): char
  {
    if 'A' <= c <= 'Z' then (c as int + 32) as char
    else if '\U{0410}' <= c <= '\U{042F}' then (c as int + 32) as char
    else if c == '\U{0401}' then '\U{0451}'
    else c
  }

  function Lower(s: string): string
  {
    seq(|s|, i requires 0 <= i < |s| => LowerChar(s[i]))
  }

  /** SQLite's case folding for `LIKE`: ASCII letters only. */
  function AsciiLower(s: string): string
  {
    seq(|s|, i requires 0 <= i < |s| => if 'A' <= s[i] <= 'Z' then (s[i] as int + 32) as char else s[i])
  }

  /**
   * `column LIKE '%q%'` in SQLite: `q` occurs in the column, ignoring the case of ASCII
   * letters (the wildcards `%` and `_` inside `q` are not given their special meaning here).
   */
  predicate LikeContains(column: string, q: string)
  {
    Contains(AsciiLower(column), AsciiLower(q))
  }

  // ---------------------------------------------------------------- split and join

  /** `sep.join(parts)`. */
  function Join(parts: seq<string>, sep: char): string
  {
    if |parts| == 0 then []
    else if |parts| == 1 then parts[0]
    else parts[0] + [sep] + Join(parts[1..], sep)
  }

  /** Joining pieces of which at least two are given: the last one follows the final separator. */
  lemma {:induction false} JoinSnoc(parts: seq<string>, sep: char)
    requires |parts| >= 2
    ensures Join(parts, sep) == Join(parts[..|parts| - 1], sep) + [sep] + parts[|parts| - 1]
    decreases |parts|
  {
    var n := |parts|;
    if n > 2 {
      JoinSnoc(parts[1..], sep);
      assert parts[1..][..n - 2] == parts[..n - 1][1..];
      assert parts[1..][n - 2] == parts[n - 1];
    } else {
      assert parts[..1] == [parts[0]] && parts[1..] == [parts[1]];
    }
  }

  /** Cutting `a` characters off the joined text cuts them off the first piece. */
  lemma JoinDropFront(parts: seq<string>, sep: char, a: int)
    requires |parts| >= 1 && 0 <= a <= |parts[0]|
    ensures Join(parts, sep)[a..] == Join([parts[0][a..]] + parts[1..], sep)
  {
    var q := [parts[0][a..]] + parts[1..];
    if |parts| > 1 {
      assert q[1..] == parts[1..];
      assert (parts[0] + [sep] + Join(parts[1..], sep))[a..] == parts[0][a..] + [sep] + Join(parts[1..], sep);
    }
  }

  /** Cutting `k` characters off the end of the joined text cuts them off the last piece. */
  lemma JoinDropBack(parts: seq<string>, sep: char, k: int)
    requires |parts| >= 1 && 0 <= k <= |parts[|parts| - 1]|
    ensures var s := Join(parts, sep); var n := |parts|; var last := parts[n - 1];
      |s| >= |last| && s[..|s| - k] == Join(parts[..n - 1] + [last[..|last| - k]], sep)
  {
    var n := |parts|;
    var last := parts[n - 1];
    var q := parts[..n - 1] + [last[..|last| - k]];
    if n == 1 {
      assert q == [last[..|last| - k]];
    } else {
      JoinSnoc(parts, sep);
      JoinSnoc(q, sep);
      assert q[..n - 1] == parts[..n - 1];
      var front := Join(parts[..n - 1], sep) + [sep];
      assert (front + last)[..|front| + |last| - k] == front + last[..|last| - k];
    }
  }

  /** The pieces of a text of two or more pieces once `a` characters are cut from its front and `k` from its back. */
  function Trimmed(parts: seq<string>, a: nat, k: nat): seq<string>
    requires |parts| >= 2 && a <= |parts[0]| && k <= |parts[|parts| - 1]|
  {
    var n := |parts|;
    parts[0 := parts[0][a..]][n - 1 := parts[n - 1][..|parts[n - 1]| - k]]
  }

  /** Cutting both ends of a joined text cuts the first and the last piece and keeps the separators. */
  lemma JoinTrimmed(parts: seq<string>, sep: char, a: nat, k: nat)
    requires |parts| >= 2 && a <= |parts[0]| && k <= |parts[|parts| - 1]|
    ensures var s := Join(parts, sep); a + k <= |s| && Join(Trimmed(parts, a, k), sep) == s[a..|s| - k]
  {
    var n := |parts|;
    var s := Join(parts, sep);
    var q1 := [parts[0][a..]] + parts[1..];
    JoinDropFront(parts, sep, a);
    assert q1[n - 1] == parts[n - 1];
    JoinDropBack(q1, sep, k);
    assert q1[..n - 1] + [parts[n - 1][..|parts[n - 1]| - k]] == Trimmed(parts, a, k);
    assert s[a..][..|s| - a - k] == s[a..|s| - k];
  }

  /** Cutting leading whitespace off a piece keeps its strip and adds no character to it. */
  lemma CutFront(p: string, sep: char, a: nat)
    requires a <= |p|
    requires forall j :: 0 <= j < a ==> IsSpace(p[j])
    ensures Strip(p[a..]) == Strip(p)
    ensures sep !in p ==> sep !in p[a..]
  {
    StripDropFront(p, a);
    assert forall x :: x in p[a..] ==> x in p;
  }

  /** Cutting trailing whitespace off a piece keeps its strip and adds no character to it. */
  lemma CutBack(p: string, sep: char, e: nat)
    requires e <= |p|
    requires forall j :: e <= j < |p| ==> IsSpace(p[j])
    ensures Strip(p[..e]) == Strip(p)
    ensures sep !in p ==> sep !in p[..e]
  {
    StripDropBack(p, e);
    assert forall x :: x in p[..e] ==> x in p;
  }

  /** A slice holds no character its text does not hold. */
  lemma SliceKeepsOut(s: string, c: char, a: nat, b: nat)
    requires a <= b <= |s|
    ensures c !in s ==> c !in s[a..b]
  {
    assert forall x :: x in s[a..b] ==> x in s;
  }

  /** Cutting the first and the last piece brings no separator into any piece. */
  lemma TrimmedKeepsOut(parts: seq<string>, sep: char, a: nat, k: nat)
    requires |parts| >= 2 && a <= |parts[0]| && k <= |parts[|parts| - 1]|
    requires forall i :: 0 <= i < |parts| ==> sep !in parts[i]
    ensures |Trimmed(parts, a, k)| == |parts|
    ensures forall i :: 0 <= i < |parts| ==> sep !in Trimmed(parts, a, k)[i]
  {
    var n := |parts|;
    SliceKeepsOut(parts[0], sep, a, |parts[0]|);
    SliceKeepsOut(parts[n - 1], sep, 0, |parts[n - 1]| - k);
  }

  /**
   * `s.split(sep)` for a one-character separator: the pieces between the separators,
   * empty pieces included, so that joining them back gives `s`.
   */
  function Split(s: string, sep: char): (parts: seq<string>)
    ensures |parts| >= 1
    ensures forall k :: 0 <= k < |parts| ==> sep !in parts[k]
    ensures Join(parts, sep) == s
  {
    if s == [] then [[]]
    else
      var rest := Split(s[1..], sep);
      if s[0] == sep then
        [[]] + rest
      else
        var parts := [[s[0]] + rest[0]] + rest[1..];
        assert Join(parts, sep) == s by {
          if |rest| == 1 {
            assert s == [s[0]] + s[1..];
          } else {
            assert parts[1..] == rest[1..];
            assert Join(rest, sep) == rest[0] + [sep] + Join(rest[1..], sep);
            assert s == [s[0]] + s[1..];
          }
        }
        parts
  }

  /** Splitting a string is undone by joining and vice versa: the pieces are determined. */
  lemma {:induction false} SplitJoin(parts: seq<string>, sep: char)
    requires |parts| >= 1
    requires forall k :: 0 <= k < |parts| ==> sep !in parts[k]
    ensures Split(Join(parts, sep), sep) == parts
    decreases |parts|, |parts[0]|
  {
    var s := Join(parts, sep);
    if |parts[0]| == 0 {
      if |parts| == 1 {
        assert s == [];
      } else {
        assert s == [sep] + Join(parts[1..], sep);
        assert s[1..] == Join(parts[1..], sep);
        SplitJoin(parts[1..], sep);
        assert parts == [[]] + parts[1..];
      }
    } else {
      var p0 := parts[0];
      var shorter := [p0[1..]] + parts[1..];
      assert sep !in shorter[0] by {
        assert forall x :: x in p0[1..] ==> x in p0;
      }
      SplitJoin(shorter, sep);
      assert s == [p0[0]] + Join(shorter, sep) by {
        if |parts| == 1 {
          assert p0 == [p0[0]] + p0[1..];
        } else {
          assert shorter[1..] == parts[1..];
          assert p0 == [p0[0]] + p0[1..];
        }
      }
      assert s[1..] == Join(shorter, sep);
      assert s[0] != sep by { assert s[0] == p0[0]; }
      var rest := Split(s[1..], sep);
      assert rest == shorter;
      assert [[s[0]] + rest[0]] + rest[1..] == parts by {
        assert [s[0]] + rest[0] == p0;
      }
    }
  }

  // ---------------------------------------------------------------- digits and int()

  predicate IsDigit(c: char)
  {
    '0' <= c <= '9'
  }

  /** `s.isdigit()` for ASCII digits: non-empty and digits only. */
  predicate IsDigits(s: string)
  {
    |s| > 0 && forall i :: 0 <= i < |s| ==> IsDigit(s[i])
  }

  /** The decimal value of a digit string. */
  function DigitsValue(s: string): nat
    requires forall i :: 0 <= i < |s| ==> IsDigit(s[i])
  {
    if s == [] then 0
    else
      assert IsDigit(s[|s| - 1]);
      10 * DigitsValue(s[..|s| - 1]) + (s[|s| - 1] as int - '0' as int)
  }

  /** The decimal digits of `n`, without leading zeros. */
  function NatToString(n: nat): (s: string)
    ensures IsDigits(s)
    ensures s[0] == '0' ==> n == 0
  {
    if n < 10 then [('0' as int + n) as char]
    else NatToString(n / 10) + [('0' as int + n % 10) as char]
  }

  /** `str(n)`. */
  function IntToString(n: int): string
  {
    if n < 0 then ['-'] + NatToString(-n) else NatToString(n)
  }

  lemma {:induction false} NatToStringValue(n: nat)
    ensures DigitsValue(NatToString(n)) == n
  {
    if n >= 10 {
      NatToStringValue(n / 10);
      var s := NatToString(n);
      assert s[..|s| - 1] == NatToString(n / 10);
    }
  }

  /**
   * `int(s)`: optional surrounding whitespace, an optional sign, then ASCII digits;
   * anything else is Python's `ValueError`, here `None`.
   */
  function ParseInt(s: string): Option<int>
  {
    var t := Strip(s);
    if IsDigits(t) then Some(DigitsValue(t))
    else if |t| >= 2 && t[0] == '-' && IsDigits(t[1..]) then Some(0 - DigitsValue(t[1..]))
    else if |t| >= 2 && t[0] == '+' && IsDigits(t[1..]) then Some(DigitsValue(t[1..]))
    else None
  }

  /** Only non-blank text that ends in a digit and starts with a digit or a sign is read as an integer. */
  lemma ParseIntShape(s: string)
    ensures ParseInt(s).Some? ==> |Strip(s)| > 0
    ensures ParseInt(s).Some? ==> IsDigit(Strip(s)[|Strip(s)| - 1]) && (IsDigit(Strip(s)[0]) || Strip(s)[0] in "+-")
  {
  }

  /** `int(str(n)) == n`. */
  lemma IntRoundTrip(n: int)
    ensures ParseInt(IntToString(n)) == Some(n)
  {
    var s := IntToString(n);
    if n < 0 {
      var d := NatToString(-n);
      NatToStringValue(-n);
      assert s[1..] == d;
      assert !IsDigit(s[0]);
      assert IsDigit(s[|s| - 1]) by { assert s[|s| - 1] == d[|d| - 1]; }
      StripUnpadded(s);
      assert !IsDigits(s);
    } else {
      NatToStringValue(n);
      StripUnpadded(s);
    }
  }

  /** `str(n)` never contains the callback separator `_`. */
  lemma IntToStringHasNoUnderscore(n: int)
    ensures '_' !in IntToString(n)
  {
    var s := IntToString(n);
    var d := if n < 0 then s[1..] else s;
    assert d == NatToString(if n < 0 then -n else n);
    assert forall i :: 0 <= i < |d| ==> d[i] != '_';
    if n < 0 {
      assert forall i :: 1 <= i < |s| ==> s[i] == d[i - 1];
    }
  }

  // ---------------------------------------------------------------- slicing

  /** How Python turns a slice bound into an index of a sequence of length `n`. */
  function SliceIndex(k: int, n: nat): (r: nat)
    ensures r <= n
  {
    if k < 0 then (if k + n < 0 then 0 else k + n) else if k > n then n else k
  }

  /** `s[i:j]` in Python, with negative bounds counted from the end and clamped. */
  function PySlice<T>(s: seq<T>, i: int, j: int): (r: seq<T>)
    ensures |r| <= |s|
    ensures 0 <= i <= j ==> r == s[(if i < |s| then i else |s|)..(if j < |s| then j else |s|)]
  {
    var lo := SliceIndex(i, |s|);
    var hi := SliceIndex(j, |s|);
    if lo < hi then s[lo..hi] else []
  }
}
