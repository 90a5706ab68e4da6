/** The parts of Python's `str` that the core uses, restricted to ASCII: `lower()`, `strip()`,
    `split()`, `in`, `endswith`, `" ".join` and the decimal formatting of an `int`. */
module Text {

  /** `str.isspace()` on ASCII: space, `\t`..`\r` and the separators `\x1c`..`\x1f`. */
  predicate IsSpace(c: char)
  {
    c == ' ' || 9 <= c as int <= 13 || 28 <= c as int <= 31
  }

  predicate IsUpper(c: char) { 'A' <= c <= 'Z' }

  predicate IsDigit(c: char) { '0' <= c <= '9' }

  /** A character of the regular-expression class `\w` on ASCII. */
  predicate IsWordChar(c: char)
  {
    'a' <= c <= 'z' || IsUpper(c) || IsDigit(c) || c == '_'
  }

  predicate NoUpper(s: string)
  {
    forall i :: 0 <= i < |s| ==> !IsUpper(s[i])
  }

  predicate NoSpace(s: string)
  {
    forall i :: 0 <= i < |s| ==> !IsSpace(s[i])
  }

  predicate AllSpace(s: string)
  {
    forall i :: 0 <= i < |s| ==> IsSpace(s[i])
  }

  function LowerChar(c: char): (d: char)
    ensures !IsUpper(d)
    ensures IsUpper(c) ==> d as int == c as int + 32
    ensures !IsUpper(c) ==> d == c
  {
    if IsUpper(c) then (c as int + 32) as char else c
  }

  /** `str.lower()` on ASCII text. */
  function Lower(s: string): (r: string)
    ensures |r| == |s| && NoUpper(r)
    ensures forall i :: 0 <= i < |s| ==> r[i] == LowerChar(s[i])
  {
    seq(|s|, i requires 0 <= i < |s| => LowerChar(s[i]))
  }

  lemma LowerOfLowercase(s: string)
    requires NoUpper(s)
    ensures Lower(s) == s
  {
  }

  lemma NoUpperConcat(a: string, b: string)
    requires NoUpper(a) && NoUpper(b)
    ensures NoUpper(a + b)
  {
  }

  /** `s.lstrip()`: drops the leading whitespace and nothing else. */
  function TrimLeft(s: string): (r: string)
    ensures |r| <= |s| && r == s[|s| - |r|..]
    ensures forall i :: 0 <= i < |s| - |r| ==> IsSpace(s[i])
    ensures r == [] || !IsSpace(r[0])
    decreases |s|
  {
    if |s| > 0 && IsSpace(s[0]) then TrimLeft(s[1..]) else s
  }

  /** `s.rstrip()`: drops the trailing whitespace and nothing else. */
  function TrimRight(s: string): (r: string)
    ensures |r| <= |s| && r == s[..|r|]
    ensures forall i :: |r| <= i < |s| ==> IsSpace(s[i])
    ensures r == [] || !IsSpace(r[|r| - 1])
    decreases |s|
  {
    if |s| > 0 && IsSpace(s[|s| - 1]) then TrimRight(s[..|s| - 1]) else s
  }

  /** Neither starts nor ends with whitespace. */
  predicate IsStripped(s: string)
  {
    s == [] || (!IsSpace(s[0]) && !IsSpace(s[|s| - 1]))
  }

  /** `s.strip()`. */
  function Strip(s: string): (r: string)
    ensures IsStripped(r) && |r| <= |s|
  {
    var t := TrimLeft(s);
    var r := TrimRight(t);
    assert r == [] || r[0] == t[0];
    r
  }

  /** `s.strip()` is the middle part of `s` left once the whitespace at both ends is removed. */
  lemma StripIsMiddle(s: string)
    ensures var r := Strip(s);
      exists i :: 0 <= i <= |s| - |r| && r == s[i..i + |r|] && AllSpace(s[..i]) && AllSpace(s[i + |r|..])
  {
    var t := TrimLeft(s);
    var r := TrimRight(t);
    var i := |s| - |t|;
    LeftPartIsSpace(s);
    RightPartIsSpace(s, i, t);
    assert r == s[i..i + |r|];
    assert 0 <= i <= |s| - |r| && r == s[i..i + |r|] && AllSpace(s[..i]) && AllSpace(s[i + |r|..]);
  }

  lemma LeftPartIsSpace(s: string)
    ensures AllSpace(s[..|s| - |TrimLeft(s)|])
  {
    var i := |s| - |TrimLeft(s)|;
    forall k | 0 <= k < i ensures IsSpace(s[..i][k]) {
      assert s[..i][k] == s[k];
    }
  }

  lemma RightPartIsSpace(s: string, i: nat, t: string)
    requires i <= |s| && t == s[i..]
    ensures i + |TrimRight(t)| <= |s| && AllSpace(s[i + |TrimRight(t)|..])
  {
    var r := TrimRight(t);
    var tail := s[i + |r|..];
    forall k | 0 <= k < |tail| ensures IsSpace(tail[k]) {
      assert tail[k] == t[|r| + k];
    }
  }

  lemma TrimLeftOfNonSpace(s: string)
    requires s == [] || !IsSpace(s[0])
    ensures TrimLeft(s) == s
  {
  }

  lemma TrimRightOfNonSpace(s: string)
    requires s == [] || !IsSpace(s[|s| - 1])
    ensures TrimRight(s) == s
  {
  }

  /** A stripped string is its own `strip()`, so `strip()` is idempotent. */
  lemma StripOfStripped(s: string)
    requires IsStripped(s)
    ensures Strip(s) == s
  {
    TrimLeftOfNonSpace(s);
    TrimRightOfNonSpace(s);
  }

  lemma StripIdempotent(s: string)
    ensures Strip(Strip(s)) == Strip(s)
  {
    StripOfStripped(Strip(s));
  }

  /** `s.strip()` is empty exactly when `s` is all whitespace. */
  lemma {:induction false} StripEmptyIffAllSpace(s: string)
    ensures Strip(s) == [] <==> AllSpace(s)
  {
    var t := TrimLeft(s);
    if t == [] {
      assert s[..|s|] == s;
    } else {
      assert !IsSpace(t[0]) && t[0] == s[|s| - |t|];
    }
  }

  /** A leading blank does not change `strip()`. */
  lemma {:induction false} StripAfterBlank(s: string)
    ensures Strip(" " + s) == Strip(s)
  {
    assert (" " + s)[1..] == s;
  }

  // ----- str.split() -------------------------------------------------------------------------

  /** Length of the maximal run of non-whitespace characters at the start of `t`. */
  function WordLength(t: string): (n: nat)
    ensures n <= |t| && NoSpace(t[..n])
    ensures n < |t| ==> IsSpace(t[n])
    decreases |t|
  {
    if |t| == 0 || IsSpace(t[0]) then 0 else 1 + WordLength(t[1..])
  }

  /** `s.split()` with no separator: the maximal runs of non-whitespace characters, in order;
      leading, trailing and repeated whitespace produce no empty words. */
  function Split(s: string): (r: seq<string>)
    ensures forall w :: w in r ==> w != [] && NoSpace(w)
    decreases |s|
  {
    if s == [] then []
    else if IsSpace(s[0]) then Split(s[1..])
    else
      var n := WordLength(s);
      [s[..n]] + Split(s[n..])
  }

  /** A word of `s` starts at `i`: a non-whitespace character at the start or after whitespace. */
  predicate WordStartAt(s: string, i: nat)
    requires i < |s|
  {
    !IsSpace(s[i]) && (i == 0 || IsSpace(s[i - 1]))
  }

  /** The number of word starts at positions `i` and later. */
  function StartsFrom(s: string, i: nat): nat
    decreases |s| - i
  {
    if i >= |s| then 0 else (if WordStartAt(s, i) then 1 else 0) + StartsFrom(s, i + 1)
  }

  /** The number of words of `s`, counted character by character. */
  function WordCount(s: string): nat
  {
    StartsFrom(s, 0)
  }

  /** Inside a word no new word starts. */
  lemma {:induction false} NoStartInsideWord(s: string, p: nat, q: nat)
    requires 0 < p <= q <= |s|
    requires forall j :: p - 1 <= j < q ==> !IsSpace(s[j])
    ensures StartsFrom(s, p) == StartsFrom(s, q)
    decreases q - p
  {
    if p < q {
      NoStartInsideWord(s, p + 1, q);
    }
  }

  lemma {:induction false} SplitSuffixCountsWords(s: string, i: nat)
    requires i <= |s|
    requires i == 0 || i == |s| || IsSpace(s[i - 1]) || IsSpace(s[i])
    ensures |Split(s[i..])| == StartsFrom(s, i)
    decreases |s| - i
  {
    var t := s[i..];
    if i == |s| {
    } else if IsSpace(s[i]) {
      assert t[1..] == s[i + 1..];
      SplitSuffixCountsWords(s, i + 1);
    } else {
      var n := WordLength(t);
      WordAtSuffix(s, i);
      SplitSuffixCountsWords(s, i + n);
    }
  }

  /** A word starting at `i` counts once in `split()` and once as a word start, and is
      followed by the end of `s` or by whitespace. */
  lemma WordAtSuffix(s: string, i: nat)
    requires i < |s| && !IsSpace(s[i]) && (i == 0 || IsSpace(s[i - 1]))
    ensures var n := WordLength(s[i..]);
      && 0 < n && i + n <= |s|
      && |Split(s[i..])| == 1 + |Split(s[i + n..])|
      && StartsFrom(s, i) == 1 + StartsFrom(s, i + n)
      && (i + n == |s| || IsSpace(s[i + n]))
  {
    var t := s[i..];
    var n := WordLength(t);
    assert |Split(t)| == 1 + |Split(t[n..])|;
    assert t[n..] == s[i + n..];
    if n < |t| {
      assert t[n] == s[i + n];
    }
    assert StartsFrom(s, i) == 1 + StartsFrom(s, i + 1);
    if 1 < n {
      assert forall j :: i <= j < i + n ==> !IsSpace(s[j]) by {
        forall j | i <= j < i + n ensures !IsSpace(s[j]) {
          assert s[j] == t[..n][j - i];
        }
      }
      NoStartInsideWord(s, i + 1, i + n);
    }
  }

  /** `len(s.split())` is the number of places where a word starts. */
  lemma SplitCountsWords(s: string)
    ensures |Split(s)| == WordCount(s)
  {
    assert s[0..] == s;
    SplitSuffixCountsWords(s, 0);
  }

  /** The words of a string without capitals have no capitals either. */
  lemma {:induction false} SplitNoUpper(s: string)
    requires NoUpper(s)
    ensures forall w :: w in Split(s) ==> NoUpper(w)
    decreases |s|
  {
    if s != [] {
      if IsSpace(s[0]) {
        assert NoUpper(s[1..]) by {
          forall i | 0 <= i < |s| - 1 ensures !IsUpper(s[1..][i]) { assert s[1..][i] == s[i + 1]; }
        }
        SplitNoUpper(s[1..]);
      } else {
        var n := WordLength(s);
        assert NoUpper(s[n..]) by {
          forall i | 0 <= i < |s| - n ensures !IsUpper(s[n..][i]) { assert s[n..][i] == s[n + i]; }
        }
        assert NoUpper(s[..n]) by {
          forall i | 0 <= i < n ensures !IsUpper(s[..n][i]) { assert s[..n][i] == s[i]; }
        }
        SplitNoUpper(s[n..]);
        assert Split(s) == [s[..n]] + Split(s[n..]);
      }
    }
  }

  /** `sep.join(xs)`. */
  function Join(sep: string, xs: seq<string>): string
  {
    if xs == [] then [] else if |xs| == 1 then xs[0] else xs[0] + sep + Join(sep, xs[1..])
  }

  lemma JoinPair(sep: string, a: string, b: string)
    ensures Join(sep, [a, b]) == a + sep + b
  {
    assert [a, b][1..] == [b];
  }

  /** The characters of `s` other than whitespace, in order. */
  function NonSpace(s: string): string
  {
    if s == [] then [] else (if IsSpace(s[0]) then [] else [s[0]]) + NonSpace(s[1..])
  }

  function Concat(xs: seq<string>): string
  {
    if xs == [] then [] else xs[0] + Concat(xs[1..])
  }

  /** `"".join` of a list grown by one more string. */
  lemma {:induction false} ConcatSnoc(xs: seq<string>, x: string)
    ensures Concat(xs + [x]) == Concat(xs) + x
    decreases |xs|
  {
    if xs == [] {
      assert xs + [x] == [x];
      assert [x][1..] == [];
    } else {
      assert (xs + [x])[1..] == xs[1..] + [x];
      ConcatSnoc(xs[1..], x);
    }
  }

  lemma {:induction false} NonSpaceAppend(a: string, b: string)
    ensures NonSpace(a + b) == NonSpace(a) + NonSpace(b)
    decreases |a|
  {
    if a != [] {
      assert (a + b)[1..] == a[1..] + b;
      NonSpaceAppend(a[1..], b);
    } else {
      assert a + b == b;
    }
  }

  lemma {:induction false} NonSpaceOfSpaces(s: string)
    requires AllSpace(s)
    ensures NonSpace(s) == []
    decreases |s|
  {
    if s != [] { NonSpaceOfSpaces(s[1..]); }
  }

  lemma {:induction false} NonSpaceOfWord(s: string)
    requires NoSpace(s)
    ensures NonSpace(s) == s
    decreases |s|
  {
    if s != [] { NonSpaceOfWord(s[1..]); }
  }

  /** `split()` loses only whitespace: its words, run together, are the non-whitespace
      characters of the input in their original order. */
  lemma {:induction false} SplitKeepsEveryNonSpace(s: string)
    ensures Concat(Split(s)) == NonSpace(s)
    decreases |s|
  {
    if s != [] {
      if IsSpace(s[0]) {
        SplitKeepsEveryNonSpace(s[1..]);
      } else {
        var n := WordLength(s);
        SplitKeepsEveryNonSpace(s[n..]);
        SplitWordStep(s, n, Split(s[n..]));
      }
    }
  }

  lemma SplitWordStep(t: string, n: nat, rest: seq<string>)
    requires n <= |t| && NoSpace(t[..n])
    requires Concat(rest) == NonSpace(t[n..])
    ensures Concat([t[..n]] + rest) == NonSpace(t)
  {
    var xs := [t[..n]] + rest;
    assert xs[1..] == rest;
    assert Concat(xs) == t[..n] + Concat(rest);
    assert t == t[..n] + t[n..];
    NonSpaceAppend(t[..n], t[n..]);
    NonSpaceOfWord(t[..n]);
  }

  // ----- substrings ----------------------------------------------------------------------------

  predicate StartsWith(s: string, p: string)
  {
    |p| <= |s| && s[..|p|] == p
  }

  predicate EndsWith(s: string, p: string)
  {
    |p| <= |s| && s[|s| - |p|..] == p
  }

  /** Python's `p in s` for strings. */
  predicate Contains(s: string, p: string)
    decreases |s|
  {
    StartsWith(s, p) || (|s| > 0 && Contains(s[1..], p))
  }

  lemma {:induction false} ContainsInSuffix(s: string, k: nat, p: string)
    requires k <= |s| && Contains(s[k..], p)
    ensures Contains(s, p)
    decreases k
  {
    if k > 0 {
      assert s[1..][k - 1..] == s[k..];
      ContainsInSuffix(s[1..], k - 1, p);
    }
  }

  /** An occurrence of `p + q` is also an occurrence of `q`. */
  lemma {:induction false} ContainsTail(s: string, p: string, q: string)
    requires Contains(s, p + q)
    ensures Contains(s, q)
    decreases |s|
  {
    if StartsWith(s, p + q) {
      assert s[|p|..][..|q|] == (p + q)[|p|..] == q by {
        assert s[..|p + q|] == p + q;
        assert s[|p|..][..|q|] == s[..|p + q|][|p|..];
      }
      assert StartsWith(s[|p|..], q);
      ContainsInSuffix(s, |p|, q);
    } else {
      ContainsTail(s[1..], p, q);
    }
  }

  lemma ContainsAt(s: string, k: nat, p: string)
    requires k + |p| <= |s| && s[k..k + |p|] == p
    ensures Contains(s, p)
  {
    assert StartsWith(s[k..], p);
    ContainsInSuffix(s, k, p);
  }

  lemma ContainsPrefix(p: string, t: string)
    ensures Contains(p + t, p)
  {
    assert (p + t)[..|p|] == p;
  }

  lemma ContainsAfter(a: string, s: string, p: string)
    requires Contains(s, p)
    ensures Contains(a + s, p)
  {
    assert (a + s)[|a|..] == s;
    ContainsInSuffix(a + s, |a|, p);
  }

  // ----- decimal formatting --------------------------------------------------------------------

  function DigitChar(d: nat): (c: char)
    requires d < 10
    ensures IsDigit(c)
  {
    ('0' as int + d) as char
  }

  /** `str(n)` for a non-negative `int`. */
  function NatToString(n: nat): (r: string)
    ensures |r| > 0
    ensures forall i :: 0 <= i < |r| ==> IsDigit(r[i])
    decreases n
  {
    if n < 10 then [DigitChar(n)] else NatToString(n / 10) + [DigitChar(n % 10)]
  }

  /** The number a string of decimal digits denotes. */
  function DecimalValue(s: string): nat
    requires forall i :: 0 <= i < |s| ==> IsDigit(s[i])
  {
    if s == [] then 0 else 10 * DecimalValue(s[..|s| - 1]) + DigitValue(s[|s| - 1])
  }

  function DigitValue(c: char): (d: nat)
    requires IsDigit(c)
    ensures d < 10
  {
    assert '0' as int <= c as int <= '9' as int;
    c as int - '0' as int
  }

  /** Reading back the digits of `NatToString(n)` gives `n`. */
  lemma {:induction false} NatToStringRoundTrip(n: nat)
    ensures DecimalValue(NatToString(n)) == n
    decreases n
  {
    var r := NatToString(n);
    if n >= 10 {
      assert r[..|r| - 1] == NatToString(n / 10);
      NatToStringRoundTrip(n / 10);
    }
  }
}
