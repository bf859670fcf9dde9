/** Python string primitives the program relies on: `str.isspace`,
    `str.strip()`, the last element of `str.split()`, `str.replace` and
    decimal digit strings. */
module Text {
  import opened Wrappers

  const NBSP: char := '\U{00A0}'

  /** The characters for which Python's `str.isspace()` is true; `split()`,
      `strip()` and the regex class `\s` all use this set. */
  predicate IsSpace(c: char) {
    || c == ' ' || c == '\t' || c == '\n' || c == '\r' || c == '\U{000B}' || c == '\U{000C}'
    || ('\U{001C}' <= c <= '\U{001F}') || c == '\U{0085}' || c == NBSP || c == '\U{1680}'
    || ('\U{2000}' <= c <= '\U{200A}') || c == '\U{2028}' || c == '\U{2029}'
    || c == '\U{202F}' || c == '\U{205F}' || c == '\U{3000}'
  }

  predicate AllSpace(s: string) {
    forall i :: 0 <= i < |s| ==> IsSpace(s[i])
  }

  predicate NoSpace(s: string) {
    forall i :: 0 <= i < |s| ==> !IsSpace(s[i])
  }

  /** `s` with its trailing whitespace removed. */
  function TrimEnd(s: string): (r: string)
    ensures |r| <= |s| && r == s[..|r|]
    ensures AllSpace(s[|r|..])
    ensures r == [] || !IsSpace(r[|r| - 1])
    decreases |s|
  {
    if s != [] && IsSpace(s[|s| - 1]) then
      var r := TrimEnd(s[..|s| - 1]);
      assert s[|r|..] == s[..|s| - 1][|r|..] + [s[|s| - 1]];
      r
    else
      s
  }

  /** `s` with its leading whitespace removed. */
  function TrimStart(s: string): (r: string)
    ensures |r| <= |s| && r == s[|s| - |r|..]
    ensures AllSpace(s[..|s| - |r|])
    ensures r == [] || !IsSpace(r[0])
    decreases |s|
  {
    if s != [] && IsSpace(s[0]) then TrimStart(s[1..]) else s
  }

  /** Python's `s.strip()`. */
  function Strip(s: string): (r: string)
    ensures r == [] || (!IsSpace(r[0]) && !IsSpace(r[|r| - 1]))
    ensures exists i :: 0 <= i <= i + |r| <= |s| && StripAt(s, r, i)
  {
    var t := TrimStart(s);
    var r := TrimEnd(t);
    StripParts(s, t, r);
    r
  }

  /** Whitespace trimmed from the front and then from the back of what
      remains leaves a slice with only whitespace around it. */
  lemma StripParts(s: string, t: string, r: string)
    requires |t| <= |s| && t == s[|s| - |t|..] && AllSpace(s[..|s| - |t|])
    requires |r| <= |t| && r == t[..|r|] && AllSpace(t[|r|..])
    ensures StripAt(s, r, |s| - |t|)
  {
    var i := |s| - |t|;
    assert s[i..i + |r|] == t[..|r|];
    assert s[i + |r|..] == t[|r|..];
  }

  /** `r` is the slice of `s` starting at `i` with only whitespace around it. */
  ghost predicate StripAt(s: string, r: string, i: int)
    requires 0 <= i <= i + |r| <= |s|
  {
    r == s[i..i + |r|] && AllSpace(s[..i]) && AllSpace(s[i + |r|..])
  }

  /** Start index of the longest whitespace-free suffix of `s`. */
  function WordStart(s: string): (k: nat)
    ensures k <= |s| && NoSpace(s[k..])
    ensures k == 0 || IsSpace(s[k - 1])
    decreases |s|
  {
    if s != [] && !IsSpace(s[|s| - 1]) then WordStart(s[..|s| - 1]) else |s|
  }

  /** `w` is the last whitespace-delimited token of `s`: a non-empty,
      whitespace-free slice of `s` followed only by whitespace and preceded
      by whitespace or by nothing. */
  ghost predicate IsLastToken(s: string, w: string) {
    exists i, j :: 0 <= i < j <= |s| && w == s[i..j] && LastTokenAt(s, i, j)
  }

  ghost predicate LastTokenAt(s: string, i: int, j: int)
    requires 0 <= i <= j <= |s|
  {
    NoSpace(s[i..j]) && AllSpace(s[j..]) && (i == 0 || IsSpace(s[i - 1]))
  }

  /** Python's `s.split()[-1]`, with `None` where `split()` yields an
      empty list (so that indexing raises). */
  function LastToken(s: string): (r: Option<string>)
    ensures r.None? <==> AllSpace(s)
    ensures r.Some? ==> IsLastToken(s, r.value)
  {
    var t := TrimEnd(s);
    if t == [] then
      None
    else
      var k := WordStart(t);
      assert LastTokenAt(s, k, |t|) by {
        assert s[k..|t|] == t[k..];
      }
      Some(t[k..])
  }

  lemma {:induction false} TrimEndIs(s: string, j: nat)
    requires j <= |s| && AllSpace(s[j..]) && (j == 0 || !IsSpace(s[j - 1]))
    ensures TrimEnd(s) == s[..j]
    decreases |s|
  {
    if |s| > j {
      assert IsSpace(s[|s| - 1]) by { assert s[|s| - 1] == s[j..][|s| - 1 - j]; }
      var s' := s[..|s| - 1];
      assert s'[j..] == s[j..|s| - 1];
      assert AllSpace(s'[j..]) by {
        forall i | 0 <= i < |s'[j..]| ensures IsSpace(s'[j..][i]) {
          assert s'[j..][i] == s[j..][i];
        }
      }
      TrimEndIs(s', j);
      assert s'[..j] == s[..j];
    } else {
      assert s[..j] == s;
    }
  }

  lemma {:induction false} WordStartIs(s: string, i: nat)
    requires i <= |s| && NoSpace(s[i..]) && (i == 0 || IsSpace(s[i - 1]))
    ensures WordStart(s) == i
    decreases |s|
  {
    if |s| > i {
      assert !IsSpace(s[|s| - 1]) by { assert s[|s| - 1] == s[i..][|s| - 1 - i]; }
      var s' := s[..|s| - 1];
      assert NoSpace(s'[i..]) by {
        forall k | 0 <= k < |s'[i..]| ensures !IsSpace(s'[i..][k]) {
          assert s'[i..][k] == s[i..][k];
        }
      }
      if i > 0 {
        assert s'[i - 1] == s[i - 1];
      }
      WordStartIs(s', i);
    } else if s != [] {
      assert IsSpace(s[|s| - 1]);
    }
  }

  /** The last token is unique: any slice meeting the definition is the one
      `LastToken` returns, so `LastToken` and `IsLastToken` agree in both
      directions. */
  lemma LastTokenCharacterized(s: string, w: string)
    ensures LastToken(s) == Some(w) <==> IsLastToken(s, w)
  {
    if IsLastToken(s, w) {
      var i, j :| 0 <= i < j <= |s| && w == s[i..j] && LastTokenAt(s, i, j);
      assert s[j - 1] == s[i..j][j - 1 - i];
      TrimEndIs(s, j);
      var t := s[..j];
      assert t[i..] == s[i..j];
      if i > 0 {
        assert t[i - 1] == s[i - 1];
      }
      WordStartIs(t, i);
    }
  }

  /** Python's `s.replace(pat, rep)`: every non-overlapping occurrence of
      `pat`, scanning left to right, is replaced by `rep`. */
  function ReplaceAll(s: string, pat: string, rep: string): (r: string)
    requires pat != []
    ensures Absent(s, pat) ==> r == s
    decreases |s|
  {
    if |s| < |pat| then s
    else if s[..|pat|] == pat then
      assert OccursAt(s, pat, 0);
      rep + ReplaceAll(s[|pat|..], pat, rep)
    else
      var rest := ReplaceAll(s[1..], pat, rep);
      assert Absent(s, pat) ==> [s[0]] + rest == s by {
        if Absent(s, pat) {
          AbsentAfter(s, pat, 1);
          assert [s[0]] + s[1..] == s;
        }
      }
      [s[0]] + rest
  }

  /** Replacing a single character distributes over concatenation. */
  lemma {:induction false} ReplaceCharAppend(a: string, b: string, c: char, rep: string)
    ensures ReplaceAll(a + b, [c], rep) == ReplaceAll(a, [c], rep) + ReplaceAll(b, [c], rep)
    decreases |a|
  {
    if a != [] {
      assert (a + b)[1..] == a[1..] + b;
      assert (a + b)[..1] == a[..1];
      ReplaceCharAppend(a[1..], b, c, rep);
    } else {
      assert a + b == b;
    }
  }

  /** Replacing a character that does not occur leaves the string as it is;
      after replacing it with a string that does not contain it, it no
      longer occurs. */
  lemma {:induction false} ReplaceCharSpec(s: string, c: char, rep: string)
    ensures c !in s ==> ReplaceAll(s, [c], rep) == s
    ensures c !in rep ==> c !in ReplaceAll(s, [c], rep)
    decreases |s|
  {
    if s != [] {
      ReplaceCharSpec(s[1..], c, rep);
      if s[..1] != [c] {
        assert s[0] != c;
      }
      assert s == [s[0]] + s[1..];
    }
  }

  /** A character that occurs only at the very end is the only one replaced. */
  lemma ReplaceFinalChar(body: string, c: char, rep: string)
    requires c !in body
    ensures ReplaceAll(body + [c], [c], rep) == body + rep
  {
    ReplaceCharAppend(body, [c], c, rep);
    ReplaceCharSpec(body, c, rep);
    assert [c][..1] == [c] && [c][1..] == [];
    assert ReplaceAll([c], [c], rep) == rep + ReplaceAll([], [c], rep);
  }

  /** `pat` occurs in `s` starting at index `i`. */
  predicate OccursAt(s: string, pat: string, i: int) {
    0 <= i && i + |pat| <= |s| && s[i..i + |pat|] == pat
  }

  /** `pat` occurs nowhere in `s`. */
  ghost predicate Absent(s: string, pat: string) {
    forall i :: !OccursAt(s, pat, i)
  }

  /** An occurrence in a suffix is an occurrence in the whole string. */
  lemma OccursInSuffix(s: string, pat: string, n: nat, i: int)
    requires n <= |s| && OccursAt(s[n..], pat, i)
    ensures OccursAt(s, pat, i + n)
  {
    assert s[n..][i..i + |pat|] == s[i + n..i + n + |pat|];
  }

  /** A string whose only occurrence of `pat` is at `k` has just that
      occurrence replaced. */
  lemma {:induction false} ReplaceOnce(s: string, pat: string, rep: string, k: nat)
    requires pat != [] && OccursAt(s, pat, k)
    requires forall i :: i != k ==> !OccursAt(s, pat, i)
    ensures ReplaceAll(s, pat, rep) == s[..k] + rep + s[k + |pat|..]
    decreases k
  {
    if k == 0 {
      AbsentAfter(s, pat, |pat|);
      assert s[..0] + rep + s[|pat|..] == rep + s[|pat|..];
    } else {
      OnceInTail(s, pat, k);
      ReplaceOnce(s[1..], pat, rep, k - 1);
      ReplaceSkipFirst(s, pat, rep, k);
    }
  }

  /** Without a match at 0, the first character is kept and the rest replaced. */
  lemma ReplaceSkipFirst(s: string, pat: string, rep: string, k: nat)
    requires pat != [] && 0 < k && k + |pat| <= |s| && !OccursAt(s, pat, 0)
    requires ReplaceAll(s[1..], pat, rep) == s[1..][..k - 1] + rep + s[1..][k - 1 + |pat|..]
    ensures ReplaceAll(s, pat, rep) == s[..k] + rep + s[k + |pat|..]
  {
    assert s[..|pat|] != pat;
    assert ReplaceAll(s, pat, rep) == [s[0]] + ReplaceAll(s[1..], pat, rep);
    ConsSlices(s, rep, k, k + |pat|);
  }

  lemma ConsSlices(s: string, rep: string, k: nat, m: nat)
    requires 0 < k <= m <= |s|
    ensures s[..k] + rep + s[m..] == [s[0]] + (s[1..][..k - 1] + rep + s[1..][m - 1..])
  {
    assert s[..k] == [s[0]] + s[1..][..k - 1];
    assert s[m..] == s[1..][m - 1..];
  }

  /** With no occurrence from `n` on, the suffix from `n` has none. */
  lemma AbsentAfter(s: string, pat: string, n: nat)
    requires n <= |s| && forall i :: i >= n ==> !OccursAt(s, pat, i)
    ensures Absent(s[n..], pat)
  {
    forall i ensures !OccursAt(s[n..], pat, i) {
      if OccursAt(s[n..], pat, i) {
        OccursInSuffix(s, pat, n, i);
      }
    }
  }

  /** The only occurrence, at `k > 0`, moves to `k - 1` in the tail. */
  lemma OnceInTail(s: string, pat: string, k: nat)
    requires 0 < k && OccursAt(s, pat, k) && forall i :: i != k ==> !OccursAt(s, pat, i)
    ensures OccursAt(s[1..], pat, k - 1) && forall i :: i != k - 1 ==> !OccursAt(s[1..], pat, i)
  {
    var t := s[1..];
    forall i | i != k - 1 ensures !OccursAt(t, pat, i) {
      if OccursAt(t, pat, i) {
        OccursInSuffix(s, pat, 1, i);
      }
    }
    assert t[k - 1..k - 1 + |pat|] == s[k..k + |pat|];
  }

  predicate IsDigit(c: char) {
    '0' <= c <= '9'
  }

  predicate AllDigits(s: string) {
    forall i :: 0 <= i < |s| ==> IsDigit(s[i])
  }

  function DigitChar(d: nat): (c: char)
    requires d < 10
    ensures IsDigit(c)
  {
    ['0', '1', '2', '3', '4', '5', '6', '7', '8', '9'][d]
  }

  function DigitValue(c: char): (d: nat)
    requires IsDigit(c)
    ensures d < 10 && DigitChar(d) == c
  {
    (c as int - '0' as int) as nat
  }

  /** A string of digits holds no other character. */
  lemma DigitsExclude(s: string, c: char)
    requires AllDigits(s) && !IsDigit(c)
    ensures c !in s
  {
  }

  /** The number a string of decimal digits denotes (Python's `int(s)`). */
  function DigitsValue(s: string): nat
    requires AllDigits(s)
    decreases |s|
  {
    if s == [] then 0 else DigitsValue(s[..|s| - 1]) * 10 + DigitValue(s[|s| - 1])
  }

  /** Reading the digits of `a + b` is reading `a`, shifting it by one
      place per digit of `b`, and adding `b`. */
  lemma {:induction false} DigitsValueAppend(a: string, b: string)
    requires AllDigits(a) && AllDigits(b)
    ensures AllDigits(a + b) && DigitsValue(a + b) == DigitsValue(a) * Pow10(|b|) + DigitsValue(b)
    decreases |b|
  {
    DigitsAppend(a, b);
    if b == [] {
      assert a + b == a;
    } else {
      var b' := b[..|b| - 1];
      var d := DigitValue(b[|b| - 1]);
      assert (a + b)[..|a + b| - 1] == a + b' && (a + b)[|a + b| - 1] == b[|b| - 1];
      DigitsValueAppend(a, b');
      assert DigitsValue(a + b) == DigitsValue(a + b') * 10 + d;
      assert DigitsValue(b) == DigitsValue(b') * 10 + d;
      ShiftPlace(DigitsValue(a), Pow10(|b'|), DigitsValue(b'), d);
    }
  }

  lemma DigitsAppend(a: string, b: string)
    requires AllDigits(a) && AllDigits(b)
    ensures AllDigits(a + b)
  {
    forall i | 0 <= i < |a + b| ensures IsDigit((a + b)[i]) {
      if i >= |a| {
        assert (a + b)[i] == b[i - |a|];
      }
    }
  }

  lemma ShiftPlace(x: int, p: int, y: int, d: int)
    ensures (x * p + y) * 10 + d == x * (10 * p) + (y * 10 + d)
  {
  }

  function Pow10(n: nat): (p: nat)
    ensures p >= 1
  {
    if n == 0 then 1 else 10 * Pow10(n - 1)
  }

  /** `n` written with exactly `w` digits, zero-padded on the left
      (`%0wd`); digits above the width are dropped. */
  function Pad(n: nat, w: nat): (r: string)
    ensures |r| == w && AllDigits(r)
  {
    if w == 0 then [] else Pad(n / 10, w - 1) + [DigitChar(n % 10)]
  }

  /** Zero-padding a number that fits the width reads back as that number. */
  lemma {:induction false} PadRoundTrip(n: nat, w: nat)
    requires n < Pow10(w)
    ensures DigitsValue(Pad(n, w)) == n
  {
    if w > 0 {
      var r := Pad(n, w);
      DivTen(n, Pow10(w - 1));
      assert r[..|r| - 1] == Pad(n / 10, w - 1) && r[|r| - 1] == DigitChar(n % 10);
      PadRoundTrip(n / 10, w - 1);
    }
  }

  lemma DivTen(n: nat, p: nat)
    requires n < 10 * p
    ensures n / 10 < p && (n / 10) * 10 + n % 10 == n && n % 10 < 10
  {
  }

  /** A digit string is the zero-padded form of its own value. */
  lemma {:induction false} DigitsRoundTrip(s: string)
    requires AllDigits(s)
    ensures DigitsValue(s) < Pow10(|s|)
    ensures Pad(DigitsValue(s), |s|) == s
    decreases |s|
  {
    if s != [] {
      var s' := s[..|s| - 1];
      assert AllDigits(s');
      DigitsRoundTrip(s');
      var v := DigitsValue(s);
      assert v / 10 == DigitsValue(s') && v % 10 == DigitValue(s[|s| - 1]);
      assert s == s' + [s[|s| - 1]];
    }
  }

  /** The value of a one- or two-digit string, digit by digit. */
  lemma ShortDigitsValue(d: string)
    requires AllDigits(d) && 1 <= |d| <= 2
    ensures DigitsValue(d) == if |d| == 1 then DigitValue(d[0]) else 10 * DigitValue(d[0]) + DigitValue(d[1])
  {
    assert d[..|d| - 1][..0] == [];
    if |d| == 2 {
      assert d[..1][..0] == [] && d[..1][0] == d[0];
    }
  }

  /** Python's `str(n)` for a non-negative integer: no leading zeros. */
  function NatToString(n: nat): (r: string)
    ensures r != [] && AllDigits(r)
    ensures |r| > 1 ==> r[0] != '0'
    ensures DigitsValue(r) == n
  {
    if n < 10 then [DigitChar(n)]
    else
      var r := NatToString(n / 10) + [DigitChar(n % 10)];
      assert r[..|r| - 1] == NatToString(n / 10);
      r
  }
}
