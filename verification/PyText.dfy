/**
 Python's whitespace handling on `str`: `strip()` and `split()` with no
 arguments, both of which use the characters for which `str.isspace` holds.
 Strings are sequences of Unicode scalar values: Python 3 code points
 other than the surrogates U+D800-U+DFFF.
 */
module PyText {

  /** `str.isspace` of a single code point: the ASCII controls 9-13 and
      28-31, the space, NEXT LINE, NO-BREAK SPACE, OGHAM SPACE MARK, the
      spaces U+2000-U+200A, LINE and PARAGRAPH SEPARATOR, NARROW NO-BREAK
      SPACE, MEDIUM MATHEMATICAL SPACE and IDEOGRAPHIC SPACE. */
  predicate IsSpace(c: char)
    ensures IsSpace(c) <==> c as int in PythonWhitespace
  {
    var n := c as int;
    || 9 <= n <= 13
    || 0x1C <= n <= 0x20
    || n == 0x85 || n == 0xA0 || n == 0x1680
    || 0x2000 <= n <= 0x200A
    || n == 0x2028 || n == 0x2029 || n == 0x202F || n == 0x205F || n == 0x3000
  }

  /** The 29 code points for which Python's `str.isspace` holds, listed one by one. */
  const PythonWhitespace: set<int> := {
    0x09, 0x0A, 0x0B, 0x0C, 0x0D, 0x1C, 0x1D, 0x1E, 0x1F, 0x20, 0x85, 0xA0, 0x1680,
    0x2000, 0x2001, 0x2002, 0x2003, 0x2004, 0x2005, 0x2006, 0x2007, 0x2008, 0x2009, 0x200A,
    0x2028, 0x2029, 0x202F, 0x205F, 0x3000 }

  /** True iff `s` consists of whitespace only (including the empty string). */
  predicate IsBlank(s: string) {
    forall i :: 0 <= i < |s| ==> IsSpace(s[i])
  }

  /** `s.lstrip()`: drops the leading whitespace and keeps the rest untouched. */
  function LStrip(s: string): (r: string)
    ensures |r| <= |s| && r == s[|s| - |r|..]
    ensures IsBlank(s[..|s| - |r|])
    ensures |r| > 0 ==> !IsSpace(r[0])
    decreases |s|
  {
    if |s| > 0 && IsSpace(s[0]) then
      var r := LStrip(s[1..]);
      BlankCons(s[0], s[1..][..|s| - 1 - |r|]);
      assert s[..|s| - |r|] == [s[0]] + s[1..][..|s| - 1 - |r|];
      r
    else s
  }

  lemma BlankCons(c: char, s: string)
    requires IsSpace(c) && IsBlank(s)
    ensures IsBlank([c] + s)
  {
    forall i | 0 < i < |s| + 1 ensures IsSpace(([c] + s)[i]) {
      assert ([c] + s)[i] == s[i - 1];
    }
  }

  /** `s.rstrip()`: drops the trailing whitespace and keeps the rest untouched. */
  function RStrip(s: string): (r: string)
    ensures |r| <= |s| && r == s[..|r|]
    ensures IsBlank(s[|r|..])
    ensures |r| > 0 ==> !IsSpace(r[|r| - 1])
    decreases |s|
  {
    if |s| > 0 && IsSpace(s[|s| - 1]) then
      var r := RStrip(s[..|s| - 1]);
      BlankSnoc(s[..|s| - 1][|r|..], s[|s| - 1]);
      assert s[|r|..] == s[..|s| - 1][|r|..] + [s[|s| - 1]];
      r
    else s
  }

  lemma BlankSnoc(s: string, c: char)
    requires IsBlank(s) && IsSpace(c)
    ensures IsBlank(s + [c])
  {
    forall i | 0 <= i < |s| ensures IsSpace((s + [c])[i]) {
      assert (s + [c])[i] == s[i];
    }
  }

  /** `s.strip()`: drops the leading and the trailing whitespace. */
  function Strip(s: string): (r: string)
    ensures |r| <= |s|
    ensures IsStripped(r)
    decreases |s|
  {
    if |s| > 0 && IsSpace(s[0]) then Strip(s[1..])
    else if |s| > 0 && IsSpace(s[|s| - 1]) then Strip(s[..|s| - 1])
    else s
  }

  /** True iff `s` neither starts nor ends with whitespace. */
  predicate IsStripped(s: string) {
    |s| == 0 || (!IsSpace(s[0]) && !IsSpace(s[|s| - 1]))
  }

  /** Python's `s.split()`: the maximal runs of non-whitespace, in order. */
  function Words(s: string): (ws: seq<string>)
    ensures forall i :: 0 <= i < |ws| ==> IsWord(ws[i])
    decreases |s|
  {
    var t := LStrip(s);
    if |t| == 0 then []
    else
      var n := WordLength(t);
      var rest := Words(t[n..]);
      ConsWords(t[..n], rest);
      [t[..n]] + rest
  }

  lemma ConsWords(w: string, rest: seq<string>)
    requires IsWord(w)
    requires forall i :: 0 <= i < |rest| ==> IsWord(rest[i])
    ensures forall i :: 0 <= i < |rest| + 1 ==> IsWord(([w] + rest)[i])
  {
    forall i | 0 <= i < |rest| + 1
      ensures IsWord(([w] + rest)[i])
    {
      if i > 0 {
        assert ([w] + rest)[i] == rest[i - 1];
      }
    }
  }

  /** A non-empty run of non-whitespace characters. */
  predicate IsWord(w: string) {
    |w| > 0 && !HasSpace(w)
  }

  /** True iff some character of `s` is whitespace. */
  predicate HasSpace(s: string) {
    exists i :: 0 <= i < |s| && IsSpace(s[i])
  }

  /** The length of the leading run of non-whitespace characters of `t`. */
  function WordLength(t: string): (n: nat)
    ensures n <= |t|
    ensures !HasSpace(t[..n])
    ensures n < |t| ==> IsSpace(t[n])
    ensures |t| > 0 && !IsSpace(t[0]) ==> n > 0
  {
    if |t| == 0 || IsSpace(t[0]) then 0
    else
      var n := 1 + WordLength(t[1..]);
      assert t[..n] == [t[0]] + t[1..][..n - 1];
      n
  }

  /** The characters of `s` that are not whitespace, in order. */
  function NonSpace(s: string): (r: string)
    ensures |r| <= |s|
  {
    if |s| == 0 then []
    else if IsSpace(s[0]) then NonSpace(s[1..])
    else [s[0]] + NonSpace(s[1..])
  }

  /** The concatenation of a sequence of strings (`"".join(ws)`). */
  function Concat(ws: seq<string>): string {
    if |ws| == 0 then [] else ws[0] + Concat(ws[1..])
  }

  /** `str(i)` for an `int`: a minus sign exactly for a negative `i`, then
      the decimal digits of its magnitude without leading zeros. */
  function Decimal(i: int): (r: string)
    ensures |r| > 0
    ensures r[0] == '-' <==> i < 0
    ensures i >= 0 ==> IsDigits(r) && DigitsValue(r) == i && (|r| > 1 ==> r[0] != '0')
    ensures i < 0 ==> |r| > 1 && IsDigits(r[1..]) && DigitsValue(r[1..]) == -i && r[1] != '0'
  {
    if i < 0 then
      var d := Digits(-i);
      assert ("-" + d)[1..] == d;
      "-" + d
    else Digits(i)
  }

  /** The decimal digits of a natural number, most significant first, without leading zeros. */
  function Digits(n: nat): (r: string)
    ensures |r| > 0 && IsDigits(r)
    ensures DigitsValue(r) == n
    ensures r[0] == '0' <==> n == 0
    ensures |r| > 1 ==> r[0] != '0'
  {
    var d := [(('0' as int) + n % 10) as char];
    if n < 10 then
      assert DigitsValue(d) == 10 * DigitsValue([]) + n % 10;
      d
    else
      var p := Digits(n / 10);
      assert (p + d)[..|p + d| - 1] == p;
      p + d
  }

  /** True iff every character of `s` is one of `0`-`9`. */
  predicate IsDigits(s: string) {
    forall k :: 0 <= k < |s| ==> '0' <= s[k] <= '9'
  }

  /** The number a string of decimal digits denotes, most significant digit first. */
  function DigitsValue(s: string): nat
    requires IsDigits(s)
  {
    if |s| == 0 then 0
    else
      assert IsDigits(s[..|s| - 1]);
      10 * DigitsValue(s[..|s| - 1]) + (s[|s| - 1] as int - '0' as int)
  }

  // ---------------------------------------------------------------------
  // Properties of strip and split
  // ---------------------------------------------------------------------

  lemma NonSpaceAppend(a: string, b: string)
    ensures NonSpace(a + b) == NonSpace(a) + NonSpace(b)
    decreases |a|
  {
    if |a| > 0 {
      assert (a + b)[1..] == a[1..] + b;
      NonSpaceAppend(a[1..], b);
    } else {
      assert a + b == b;
    }
  }

  lemma {:induction false} NonSpaceOfBlank(s: string)
    requires IsBlank(s)
    ensures NonSpace(s) == []
    decreases |s|
  {
    if |s| > 0 {
      NonSpaceOfBlank(s[1..]);
    }
  }

  lemma {:induction false} NonSpaceOfWord(s: string)
    requires !HasSpace(s)
    ensures NonSpace(s) == s
    decreases |s|
  {
    if |s| > 0 {
      assert !IsSpace(s[0]);
      assert !HasSpace(s[1..]) by {
        forall i | 0 <= i < |s[1..]| ensures !IsSpace(s[1..][i]) {
          assert s[1..][i] == s[i + 1];
        }
      }
      NonSpaceOfWord(s[1..]);
    }
  }

  /** No character is lost or added by `split()`: joining the words gives
      exactly the non-whitespace characters of the text, in order. */
  lemma {:induction false} WordsKeepContent(s: string)
    ensures Concat(Words(s)) == NonSpace(s)
    decreases |s|
  {
    var t := LStrip(s);
    NonSpaceLStrip(s);
    if |t| > 0 {
      var n := WordLength(t);
      var w, u := t[..n], t[n..];
      NonSpaceSplitWord(t, n);
      assert Words(s) == [w] + Words(u);
      ConcatCons(w, Words(u));
      WordsKeepContent(u);
    }
  }

  lemma NonSpaceLStrip(s: string)
    ensures NonSpace(LStrip(s)) == NonSpace(s)
  {
    var t := LStrip(s);
    var k := |s| - |t|;
    assert s == s[..k] + t;
    NonSpaceAppend(s[..k], t);
    NonSpaceOfBlank(s[..k]);
  }

  lemma NonSpaceSplitWord(t: string, n: nat)
    requires n <= |t| && !HasSpace(t[..n])
    ensures NonSpace(t) == t[..n] + NonSpace(t[n..])
  {
    assert t == t[..n] + t[n..];
    NonSpaceAppend(t[..n], t[n..]);
    NonSpaceOfWord(t[..n]);
  }

  lemma ConcatCons(w: string, ws: seq<string>)
    ensures Concat([w] + ws) == w + Concat(ws)
  {
    assert ([w] + ws)[1..] == ws;
  }

  /** `split()` ignores a leading whitespace character. */
  lemma WordsSkipsSpace(c: char, s: string)
    requires IsSpace(c)
    ensures Words([c] + s) == Words(s)
  {
    assert ([c] + s)[1..] == s;
    assert LStrip([c] + s) == LStrip(s);
  }

  /** `split()` takes a leading word whole when whitespace or the end of the
      text follows it. With `WordsSkipsSpace` and `Words("") == []` this
      determines `split()` on every text. */
  lemma WordsTakesWord(w: string, s: string)
    requires IsWord(w) && (|s| == 0 || IsSpace(s[0]))
    ensures Words(w + s) == [w] + Words(s)
  {
    var t := w + s;
    assert t[0] == w[0];
    assert LStrip(t) == t;
    WordLengthOfWord(w, s);
    assert t[..|w|] == w && t[|w|..] == s;
  }

  lemma {:induction false} WordLengthOfWord(w: string, s: string)
    requires !HasSpace(w) && (|s| == 0 || IsSpace(s[0]))
    ensures WordLength(w + s) == |w|
    decreases |w|
  {
    if |w| == 0 {
      assert w + s == s;
    } else {
      assert (w + s)[0] == w[0] && !IsSpace(w[0]);
      assert (w + s)[1..] == w[1..] + s;
      assert !HasSpace(w[1..]) by {
        forall i | 0 <= i < |w[1..]| ensures !IsSpace(w[1..][i]) {
          assert w[1..][i] == w[i + 1];
        }
      }
      WordLengthOfWord(w[1..], s);
    }
  }

  /** `split()` yields no word exactly when the text is all whitespace. */
  lemma {:induction false} WordsEmptyIffBlank(s: string)
    ensures |Words(s)| == 0 <==> IsBlank(s)
  {
    var t := LStrip(s);
    var k := |s| - |t|;
    if |t| > 0 {
      assert !IsSpace(s[k]);
    } else {
      assert s[..k] == s;
    }
  }

  /** Stripping a string without surrounding whitespace changes nothing;
      in particular stripping twice is stripping once. */
  lemma StripStripped(s: string)
    requires IsStripped(s)
    ensures Strip(s) == s
  {
  }

  /** `strip()` leaves nothing exactly when the text is all whitespace. */
  lemma {:induction false} StripEmptyIffBlank(s: string)
    ensures |Strip(s)| == 0 <==> IsBlank(s)
    decreases |s|
  {
    if |s| > 0 && IsSpace(s[0]) {
      StripEmptyIffBlank(s[1..]);
      assert IsBlank(s) <==> IsBlank(s[1..]) by {
        if IsBlank(s[1..]) {
          forall i | 0 < i < |s| ensures IsSpace(s[i]) {
            assert s[i] == s[1..][i - 1];
          }
        }
      }
    } else if |s| > 0 && IsSpace(s[|s| - 1]) {
      var p := s[..|s| - 1];
      StripEmptyIffBlank(p);
      assert p[0] == s[0];
    } else if |s| > 0 {
      assert !IsSpace(s[0]);
    }
  }

  /** `strip()` is `rstrip()` after `lstrip()`: the result is the infix of
      `s` left between a blank prefix and a blank suffix. */
  lemma {:induction false} StripIsRStripOfLStrip(s: string)
    ensures Strip(s) == RStrip(LStrip(s))
    decreases |s|
  {
    if |s| > 0 && IsSpace(s[0]) {
      StripIsRStripOfLStrip(s[1..]);
    } else if |s| > 0 && IsSpace(s[|s| - 1]) {
      var p := s[..|s| - 1];
      assert |p| > 0 && p[0] == s[0];
      StripIsRStripOfLStrip(p);
    }
  }

  /** A stripped non-empty text splits into at least one word. */
  lemma {:induction false} StrippedHasWord(s: string)
    ensures |Strip(s)| > 0 ==> |Words(Strip(s))| > 0
  {
    var r := Strip(s);
    if |r| > 0 {
      WordsEmptyIffBlank(r);
      assert !IsSpace(r[0]);
    }
  }
}
