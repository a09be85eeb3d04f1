/**
 The keyboard-smash override of `looks_like_gibberish` (app.py): a text is
 flagged when at least half of its whitespace-separated words have too few
 vowels among their ASCII letters.
 */
module Gibberish {
  import opened PyText

  /** A stripped text shorter than this is never judged. */
  const MinTextLength: nat := 5
  /** A word whose ASCII-letter run is shorter than this is skipped. */
  const MinLetters: nat := 3

  predicate IsAsciiLetter(c: char) {
    'A' <= c <= 'Z' || 'a' <= c <= 'z'
  }

  /** `re.sub(r"[^A-Za-z]", "", word)`: the ASCII letters of `w`, in order. */
  function Letters(w: string): (r: string)
    ensures |r| <= |w|
    ensures forall i :: 0 <= i < |r| ==> IsAsciiLetter(r[i])
    ensures forall i :: 0 <= i < |w| && IsAsciiLetter(w[i]) ==> w[i] in r
  {
    if |w| == 0 then []
    else if IsAsciiLetter(w[0]) then [w[0]] + Letters(w[1..])
    else Letters(w[1..])
  }

  /** `ch.lower() in "aeiou"` for an ASCII letter; `y` is not a vowel. */
  predicate IsVowel(c: char)
    ensures IsVowel(c) <==> IsAsciiLetter(c) && AsciiLower(c) in "aeiou"
  {
    c in "aeiouAEIOU"
  }

  /** `ch.lower()` for a character that is an ASCII letter. */
  function AsciiLower(c: char): char {
    if 'A' <= c <= 'Z' then (c as int + ('a' as int - 'A' as int)) as char else c
  }

  /** The number of vowels in `s`. */
  function VowelCount(s: string): (n: nat)
    ensures n <= |s|
    ensures n == 0 <==> forall i :: 0 <= i < |s| ==> !IsVowel(s[i])
  {
    if |s| == 0 then 0
    else (if IsVowel(s[0]) then 1 else 0) + VowelCount(s[1..])
  }

  /** A word is judged when its letter run has at least `MinLetters` letters. */
  predicate IsJudged(w: string) {
    |Letters(w)| >= MinLetters
  }

  /** A judged word is gibberish when its vowel ratio is below 0.20
      (app.py line 509). The ratio is compared as an exact fraction: for any
      word of fewer than 10^15 letters, the binary64 division and comparison
      the source performs give the same answer. */
  predicate IsGibberishWord(w: string)
    ensures IsGibberishWord(w) ==> IsJudged(w) && 5 * VowelCount(Letters(w)) < |Letters(w)|
  {
    var letters := Letters(w);
    if |letters| < MinLetters then false
    else
      RatioBelowFifth(VowelCount(letters), |letters|);
      (VowelCount(letters) as real) / (|letters| as real) < 0.20
  }

  /** The number of gibberish words among `words`. */
  function CountGibberish(words: seq<string>): (n: nat)
    ensures n <= |words|
    ensures n == 0 <==> forall i :: 0 <= i < |words| ==> !IsGibberishWord(words[i])
  {
    if |words| == 0 then 0
    else
      var prefix := words[..|words| - 1];
      assert forall i :: 0 <= i < |prefix| ==> prefix[i] == words[i];
      CountGibberish(prefix) + (if IsGibberishWord(words[|words| - 1]) then 1 else 0)
  }

  /** `looks_like_gibberish(text)`: a flagged text is long enough and holds
      at least one gibberish word. */
  predicate LooksLikeGibberish(text: string)
    ensures LooksLikeGibberish(text) ==>
      |Strip(text)| >= MinTextLength && CountGibberish(Words(Strip(text))) > 0
  {
    var t := Strip(text);
    if |t| < MinTextLength then false
    else
      var words := Words(t);
      StrippedHasWord(text);
      HalfInIntegers(CountGibberish(words), |words|);
      (CountGibberish(words) as real) >= (|words| as real) * 0.5
  }

  // ---------------------------------------------------------------------
  // Properties
  // ---------------------------------------------------------------------

  /** The vowel-ratio test in integers: a judged word is gibberish iff five
      times its vowel count is below its letter count, so one vowel in five
      letters (a ratio of exactly 0.20) is not gibberish. */
  lemma GibberishWordInIntegers(w: string)
    ensures IsGibberishWord(w) <==>
      |Letters(w)| >= MinLetters && 5 * VowelCount(Letters(w)) < |Letters(w)|
  {
    if |Letters(w)| >= MinLetters {
      RatioBelowFifth(VowelCount(Letters(w)), |Letters(w)|);
    }
  }

  lemma RatioBelowFifth(v: nat, n: nat)
    requires n > 0
    ensures (v as real) / (n as real) < 0.20 <==> 5 * v < n
  {
    DivBelow(v as real, n as real, 0.20);
  }

  lemma DivBelow(a: real, b: real, c: real)
    requires b > 0.0
    ensures a / b < c <==> a < c * b
  {
    var q := a / b;
    assert q * b == a;
    if q < c {
      assert (c - q) * b > 0.0;
    } else {
      assert (q - c) * b >= 0.0;
    }
  }

  lemma HalfInIntegers(g: nat, n: nat)
    ensures (g as real) >= (n as real) * 0.5 <==> 2 * g >= n
  {
  }

  /** A skipped word (fewer than three letters) is never gibberish, whatever it holds. */
  lemma SkippedWordIsNotGibberish(w: string)
    requires !IsJudged(w)
    ensures !IsGibberishWord(w)
  {
  }

  /** The whole-text test in integers: the text is flagged iff it survives the
      length guard and twice the gibberish count reaches the number of words,
      where skipped words count in the denominator. The denominator is never
      zero once the length guard passes. */
  lemma {:induction false} LooksLikeGibberishInIntegers(text: string)
    ensures var t := Strip(text);
      LooksLikeGibberish(text) <==>
        |t| >= MinTextLength && 2 * CountGibberish(Words(t)) >= |Words(t)|
    ensures |Strip(text)| >= MinTextLength ==> |Words(Strip(text))| > 0
  {
    StrippedHasWord(text);
    var words := Words(Strip(text));
    HalfInIntegers(CountGibberish(words), |words|);
  }

  /** The letter run of a word split in two is the letter run of the first
      part followed by that of the second. */
  lemma {:induction false} LettersAppend(a: string, b: string)
    ensures Letters(a + b) == Letters(a) + Letters(b)
  {
    if |a| == 0 {
      assert a + b == b;
    } else {
      assert (a + b)[0] == a[0];
      assert (a + b)[1..] == a[1..] + b;
      LettersAppend(a[1..], b);
    }
  }

  /** One character is kept exactly when it is an ASCII letter. */
  lemma LettersOne(c: char)
    ensures Letters([c]) == if IsAsciiLetter(c) then [c] else []
  {
    assert [c][1..] == [];
  }

  /** Vowels are counted character by character. */
  lemma {:induction false} VowelCountAppend(a: string, b: string)
    ensures VowelCount(a + b) == VowelCount(a) + VowelCount(b)
  {
    if |a| == 0 {
      assert a + b == b;
    } else {
      assert (a + b)[0] == a[0];
      assert (a + b)[1..] == a[1..] + b;
      VowelCountAppend(a[1..], b);
    }
  }

  /** One character counts 1 exactly when it is one of `aeiouAEIOU`. */
  lemma VowelCountOne(c: char)
    ensures VowelCount([c]) == if IsVowel(c) then 1 else 0
  {
    assert [c][1..] == [];
  }

  /** A stripped text of fewer than five characters is never flagged. */
  lemma ShortTextNeverFlagged(text: string)
    requires |Strip(text)| < MinTextLength
    ensures !LooksLikeGibberish(text)
  {
  }

  lemma CountGibberishStep(words: seq<string>, i: nat)
    requires i < |words|
    ensures CountGibberish(words[..i + 1]) ==
      CountGibberish(words[..i]) + (if IsGibberishWord(words[i]) then 1 else 0)
  {
    assert words[..i + 1][..i] == words[..i];
  }

  /** The loop of app.py lines 502-513, counting gibberish words one by one. */
  method CheckGibberish(text: string) returns (flagged: bool)
    ensures flagged == LooksLikeGibberish(text)
  {
    var t := Strip(text);
    if |t| < MinTextLength {
      return false;
    }
    var words := Words(t);
    var gibberishWords := 0;
    var i := 0;
    while i < |words|
      invariant 0 <= i <= |words|
      invariant gibberishWords == CountGibberish(words[..i])
    {
      var letters := Letters(words[i]);
      CountGibberishStep(words, i);
      if |letters| == 0 || |letters| < MinLetters {
        i := i + 1;
        continue;
      }
      var vowels := VowelCount(letters);
      var ratio := (vowels as real) / (|letters| as real);
      if ratio < 0.20 {
        gibberishWords := gibberishWords + 1;
      }
      i := i + 1;
    }
    assert words[..i] == words;
    flagged := (gibberishWords as real) >= (|words| as real) * 0.5;
  }
}
