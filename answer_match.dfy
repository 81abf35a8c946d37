/** Exact-match scoring of generated answers: `normalize_answer`, `exact_match` and
    `calculate_accuracy` of evaluation/continual_metrics.py. */
module AnswerMatch {
  import opened Common
  import opened Text

  /** `_PUNCT_RE.sub(" ", s)`: every character that is neither a word character nor
      whitespace becomes a blank. */
  function BlankPunctuation(s: string): (r: string)
    ensures |r| == |s|
  {
    seq(|s|, k requires 0 <= k < |s| => BlankChar(s[k]))
  }

  /** What `_PUNCT_RE` does to one character. */
  function BlankChar(c: char): char {
    if IsWordChar(c) || IsSpace(c) then c else ' '
  }

  /** Word characters and whitespace are kept in place; everything else becomes a blank. */
  lemma BlankPunctuationChars(s: string)
    ensures forall k | 0 <= k < |s| ::
      BlankPunctuation(s)[k] == if IsWordChar(s[k]) || IsSpace(s[k]) then s[k] else ' '
  {
  }

  /** Lower-casing then blanking works character by character. */
  lemma LowerBlankChars(s: string)
    ensures |BlankPunctuation(LowerString(s))| == |s|
    ensures forall k | 0 <= k < |s| :: BlankPunctuation(LowerString(s))[k] == BlankChar(Lower(s[k]))
  {
    LowerStringChars(s);
    BlankPunctuationChars(LowerString(s));
  }

  /** The shape of a normalised answer: lower-case word characters in runs separated by
      single blanks, with no blank at either end. */
  predicate IsNormalized(s: string) {
    SingleSpaced(s) && forall k | 0 <= k < |s| :: s[k] == ' ' || (IsWordChar(s[k]) && Lower(s[k]) == s[k])
  }

  /** `normalize_answer`: lower-case, strip, blank out punctuation, collapse whitespace. */
  function NormalizeAnswer(text: string): (r: string)
    ensures |r| <= |text|
  {
    var blanked := BlankPunctuation(Strip(LowerString(text)));
    JoinWordsNoLonger(blanked);
    JoinSpace(Words(blanked))
  }

  /** Stripping first changes nothing: the whitespace `strip` removes would be dropped by
      `split` anyway. */
  lemma NormalizeSkipsStrip(text: string)
    ensures NormalizeAnswer(text) == JoinSpace(Words(BlankPunctuation(LowerString(text))))
  {
    var lowered := LowerString(text);
    StripIsTrimmedInfix(lowered);
    var i, j :| IsTrimmedInfix(lowered, Strip(lowered), i, j);
    BlankSlice(lowered, i, j);
    BlankKeepsOuterSpace(lowered, Strip(lowered), i, j);
    WordsIgnoresOuterSpace(BlankPunctuation(lowered), i, j);
  }

  /** Blanking commutes with taking a slice. */
  lemma BlankSlice(s: string, i: int, j: int)
    requires 0 <= i <= j <= |s|
    ensures BlankPunctuation(s)[i..j] == BlankPunctuation(s[i..j])
  {
    assert forall n | 0 <= n < j - i :: s[i..j][n] == s[i + n];
  }

  /** Blanking keeps the whitespace around a trimmed infix. */
  lemma BlankKeepsOuterSpace(s: string, r: string, i: int, j: int)
    requires IsTrimmedInfix(s, r, i, j)
    ensures forall k | 0 <= k < i :: IsSpace(BlankPunctuation(s)[k])
    ensures forall k | j <= k < |s| :: IsSpace(BlankPunctuation(s)[k])
  {
    BlankPunctuationChars(s);
  }

  /** Case does not matter: lower-casing the text first gives the same answer. */
  lemma NormalizeIgnoresCase(text: string)
    ensures NormalizeAnswer(LowerString(text)) == NormalizeAnswer(text)
  {
    var lowered := LowerString(text);
    LowerStringChars(text);
    LowerStringChars(lowered);
    forall k | 0 <= k < |text| ensures LowerString(lowered)[k] == lowered[k] {
      LowerKeepsClasses(text[k]);
    }
    assert LowerString(lowered) == lowered;
  }

  /** Punctuation does not matter: putting a blank in place of a character that is neither a
      word character nor whitespace gives the same answer. */
  lemma NormalizeIgnoresPunctuation(text: string, k: int)
    requires 0 <= k < |text| && !IsWordChar(text[k]) && !IsSpace(text[k])
    ensures NormalizeAnswer(text[k := ' ']) == NormalizeAnswer(text)
  {
    var blanked := text[k := ' '];
    LowerBlankChars(text);
    LowerBlankChars(blanked);
    LowerKeepsClasses(text[k]);
    PlainBlank();
    assert BlankPunctuation(LowerString(blanked)) == BlankPunctuation(LowerString(text));
    NormalizeSkipsStrip(text);
    NormalizeSkipsStrip(blanked);
  }

  /** Extra whitespace does not matter: repeating a whitespace character gives the same
      answer. */
  lemma NormalizeIgnoresRepeatedSpace(text: string, k: int)
    requires 0 <= k < |text| && IsSpace(text[k])
    ensures NormalizeAnswer(text[..k + 1] + text[k..]) == NormalizeAnswer(text)
  {
    var doubled := text[..k + 1] + text[k..];
    var b := BlankPunctuation(LowerString(text));
    LowerBlankChars(text);
    LowerBlankChars(doubled);
    LowerKeepsClasses(text[k]);
    assert BlankPunctuation(LowerString(doubled)) == b[..k + 1] + b[k..] by {
      forall n | 0 <= n < |doubled|
        ensures BlankPunctuation(LowerString(doubled))[n] == (b[..k + 1] + b[k..])[n]
      {
        if n <= k { assert doubled[n] == text[n]; } else { assert doubled[n] == text[n - 1]; }
      }
    }
    WordsRepeatedSpace(b, k);
    NormalizeSkipsStrip(text);
    NormalizeSkipsStrip(doubled);
  }

  /** The kind of whitespace does not matter: putting a blank in place of any whitespace
      character gives the same answer. */
  lemma NormalizeIgnoresWhitespaceKind(text: string, k: int)
    requires 0 <= k < |text| && IsSpace(text[k])
    ensures NormalizeAnswer(text[k := ' ']) == NormalizeAnswer(text)
  {
    var blanked := text[k := ' '];
    var b := BlankPunctuation(LowerString(text));
    LowerBlankChars(text);
    LowerBlankChars(blanked);
    LowerKeepsClasses(text[k]);
    PlainBlank();
    assert BlankPunctuation(LowerString(blanked)) == b[k := ' '];
    WordsSpaceKind(b, k, ' ');
    NormalizeSkipsStrip(text);
    NormalizeSkipsStrip(blanked);
  }

  /** Leading whitespace does not matter. */
  lemma NormalizeIgnoresLeadingSpace(c: char, text: string)
    requires IsSpace(c)
    ensures NormalizeAnswer([c] + text) == NormalizeAnswer(text)
  {
    var padded := [c] + text;
    var b, b2 := BlankPunctuation(LowerString(text)), BlankPunctuation(LowerString(padded));
    LowerBlankChars(text);
    LowerBlankChars(padded);
    LowerKeepsClasses(c);
    assert b2[1..] == b;
    NormalizeSkipsStrip(text);
    NormalizeSkipsStrip(padded);
  }

  /** Trailing whitespace does not matter. */
  lemma NormalizeIgnoresTrailingSpace(text: string, c: char)
    requires IsSpace(c)
    ensures NormalizeAnswer(text + [c]) == NormalizeAnswer(text)
  {
    var padded := text + [c];
    var b, b2 := BlankPunctuation(LowerString(text)), BlankPunctuation(LowerString(padded));
    LowerBlankChars(text);
    LowerBlankChars(padded);
    LowerKeepsClasses(c);
    assert b2 == b + [Lower(c)];
    WordsTrailingSpace(b, Lower(c));
    NormalizeSkipsStrip(text);
    NormalizeSkipsStrip(padded);
  }

  /** A normalised answer has the shape `IsNormalized` describes. */
  lemma NormalizeAnswerShape(text: string)
    ensures IsNormalized(NormalizeAnswer(text))
  {
    var lowered := LowerString(text);
    var stripped := Strip(lowered);
    var blanked := BlankPunctuation(stripped);
    BlankPunctuationChars(stripped);
    var words := Words(blanked);
    LoweredCharsAreFixed(text, stripped);
    JoinSpaceShape(words);
    var r := JoinSpace(words);
    assert forall k | 0 <= k < |r| :: r[k] == ' ' || (IsWordChar(r[k]) && Lower(r[k]) == r[k]) by {
      forall k | 0 <= k < |r| && r[k] != ' ' ensures IsWordChar(r[k]) && Lower(r[k]) == r[k] {
        var i :| 0 <= i < |words| && r[k] in words[i];
        var m :| 0 <= m < |words[i]| && words[i][m] == r[k];
        assert r[k] in blanked;
        var n :| 0 <= n < |blanked| && blanked[n] == r[k];
        assert IsWordChar(stripped[n]);
      }
    }
  }

  /** Every character of an infix of a lower-cased string is left alone by `Lower`. */
  lemma LoweredCharsAreFixed(text: string, stripped: string)
    requires stripped == Strip(LowerString(text))
    ensures forall n | 0 <= n < |stripped| :: Lower(stripped[n]) == stripped[n]
  {
    var lowered := LowerString(text);
    LowerStringChars(text);
    StripIsTrimmedInfix(lowered);
    var i, j :| IsTrimmedInfix(lowered, stripped, i, j);
    forall n | 0 <= n < |stripped| ensures Lower(stripped[n]) == stripped[n] {
      assert stripped[n] == Lower(text[i + n]);
      LowerKeepsClasses(text[i + n]);
    }
  }

  /** A normalised answer is a fixed point of `normalize_answer`. */
  lemma NormalizedIsFixed(s: string)
    requires IsNormalized(s)
    ensures NormalizeAnswer(s) == s
  {
    PlainBlank();
    forall k | 0 <= k < |s| ensures !IsSpace(s[k]) || s[k] == ' ' {
      WordCharIsNotSpace(s[k]);
    }
    LowerStringChars(s);
    assert LowerString(s) == s;
    if s != [] {
      assert !IsSpace(s[0]) && !IsSpace(s[|s| - 1]);
    }
    StripOfTrimmed(s);
    BlankPunctuationChars(s);
    assert BlankPunctuation(s) == s;
    JoinWordsOfSingleSpaced(s);
  }

  /** `normalize_answer` is idempotent. */
  lemma NormalizeIdempotent(text: string)
    ensures NormalizeAnswer(NormalizeAnswer(text)) == NormalizeAnswer(text)
  {
    NormalizeAnswerShape(text);
    NormalizedIsFixed(NormalizeAnswer(text));
  }

  /** `exact_match`: 1 when both strings normalise to the same answer, 0 otherwise. */
  function ExactMatch(prediction: string, reference: string): (m: int)
    ensures m == 0 || m == 1
    ensures m == 1 <==> NormalizeAnswer(prediction) == NormalizeAnswer(reference)
  {
    if NormalizeAnswer(prediction) == NormalizeAnswer(reference) then 1 else 0
  }

  /** Scoring is symmetric in its two arguments. */
  lemma ExactMatchSymmetric(a: string, b: string)
    ensures ExactMatch(a, b) == ExactMatch(b, a)
  {
  }

  /** Normalising a prediction beforehand never changes its score. */
  lemma ExactMatchOfNormalized(prediction: string, reference: string)
    ensures ExactMatch(NormalizeAnswer(prediction), reference) == ExactMatch(prediction, reference)
  {
    NormalizeIdempotent(prediction);
  }

  /** An example of the three lemmas above: "The Cat!" matches "the cat". */
  lemma {:induction false} ExactMatchExample(prediction: string, reference: string)
    requires prediction == "The Cat!" && reference == "the cat"
    ensures ExactMatch(prediction, reference) == 1
  {
    NormalizeTheCat();
    TheCatIsNormalized();
    assert NormalizeAnswer(prediction) == NormalizeAnswer(reference);
  }

  /** "the cat" is already normalised. */
  lemma TheCatIsNormalized()
    ensures NormalizeAnswer("the cat") == "the cat"
  {
    TheCatIsSingleSpaced();
    NormalizedIsFixed("the cat");
  }

  /** "the cat" has one blank, between two words. */
  lemma TheCatIsSingleSpaced()
    ensures SingleSpaced("the cat")
  {
    var s := "the cat";
    forall k | 0 <= k < |s| - 1 && s[k] == ' ' ensures s[k + 1] != ' ' {
      assert k == 3;
    }
  }

  /** "The Cat!" normalises to "the cat". */
  lemma NormalizeTheCat()
    ensures NormalizeAnswer("The Cat!") == "the cat"
  {
    LowerTheCat();
    BlankTheCat();
    JoinWordsOfTheCat();
  }

  /** Collapsing the whitespace of "the cat " gives "the cat". */
  lemma JoinWordsOfTheCat()
    ensures JoinSpace(Words("the cat" + " ")) == "the cat"
  {
    WordsTrailingSpace("the cat", ' ');
    TheCatIsSingleSpaced();
    JoinWordsOfSingleSpaced("the cat");
  }

  /** Lower-casing and stripping "The Cat!" gives "the cat!". */
  lemma LowerTheCat()
    ensures Strip(LowerString("The Cat!")) == "the cat!"
  {
    var s := LowerString("The Cat!");
    LowerStringChars("The Cat!");
    assert s == "the cat!" by {
      forall k | 0 <= k < 8 ensures s[k] == "the cat!"[k] {
      }
    }
    StripOfTrimmed(s);
  }

  /** Blanking the punctuation of "the cat!" gives "the cat ". */
  lemma BlankTheCat()
    ensures BlankPunctuation("the cat!") == "the cat" + " "
  {
    var b := BlankPunctuation("the cat!");
    BlankPunctuationChars("the cat!");
    assert b == "the cat " by {
      forall k | 0 <= k < 8 ensures b[k] == "the cat "[k] {
      }
    }
  }

  function ScoreSum(scores: seq<int>): int {
    if scores == [] then 0 else scores[0] + ScoreSum(scores[1..])
  }

  predicate AllBinary(scores: seq<int>) {
    forall k | 0 <= k < |scores| :: scores[k] == 0 || scores[k] == 1
  }

  /** The sum of 0/1 scores is between 0 and their number, reaching the ends exactly when
      every score is 0, respectively 1. */
  lemma {:induction false} ScoreSumBounds(scores: seq<int>)
    ensures AllBinary(scores) ==> 0 <= ScoreSum(scores) <= |scores|
    ensures AllBinary(scores) ==>
      (ScoreSum(scores) == |scores| <==> forall k | 0 <= k < |scores| :: scores[k] == 1)
    ensures AllBinary(scores) ==>
      (ScoreSum(scores) == 0 <==> forall k | 0 <= k < |scores| :: scores[k] == 0)
  {
    if scores != [] && AllBinary(scores) {
      ScoreSumBounds(scores[1..]);
      assert forall k | 1 <= k < |scores| :: scores[k] == scores[1..][k - 1];
    }
  }

  /** `calculate_accuracy`: the mean of the scores, 0.0 for no scores. */
  function CalculateAccuracy(scores: seq<int>): (acc: real)
    ensures scores == [] ==> acc == 0.0
    ensures scores != [] ==> acc * |scores| as real == ScoreSum(scores) as real
    ensures AllBinary(scores) ==> 0.0 <= acc <= 1.0
    ensures AllBinary(scores) && scores != [] ==>
      (acc == 1.0 <==> forall k | 0 <= k < |scores| :: scores[k] == 1)
  {
    if scores == [] then 0.0
    else
      RatioFacts(ScoreSum(scores), |scores|);
      ScoreSumBounds(scores);
      ScoreSum(scores) as real / |scores| as real
  }

  /** The ratio `sum / n` times `n` is `sum`; for `0 <= sum <= n` it lies in [0, 1] and is 1
      exactly when `sum == n`. */
  lemma RatioFacts(sum: int, n: int)
    requires n > 0
    ensures (sum as real / n as real) * n as real == sum as real
    ensures 0 <= sum <= n ==> 0.0 <= sum as real / n as real <= 1.0
    ensures sum as real / n as real == 1.0 <==> sum == n
  {
    DivideByCount(sum as real, n as real);
  }
}
