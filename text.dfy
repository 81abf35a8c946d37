/** String primitives that Python's `str` methods provide to the evaluation code:
    character classes, `lower`, `strip`, `split(sep)`, whitespace `split()` and `join`.

    Python classifies characters by Unicode tables. The model replaces those tables by
    fixed stand-ins (`IsSpace`, `IsWordChar`, `Lower`) that cover a few characters only;
    the all-input lemmas below only rely on the five facts proved about them at the top of this
    module: a word character is never whitespace, lowering keeps a character's class,
    lowering twice is lowering once, the blank is whitespace, and lowering keeps the
    blank. */
module Text {

  /** Whitespace as `str.isspace`, `str.strip`, `str.split()` and the regex class `\s` use it. */
  predicate IsSpace(c: char) {
    c == ' ' || c == '\t' || c == '\n' || c == '\r' || c == '\U{B}' || c == '\U{C}'
    || ('\U{1C}' <= c <= '\U{1F}') || c == '\U{85}' || c == '\U{A0}'
  }

  /** The regex class `\w`: letters, digits and the underscore. */
  predicate IsWordChar(c: char) {
    ('a' <= c <= 'z') || ('A' <= c <= 'Z') || ('0' <= c <= '9') || c == '_'
  }

  /** The character map behind `str.lower`. */
  function Lower(c: char): char {
    if 'A' <= c <= 'Z' then (c as int + 32) as char else c
  }

  lemma WordCharIsNotSpace(c: char)
    ensures IsWordChar(c) ==> !IsSpace(c)
  {
  }

  lemma LowerKeepsClasses(c: char)
    ensures Lower(Lower(c)) == Lower(c)
    ensures IsWordChar(Lower(c)) == IsWordChar(c)
    ensures IsSpace(Lower(c)) == IsSpace(c)
  {
  }

  /** The blank `' '` that `" ".join` inserts is whitespace, and `lower` keeps it. */
  lemma PlainBlank()
    ensures IsSpace(' ') && !IsWordChar(' ') && Lower(' ') == ' '
  {
  }

  /** `s.lower()` */
  function LowerString(s: string): (r: string)
    ensures |r| == |s|
  {
    if s == [] then [] else [Lower(s[0])] + LowerString(s[1..])
  }

  /** `s.lower()` lowers every character in place. */
  lemma {:induction false} LowerStringChars(s: string)
    ensures forall k | 0 <= k < |s| :: LowerString(s)[k] == Lower(s[k])
  {
    if s != [] {
      LowerStringChars(s[1..]);
    }
  }

  /** `s.strip()`: drop whitespace from the front, then from the back, one character at a
      time. */
  function Strip(s: string): (r: string)
    ensures |r| <= |s|
    ensures r == [] || (!IsSpace(r[0]) && !IsSpace(r[|r| - 1]))
    decreases |s|
  {
    if s != [] && IsSpace(s[0]) then Strip(s[1..])
    else if s != [] && IsSpace(s[|s| - 1]) then Strip(s[..|s| - 1])
    else s
  }

  /** `r` is `s[i..j]`, and everything of `s` outside that infix is whitespace. */
  predicate IsTrimmedInfix(s: string, r: string, i: int, j: int) {
    0 <= i <= j <= |s| && r == s[i..j]
    && (forall k | 0 <= k < i :: IsSpace(s[k])) && (forall k | j <= k < |s| :: IsSpace(s[k]))
  }

  /** What `Strip` removes is whitespace, from either end only. */
  lemma {:induction false} StripIsTrimmedInfix(s: string)
    ensures exists i, j :: IsTrimmedInfix(s, Strip(s), i, j)
    decreases |s|
  {
    if s != [] && IsSpace(s[0]) {
      StripIsTrimmedInfix(s[1..]);
      var i, j :| IsTrimmedInfix(s[1..], Strip(s[1..]), i, j);
      TrimmedInfixOfTail(s, Strip(s[1..]), i, j);
      assert IsTrimmedInfix(s, Strip(s), i + 1, j + 1);
    } else if s != [] && IsSpace(s[|s| - 1]) {
      StripIsTrimmedInfix(s[..|s| - 1]);
      var i, j :| IsTrimmedInfix(s[..|s| - 1], Strip(s[..|s| - 1]), i, j);
      TrimmedInfixOfInit(s, Strip(s[..|s| - 1]), i, j);
      assert IsTrimmedInfix(s, Strip(s), i, j);
    } else {
      assert IsTrimmedInfix(s, Strip(s), 0, |s|);
    }
  }

  /** Putting a blank in front shifts a trimmed infix by one. */
  lemma TrimmedInfixOfTail(s: string, r: string, i: int, j: int)
    requires s != [] && IsSpace(s[0]) && IsTrimmedInfix(s[1..], r, i, j)
    ensures IsTrimmedInfix(s, r, i + 1, j + 1)
  {
    var t := s[1..];
    assert t[i..j] == s[i + 1..j + 1];
    forall k | 1 <= k < i + 1 ensures IsSpace(s[k]) {
      assert s[k] == t[k - 1];
    }
    forall k | j + 1 <= k < |s| ensures IsSpace(s[k]) {
      assert s[k] == t[k - 1];
    }
  }

  /** Putting a blank at the end leaves a trimmed infix where it is. */
  lemma TrimmedInfixOfInit(s: string, r: string, i: int, j: int)
    requires s != [] && IsSpace(s[|s| - 1]) && IsTrimmedInfix(s[..|s| - 1], r, i, j)
    ensures IsTrimmedInfix(s, r, i, j)
  {
    var t := s[..|s| - 1];
    assert t[i..j] == s[i..j];
    forall k | 0 <= k < i ensures IsSpace(s[k]) {
      assert s[k] == t[k];
    }
    forall k | j <= k < |s| ensures IsSpace(s[k]) {
      if k < |s| - 1 { assert s[k] == t[k]; }
    }
  }

  /** `s.split(sep)`: the fields between occurrences of `sep`; there is always at least one. */
  function Split(s: string, sep: char): (fields: seq<string>)
    ensures |fields| >= 1
  {
    if s == [] then [""]
    else
      var rest := Split(s[1..], sep);
      if s[0] == sep then [""] + rest else [[s[0]] + rest[0]] + rest[1..]
  }

  /** `sep.join(fields)` */
  function JoinWith(fields: seq<string>, sep: char): string {
    if fields == [] then ""
    else if |fields| == 1 then fields[0]
    else fields[0] + [sep] + JoinWith(fields[1..], sep)
  }

  /** `split` and `join` are inverse: joining the fields gives back the string, and no
      field contains the separator. */
  lemma {:induction false} SplitJoin(s: string, sep: char)
    ensures JoinWith(Split(s, sep), sep) == s
    ensures forall i | 0 <= i < |Split(s, sep)| :: sep !in Split(s, sep)[i]
  {
    SplitFieldsLackSep(s, sep);
    if s != [] {
      var rest := Split(s[1..], sep);
      SplitJoin(s[1..], sep);
      if s[0] == sep {
        assert ([""] + rest)[1..] == rest;
      } else {
        JoinWithConsChar(s[0], rest, sep);
      }
      assert s == [s[0]] + s[1..];
    }
  }

  /** No field of a split contains the separator. */
  lemma {:induction false} SplitFieldsLackSep(s: string, sep: char)
    ensures forall i | 0 <= i < |Split(s, sep)| :: sep !in Split(s, sep)[i]
  {
    if s != [] {
      var rest := Split(s[1..], sep);
      SplitFieldsLackSep(s[1..], sep);
      if s[0] != sep {
        var fields := [[s[0]] + rest[0]] + rest[1..];
        forall i | 0 <= i < |fields| ensures sep !in fields[i] {
          if i == 0 {
            assert sep !in rest[0];
          } else {
            assert fields[i] == rest[i];
          }
        }
      }
    }
  }

  /** `s.split()`: the maximal runs of non-whitespace characters, in order. */
  function Words(s: string): (ws: seq<string>)
    ensures forall i | 0 <= i < |ws| :: |ws[i]| > 0
    ensures forall i, k | 0 <= i < |ws| && 0 <= k < |ws[i]| :: !IsSpace(ws[i][k]) && ws[i][k] in s
    ensures s != [] && !IsSpace(s[0]) ==> |ws| > 0 && ws[0][0] == s[0]
  {
    if s == [] then []
    else
      var rest := Words(s[1..]);
      if IsSpace(s[0]) then rest
      else if |s| > 1 && !IsSpace(s[1]) then [[s[0]] + rest[0]] + rest[1..]
      else [[s[0]]] + rest
  }

  /** `" ".join(words)` */
  function JoinSpace(ws: seq<string>): string {
    JoinWith(ws, ' ')
  }

  /** No whitespace but plain blanks, none at either end and never two in a row:
      the shape of `" ".join(s.split())`. */
  predicate SingleSpaced(s: string) {
    (forall k | 0 <= k < |s| :: s[k] == ' ' || !IsSpace(s[k]))
    && (s != [] ==> s[0] != ' ' && s[|s| - 1] != ' ')
    && (forall k | 0 <= k < |s| - 1 :: s[k] == ' ' ==> s[k + 1] != ' ')
  }

  /** Joining non-empty words without whitespace by single blanks is single-spaced, and
      every non-blank character comes from a word. */
  lemma {:induction false} JoinSpaceShape(ws: seq<string>)
    requires forall i | 0 <= i < |ws| :: |ws[i]| > 0
    requires forall i, k | 0 <= i < |ws| && 0 <= k < |ws[i]| :: !IsSpace(ws[i][k])
    ensures SingleSpaced(JoinSpace(ws))
    ensures forall k | 0 <= k < |JoinSpace(ws)| && JoinSpace(ws)[k] != ' ' ::
      exists i | 0 <= i < |ws| :: JoinSpace(ws)[k] in ws[i]
  {
    PlainBlank();
    if |ws| > 1 {
      var tail := JoinSpace(ws[1..]);
      JoinSpaceShape(ws[1..]);
      var s := JoinSpace(ws);
      assert s == ws[0] + " " + tail;
      assert tail != [] by { assert ws[1..][0] == ws[1]; assert tail[0] == ws[1][0] by { JoinSpaceHead(ws[1..]); } }
      JoinSpaceHead(ws[1..]);
      forall k | 0 <= k < |s| - 1 && s[k] == ' ' ensures s[k + 1] != ' ' {
        if k == |ws[0]| {
          assert s[k + 1] == tail[0];
        } else {
          assert k > |ws[0]|;
          assert s[k] == tail[k - |ws[0]| - 1];
        }
      }
      forall k | 0 <= k < |s| && s[k] != ' '
        ensures exists i | 0 <= i < |ws| :: s[k] in ws[i]
      {
        if k < |ws[0]| {
          assert s[k] == ws[0][k];
          assert s[k] in ws[0];
        } else {
          assert k > |ws[0]|;
          var i :| 0 <= i < |ws[1..]| && tail[k - |ws[0]| - 1] in ws[1..][i];
          assert s[k] in ws[i + 1];
        }
      }
    } else if |ws| == 1 {
      assert JoinSpace(ws) == ws[0];
      forall k | 0 <= k < |ws[0]| ensures exists i | 0 <= i < |ws| :: ws[0][k] in ws[i] {
        assert ws[0][k] in ws[0];
      }
    }
  }

  /** The joined string starts and ends with a character of the first and last word. */
  lemma {:induction false} JoinSpaceHead(ws: seq<string>)
    requires |ws| > 0 && forall i | 0 <= i < |ws| :: |ws[i]| > 0
    ensures |JoinSpace(ws)| > 0 && JoinSpace(ws)[0] == ws[0][0]
    ensures JoinSpace(ws)[|JoinSpace(ws)| - 1] == ws[|ws| - 1][|ws[|ws| - 1]| - 1]
  {
    if |ws| > 1 {
      JoinSpaceHead(ws[1..]);
    }
  }

  /** Splitting a single-spaced string into words and joining them again is the identity. */
  lemma {:induction false} JoinWordsOfSingleSpaced(s: string)
    requires SingleSpaced(s)
    ensures JoinSpace(Words(s)) == s
    decreases |s|
  {
    if s != [] {
      var c, t := s[0], s[1..];
      assert s == [c] + t;
      if t == [] {
        assert Words(t) == [];
        assert Words(s) == [[c]];
      } else if t[0] != ' ' {
        SingleSpacedTail(s);
        JoinWordsOfSingleSpaced(t);
        WordsOfWordStart(s);
        JoinWithConsChar(c, Words(t), ' ');
      } else {
        var u := t[1..];
        SingleSpacedAfterBlank(s);
        JoinWordsOfSingleSpaced(u);
        WordsAfterBlank(s);
        var ws := Words(u);
        assert ([[c]] + ws)[1..] == ws;
      }
    }
  }

  /** A word character followed by another one starts the first word of the rest. */
  lemma WordsOfWordStart(s: string)
    requires |s| > 1 && !IsSpace(s[0]) && !IsSpace(s[1])
    ensures |Words(s[1..])| > 0
    ensures Words(s) == [[s[0]] + Words(s[1..])[0]] + Words(s[1..])[1..]
  {
  }

  /** A word character followed by a blank is a word of its own, and the blank is dropped. */
  lemma WordsAfterBlank(s: string)
    requires |s| > 2 && !IsSpace(s[0]) && s[1] == ' ' && !IsSpace(s[2])
    ensures |Words(s[2..])| > 0
    ensures Words(s) == [[s[0]]] + Words(s[2..])
  {
    PlainBlank();
    assert s[1..][1..] == s[2..];
  }

  /** Dropping the first character of a single-spaced string whose second one is not a
      blank leaves it single-spaced. */
  lemma SingleSpacedTail(s: string)
    requires SingleSpaced(s) && |s| > 1 && s[1] != ' '
    ensures SingleSpaced(s[1..])
  {
  }

  /** After a single-spaced string's first character and the blank following it comes a
      single-spaced remainder that starts with a non-blank. */
  lemma SingleSpacedAfterBlank(s: string)
    requires SingleSpaced(s) && |s| > 1 && s[1] == ' '
    ensures |s| > 2 && s[2] != ' ' && SingleSpaced(s[2..])
  {
    var u := s[2..];
    forall k | 0 <= k < |u| - 1 && u[k] == ' ' ensures u[k + 1] != ' ' {
      assert s[k + 2] == ' ';
    }
  }

  lemma JoinWithConsChar(c: char, ws: seq<string>, sep: char)
    requires |ws| > 0
    ensures JoinWith([[c] + ws[0]] + ws[1..], sep) == [c] + JoinWith(ws, sep)
  {
    var fields := [[c] + ws[0]] + ws[1..];
    assert fields[1..] == ws[1..];
  }

  /** A trailing whitespace character does not change the words of a string. */
  lemma {:induction false} WordsTrailingSpace(s: string, c: char)
    requires IsSpace(c)
    ensures Words(s + [c]) == Words(s)
  {
    if s != [] {
      WordsTrailingSpace(s[1..], c);
      assert (s + [c])[1..] == s[1..] + [c];
    }
  }

  /** The kind of whitespace does not matter: replacing a whitespace character by another
      one does not change the words. */
  lemma {:induction false} WordsSpaceKind(s: string, k: int, c: char)
    requires 0 <= k < |s| && IsSpace(s[k]) && IsSpace(c)
    ensures Words(s[k := c]) == Words(s)
    decreases k
  {
    var d := s[k := c];
    if k == 0 {
      assert d[1..] == s[1..];
    } else {
      WordsSpaceKind(s[1..], k - 1, c);
      assert d[1..] == s[1..][k - 1 := c];
      assert d[0] == s[0];
    }
  }

  /** Leading whitespace does not change the words. */
  lemma {:induction false} WordsDropsLeadingSpace(s: string, i: int)
    requires 0 <= i <= |s|
    requires forall k | 0 <= k < i :: IsSpace(s[k])
    ensures Words(s) == Words(s[i..])
    decreases i
  {
    if i > 0 {
      var t := s[1..];
      assert forall k | 0 <= k < i - 1 :: t[k] == s[k + 1];
      WordsDropsLeadingSpace(t, i - 1);
      assert t[i - 1..] == s[i..];
    }
  }

  /** Trailing whitespace does not change the words. */
  lemma {:induction false} WordsDropsTrailingSpace(s: string, j: int)
    requires 0 <= j <= |s|
    requires forall k | j <= k < |s| :: IsSpace(s[k])
    ensures Words(s) == Words(s[..j])
    decreases |s| - j
  {
    if j < |s| {
      var t := s[..|s| - 1];
      assert forall k | j <= k < |t| :: t[k] == s[k];
      WordsDropsTrailingSpace(t, j);
      assert t[..j] == s[..j];
      assert s == t + [s[|s| - 1]];
      WordsTrailingSpace(t, s[|s| - 1]);
    } else {
      assert s[..j] == s;
    }
  }

  /** Whitespace around an infix does not change the words: `s.split()` ignores it. */
  lemma WordsIgnoresOuterSpace(s: string, i: int, j: int)
    requires 0 <= i <= j <= |s|
    requires forall k | 0 <= k < i :: IsSpace(s[k])
    requires forall k | j <= k < |s| :: IsSpace(s[k])
    ensures Words(s) == Words(s[i..j])
  {
    var t := s[..j];
    assert forall k | 0 <= k < i :: t[k] == s[k];
    WordsDropsTrailingSpace(s, j);
    WordsDropsLeadingSpace(t, i);
    assert t[i..] == s[i..j];
  }

  /** Repeating a whitespace character does not change the words. */
  lemma {:induction false} WordsRepeatedSpace(s: string, k: int)
    requires 0 <= k < |s| && IsSpace(s[k])
    ensures Words(s[..k + 1] + s[k..]) == Words(s)
    decreases k
  {
    var d := s[..k + 1] + s[k..];
    if k == 0 {
      assert d[1..] == s;
    } else {
      var t := s[1..];
      WordsRepeatedSpace(t, k - 1);
      assert d[1..] == t[..k] + t[k - 1..];
      assert d[0] == s[0] && d[1] == s[1];
    }
  }

  /** Collapsing whitespace never makes a string longer. */
  lemma {:induction false} JoinWordsNoLonger(s: string)
    ensures |JoinSpace(Words(s))| <= |s|
    decreases |s|
  {
    if s != [] {
      var rest := Words(s[1..]);
      if IsSpace(s[0]) {
        JoinWordsNoLonger(s[1..]);
      } else if |s| > 1 && !IsSpace(s[1]) {
        JoinWordsNoLonger(s[1..]);
        JoinWithConsChar(s[0], rest, ' ');
      } else if |s| > 1 {
        JoinWordsNoLonger(s[2..]);
        assert s[1..][1..] == s[2..];
        assert rest == Words(s[2..]);
        if rest != [] {
          assert ([[s[0]]] + rest)[1..] == rest;
        }
      }
    }
  }

  /** A string without the separator is a single field. */
  lemma {:induction false} SplitWithoutSep(s: string, sep: char)
    requires sep !in s
    ensures Split(s, sep) == [s]
  {
    if s != [] {
      SplitWithoutSep(s[1..], sep);
      assert s == [s[0]] + s[1..];
    }
  }

  /** A separator ends the first field. */
  lemma {:induction false} SplitAtSep(a: string, b: string, sep: char)
    requires sep !in a
    ensures Split(a + [sep] + b, sep) == [a] + Split(b, sep)
  {
    if a == [] {
      assert a + [sep] + b == [sep] + b;
      assert ([sep] + b)[1..] == b;
    } else {
      SplitAtSep(a[1..], b, sep);
      assert (a + [sep] + b)[1..] == a[1..] + [sep] + b;
      assert [a[0]] + a[1..] == a;
    }
  }

  /** Splitting the join of fields that do not contain the separator gives the fields
      back: the other half of `SplitJoin`. */
  lemma {:induction false} JoinSplit(fields: seq<string>, sep: char)
    requires |fields| >= 1
    requires forall i | 0 <= i < |fields| :: sep !in fields[i]
    ensures Split(JoinWith(fields, sep), sep) == fields
  {
    if |fields| == 1 {
      SplitWithoutSep(fields[0], sep);
    } else {
      JoinSplit(fields[1..], sep);
      SplitAtSep(fields[0], JoinWith(fields[1..], sep), sep);
      assert [fields[0]] + fields[1..] == fields;
    }
  }

  /** Stripping a string that neither starts nor ends with whitespace leaves it alone. */
  lemma StripOfTrimmed(s: string)
    requires s == [] || (!IsSpace(s[0]) && !IsSpace(s[|s| - 1]))
    ensures Strip(s) == s
  {
  }

  /** Stripping never introduces a character: a character absent from `s` is absent from
      `Strip(s)`. */
  lemma StripKeepsAbsent(s: string, c: char)
    requires c !in s
    ensures c !in Strip(s)
  {
    StripIsTrimmedInfix(s);
    var i, j :| IsTrimmedInfix(s, Strip(s), i, j);
  }
}
