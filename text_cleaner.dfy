/**
 * The clean-up applied to every OCR result: whitespace runs collapse to one
 * space, seven character confusions are rewritten, and short or
 * punctuation-only lines are dropped.
 *
 * Because whitespace is collapsed before the text is split on newlines, the
 * cleaned text is always a single line; `CleanClosedForm` states this, and
 * the remaining lemmas follow from it.
 */
module TextCleaner {
  import opened PyString

  /** The characters a line may consist of entirely and still be dropped as noise. */
  const NoisePunctuation: string := ".,!?;:()[]{}"

  predicate AllPunctuation(line: string) {
    forall i :: 0 <= i < |line| ==> line[i] in NoisePunctuation
  }

  /** A stripped line survives when it has more than two characters and is not all punctuation. */
  predicate KeepLine(line: string) {
    |line| > 2 && !AllPunctuation(line)
  }

  /** The first four substitutions, which between them leave no `l` behind. */
  function FixDigits(t: string): string {
    var t1 := Replace(t, "|", "I");
    var t2 := Replace(t1, "0", "O");
    var t3 := Replace(t2, "1", "l");
    Replace(t3, "l", "I")
  }

  /** All seven substitutions, in the order the loader applies them. */
  function FixConfusions(t: string): string {
    var t5 := Replace(FixDigits(t), "rn", "m");
    var t6 := Replace(t5, "cl", "d");
    Replace(t6, "vv", "w")
  }

  /** The stripped lines that survive the noise filter, in order. */
  function KeptLines(lines: seq<string>): seq<string>
    decreases |lines|
  {
    if lines == [] then []
    else
      var line := Strip(lines[|lines| - 1]);
      KeptLines(lines[..|lines| - 1]) + (if KeepLine(line) then [line] else [])
  }

  /** The lines that are not blank after stripping, in order. */
  function NonBlankLines(lines: seq<string>): seq<string>
    decreases |lines|
  {
    if lines == [] then []
    else
      var line := lines[|lines| - 1];
      NonBlankLines(lines[..|lines| - 1]) + (if Strip(line) != [] then [line] else [])
  }

  /** The clean-up as a function of the raw OCR text. */
  function Clean(text: string): string {
    if text == [] then text
    else
      var t := FixConfusions(NormalizeSpaces(text));
      var result := Join("\n", KeptLines(Split(t, "\n")));
      Join("\n", NonBlankLines(Split(result, "\n")))
  }

  /** The seven substitutions, one after the other. */
  method FixConfusionsInOrder(text: string) returns (t: string)
    ensures t == FixConfusions(text)
  {
    t := Replace(text, "|", "I");
    t := Replace(t, "0", "O");
    t := Replace(t, "1", "l");
    t := Replace(t, "l", "I");
    t := Replace(t, "rn", "m");
    t := Replace(t, "cl", "d");
    t := Replace(t, "vv", "w");
  }

  /** The line filter as a loop: strip each line, keep it when it passes `KeepLine`. */
  method FilterLines(lines: seq<string>) returns (cleanedLines: seq<string>)
    ensures cleanedLines == KeptLines(lines)
  {
    cleanedLines := [];
    for k := 0 to |lines|
      invariant cleanedLines == KeptLines(lines[..k])
    {
      var line := Strip(lines[k]);
      KeptLinesStep(lines, k);
      if |line| > 2 && !AllPunctuation(line) {
        cleanedLines := cleanedLines + [line];
      }
    }
    assert lines[..|lines|] == lines;
  }

  /** The clean-up step by step. */
  method CleanOcrText(text: string) returns (result: string)
    ensures result == Clean(text)
  {
    if text == [] {
      return text;
    }
    var t := FixConfusionsInOrder(NormalizeSpaces(text));
    var cleanedLines := FilterLines(Split(t, "\n"));
    result := Join("\n", cleanedLines);
    result := Join("\n", NonBlankLines(Split(result, "\n")));
  }

  lemma KeptLinesStep(lines: seq<string>, k: nat)
    requires k < |lines|
    ensures KeptLines(lines[..k + 1]) == KeptLines(lines[..k]) + (if KeepLine(Strip(lines[k])) then [Strip(lines[k])] else [])
  {
    assert lines[..k + 1][..k] == lines[..k];
  }

  /** What holds of the text once whitespace is collapsed and the confusions are fixed. */
  ghost predicate Fixed(s: string) {
    && (forall c :: c in s && IsSpace(c) ==> c == ' ')
    && '|' !in s && '0' !in s && '1' !in s && 'l' !in s
    && NoPair(s, ' ', ' ') && NoPair(s, 'r', 'n') && NoPair(s, 'v', 'v')
  }

  lemma FixedSlice(s: string, i: nat, j: nat)
    requires i <= j <= |s| && Fixed(s)
    ensures Fixed(s[i..j])
  {
    SliceMembers(s, i, j);
    NoPairSlice(s, i, j, ' ', ' ');
    NoPairSlice(s, i, j, 'r', 'n');
    NoPairSlice(s, i, j, 'v', 'v');
  }

  lemma FixedStrip(s: string)
    requires Fixed(s)
    ensures Fixed(Strip(s))
  {
    var k := StripSlice(s);
    FixedSlice(s, k, k + |Strip(s)|);
  }

  /** No `l` survives the first four substitutions. */
  lemma FixDigitsLetters(t: string)
    requires forall c :: c in t && IsSpace(c) ==> c == ' '
    requires NoPair(t, ' ', ' ')
    ensures var u := FixDigits(t);
      && (forall c :: c in u && IsSpace(c) ==> c == ' ')
      && '|' !in u && '0' !in u && '1' !in u && 'l' !in u
      && NoPair(u, ' ', ' ')
  {
    var t1 := Replace(t, "|", "I");
    ReplaceChars(t, "|", "I");
    ReplaceRemovesChar(t, '|', "I");
    ReplaceKeepsNoPair(t, "|", "I", ' ', ' ');
    var t2 := Replace(t1, "0", "O");
    ReplaceChars(t1, "0", "O");
    ReplaceRemovesChar(t1, '0', "O");
    ReplaceKeepsNoPair(t1, "0", "O", ' ', ' ');
    var t3 := Replace(t2, "1", "l");
    ReplaceChars(t2, "1", "l");
    ReplaceRemovesChar(t2, '1', "l");
    ReplaceKeepsNoPair(t2, "1", "l", ' ', ' ');
    var t4 := Replace(t3, "l", "I");
    ReplaceChars(t3, "l", "I");
    ReplaceRemovesChar(t3, 'l', "I");
    ReplaceKeepsNoPair(t3, "l", "I", ' ', ' ');
  }

  /** No text without an `l` contains "cl". */
  lemma NoLetterLNoCl(s: string)
    requires 'l' !in s
    ensures forall i :: !OccursAt(s, "cl", i)
  {
    forall i ensures !OccursAt(s, "cl", i) {
      if 0 <= i && i + 2 <= |s| {
        assert s[i..i + 2][1] == s[i + 1];
      }
    }
  }

  /** The "cl" to "d" rule never changes anything: every `l` has become `I` before it runs. */
  lemma ClRuleNeverFires(t: string)
    ensures Replace(Replace(FixDigits(t), "rn", "m"), "cl", "d") == Replace(FixDigits(t), "rn", "m")
  {
    var t1 := Replace(t, "|", "I");
    var t2 := Replace(t1, "0", "O");
    var t3 := Replace(t2, "1", "l");
    ReplaceRemovesChar(t3, 'l', "I");
    var t5 := Replace(FixDigits(t), "rn", "m");
    ReplaceChars(FixDigits(t), "rn", "m");
    NoLetterLNoCl(t5);
    ReplaceAbsent(t5, "cl", "d");
  }

  lemma FixConfusionsFixed(t: string)
    requires forall c :: c in t && IsSpace(c) ==> c == ' '
    requires NoPair(t, ' ', ' ')
    ensures Fixed(FixConfusions(t))
  {
    var t4 := FixDigits(t);
    FixDigitsLetters(t);
    var t5 := Replace(t4, "rn", "m");
    ReplaceChars(t4, "rn", "m");
    ReplaceRemovesPair(t4, 'r', 'n', "m");
    ReplaceKeepsNoPair(t4, "rn", "m", ' ', ' ');
    ClRuleNeverFires(t);
    var t7 := Replace(t5, "vv", "w");
    ReplaceChars(t5, "vv", "w");
    ReplaceRemovesPair(t5, 'v', 'v', "w");
    ReplaceKeepsNoPair(t5, "vv", "w", ' ', ' ');
    ReplaceKeepsNoPair(t5, "vv", "w", 'r', 'n');
  }

  /** The text the line filter sees is a single line with the confusions fixed. */
  lemma PreparedText(text: string)
    ensures Fixed(FixConfusions(NormalizeSpaces(text)))
  {
    var t := NormalizeSpaces(text);
    NormalizeSpacesNormal(text);
    forall c | c in t && IsSpace(c) ensures c == ' ' {
      var i :| 0 <= i < |t| && t[i] == c;
    }
    FixConfusionsFixed(t);
  }

  lemma ShortLines(s: string)
    requires '\n' !in s
    ensures Split(s, "\n") == [s]
  {
    CharAbsentNoOccurrence(s, '\n');
    SplitAbsent(s, "\n");
  }

  /**
   * The cleaned text is the stripped, fixed text when that survives the noise
   * filter, and empty otherwise.
   */
  lemma CleanClosedForm(text: string)
    requires text != []
    ensures var line := Strip(FixConfusions(NormalizeSpaces(text)));
      Clean(text) == if KeepLine(line) then line else []
  {
    var s := FixConfusions(NormalizeSpaces(text));
    PreparedText(text);
    assert !IsSpace('\n') || '\n' == ' ' ==> '\n' !in s;
    ShortLines(s);
    var line := Strip(s);
    assert [s][..0] == [];
    assert KeptLines([s]) == if KeepLine(line) then [line] else [];
    if KeepLine(line) {
      FixedStrip(s);
      ShortLines(line);
      StripEnds(s);
      StripFixed(line);
      assert [line][..0] == [];
      assert NonBlankLines([line]) == [line];
    } else {
      var empty: string := [];
      assert Split(empty, "\n") == [empty];
      assert [empty][..0] == [];
      assert NonBlankLines([empty]) == [];
    }
  }

  /** The cleaned text is never longer than the raw text. */
  lemma CleanShorter(text: string)
    ensures |Clean(text)| <= |text|
  {
    if text != [] {
      CleanClosedForm(text);
      var t0 := NormalizeSpaces(text);
      NormalizeSpacesShorter(text);
      var t1 := Replace(t0, "|", "I");
      ReplaceShorter(t0, "|", "I");
      var t2 := Replace(t1, "0", "O");
      ReplaceShorter(t1, "0", "O");
      var t3 := Replace(t2, "1", "l");
      ReplaceShorter(t2, "1", "l");
      var t4 := Replace(t3, "l", "I");
      ReplaceShorter(t3, "l", "I");
      var t5 := Replace(t4, "rn", "m");
      ReplaceShorter(t4, "rn", "m");
      var t6 := Replace(t5, "cl", "d");
      ReplaceShorter(t5, "cl", "d");
      ReplaceShorter(t6, "vv", "w");
    }
  }

  /**
   * The cleaned text is empty or one line of more than two characters, not all
   * punctuation, with no surrounding whitespace, no whitespace but single
   * spaces, none of `|`, `0`, `1`, `l`, and no "rn" or "vv" left.
   */
  lemma CleanShape(text: string)
    ensures var r := Clean(text);
      r == [] || (KeepLine(r) && !IsSpace(r[0]) && !IsSpace(r[|r| - 1]) && Fixed(r) && '\n' !in r)
  {
    if text != [] {
      var s := FixConfusions(NormalizeSpaces(text));
      var line := Strip(s);
      CleanClosedForm(text);
      PreparedText(text);
      FixedStrip(s);
      StripEnds(s);
      assert IsSpace('\n');
    }
  }

  /** A fixed text is left alone by every substitution. */
  lemma FixConfusionsOfFixed(s: string)
    requires Fixed(s)
    ensures FixConfusions(s) == s
  {
    CharAbsentNoOccurrence(s, '|');
    ReplaceAbsent(s, "|", "I");
    CharAbsentNoOccurrence(s, '0');
    ReplaceAbsent(s, "0", "O");
    CharAbsentNoOccurrence(s, '1');
    ReplaceAbsent(s, "1", "l");
    CharAbsentNoOccurrence(s, 'l');
    ReplaceAbsent(s, "l", "I");
    NoPairNoOccurrence(s, 'r', 'n');
    ReplaceAbsent(s, "rn", "m");
    NoLetterLNoCl(s);
    ReplaceAbsent(s, "cl", "d");
    NoPairNoOccurrence(s, 'v', 'v');
    ReplaceAbsent(s, "vv", "w");
  }

  /** Cleaning twice gives the same text as cleaning once. */
  lemma CleanIdempotent(text: string)
    ensures Clean(Clean(text)) == Clean(text)
  {
    var r := Clean(text);
    CleanShape(text);
    if r != [] {
      assert SpacesNormal(r) by {
        forall i | 0 <= i < |r| ensures IsSpace(r[i]) ==> r[i] == ' ' {
          assert r[i] in r;
        }
      }
      NormalizeSpacesFixed(r);
      FixConfusionsOfFixed(r);
      StripFixed(r);
      CleanClosedForm(r);
    }
  }
}
