/**
  The Python `str` operations the application relies on, with the exact
  semantics of CPython: `str.isspace`, `strip`, `split()` (no argument),
  `split(sep)`, `sep.join(parts)`, `replace(old, new)` (leftmost,
  non-overlapping), `in` on strings, `endswith`, ASCII `lower`, prefix
  slicing `s[:k]` and `os.path.splitext` for POSIX paths.
*/
module PyString {

  /** The characters CPython's `str.isspace()` accepts; `split()` and `strip()` use the same set. */
  predicate IsSpace(c: char) {
    || c == ' '
    || ('\t' <= c <= '\r')
    || ('\U{1C}' <= c <= '\U{1F}')
    || c == '\U{85}' || c == '\U{A0}' || c == '\U{1680}'
    || ('\U{2000}' <= c <= '\U{200A}')
    || c == '\U{2028}' || c == '\U{2029}' || c == '\U{202F}' || c == '\U{205F}' || c == '\U{3000}'
  }

  // ---------------------------------------------------------------- strip

  /** `s.lstrip()`: drops the leading whitespace. */
  function LStrip(s: string): (r: string)
    ensures |r| <= |s| && r == s[|s| - |r|..]
    ensures r == [] || !IsSpace(r[0])
    decreases |s|
  {
    if |s| > 0 && IsSpace(s[0]) then LStrip(s[1..]) else s
  }

  /**
   * `s.strip()`: drops the leading, then the trailing whitespace. Its
   * properties are separate lemmas (`StripSlice`, `StripEnds`, `StripBlank`),
   * so that each proof brings in only the ones it uses.
   */
  function Strip(s: string): (r: string)
    ensures |r| <= |s|
    decreases |s|
  {
    if |s| > 0 && IsSpace(s[0]) then Strip(s[1..])
    else if |s| > 0 && IsSpace(s[|s| - 1]) then Strip(s[..|s| - 1])
    else s
  }

  lemma SliceOfDrop(s: string, a: nat, b: nat, c: nat)
    requires a <= |s| && b <= c <= |s| - a
    ensures s[a..][b..c] == s[a + b..a + c]
  {
    assert forall i :: 0 <= i < c - b ==> s[a..][b..c][i] == s[a + b + i];
  }

  lemma SliceOfTake(s: string, a: nat, b: nat, c: nat)
    requires a <= |s| && b <= c <= a
    ensures s[..a][b..c] == s[b..c]
  {
    assert forall i :: 0 <= i < c - b ==> s[..a][b..c][i] == s[b + i];
  }

  /** The stripped text is a contiguous slice of the text, starting at `k`. */
  lemma {:induction false} StripSlice(s: string) returns (k: nat)
    ensures k + |Strip(s)| <= |s| && Strip(s) == s[k..k + |Strip(s)|]
    decreases |s|
  {
    var n := |Strip(s)|;
    if |s| > 0 && IsSpace(s[0]) {
      var k' := StripSlice(s[1..]);
      k := k' + 1;
      SliceOfDrop(s, 1, k', k' + n);
    } else if |s| > 0 && IsSpace(s[|s| - 1]) {
      k := StripSlice(s[..|s| - 1]);
      SliceOfTake(s, |s| - 1, k, k + n);
    } else {
      k := 0;
    }
  }

  /** The stripped text neither starts nor ends with whitespace. */
  lemma {:induction false} StripEnds(s: string)
    ensures Strip(s) == [] || (!IsSpace(Strip(s)[0]) && !IsSpace(Strip(s)[|Strip(s)| - 1]))
    decreases |s|
  {
    if |s| > 0 && IsSpace(s[0]) {
      StripEnds(s[1..]);
    } else if |s| > 0 && IsSpace(s[|s| - 1]) {
      StripEnds(s[..|s| - 1]);
    }
  }

  /** The stripped text is empty exactly when the text is all whitespace. */
  lemma {:induction false} StripBlank(s: string)
    ensures Strip(s) == [] <==> forall i :: 0 <= i < |s| ==> IsSpace(s[i])
    decreases |s|
  {
    if |s| > 0 && IsSpace(s[0]) {
      var t := s[1..];
      StripBlank(t);
      assert forall i :: 0 <= i < |t| ==> t[i] == s[i + 1];
      if forall i :: 0 <= i < |t| ==> IsSpace(t[i]) {
        forall i | 0 <= i < |s| ensures IsSpace(s[i]) {
          if i > 0 {
            assert s[i] == t[i - 1];
          }
        }
      }
    } else if |s| > 0 && IsSpace(s[|s| - 1]) {
      var t := s[..|s| - 1];
      StripBlank(t);
      assert t[0] == s[0];
    }
  }

  /** A string with no whitespace at either end is its own `strip()`. */
  lemma StripFixed(s: string)
    requires s == [] || (!IsSpace(s[0]) && !IsSpace(s[|s| - 1]))
    ensures Strip(s) == s
  {
  }

  /** `strip()` is idempotent. */
  lemma StripIdempotent(s: string)
    ensures Strip(Strip(s)) == Strip(s)
  {
    StripEnds(s);
    StripFixed(Strip(s));
  }

  // ---------------------------------------------------------- split / join

  /** `sep.join(parts)`. */
  function Join(sep: string, parts: seq<string>): string
    decreases |parts|
  {
    if |parts| == 0 then ""
    else if |parts| == 1 then parts[0]
    else parts[0] + sep + Join(sep, parts[1..])
  }

  /** `sep` occurs in `s` at index `i`. */
  predicate OccursAt(s: string, sep: string, i: int) {
    0 <= i && i + |sep| <= |s| && s[i..i + |sep|] == sep
  }

  lemma OccursShift(s: string, sep: string, i: int)
    requires |s| > 0 && 0 <= i
    ensures OccursAt(s[1..], sep, i) <==> OccursAt(s, sep, i + 1)
  {
    if i + |sep| <= |s| - 1 {
      assert s[1..][i..i + |sep|] == s[i + 1..i + 1 + |sep|];
    }
  }

  /** `s.find(sep)`: the first index at which `sep` occurs, or -1 (`FindFirst` says it is the first). */
  function Find(s: string, sep: string): (k: int)
    requires |sep| > 0
    ensures k == -1 || OccursAt(s, sep, k)
    decreases |s|
  {
    if |s| < |sep| then -1
    else if s[..|sep|] == sep then 0
    else
      var k := Find(s[1..], sep);
      if k < 0 then -1 else OccursShift(s, sep, k); k + 1
  }

  /** `find` returns -1 only when `sep` does not occur, and otherwise no occurrence comes earlier. */
  lemma {:induction false} FindFirst(s: string, sep: string)
    requires |sep| > 0
    ensures forall i :: OccursAt(s, sep, i) ==> 0 <= Find(s, sep) <= i
    decreases |s|
  {
    if |s| >= |sep| && s[..|sep|] != sep {
      FindFirst(s[1..], sep);
      forall i | OccursAt(s, sep, i) ensures 0 <= Find(s, sep) <= i {
        assert i != 0;
        OccursShift(s, sep, i - 1);
      }
    } else if |s| < |sep| {
      forall i | OccursAt(s, sep, i) ensures false { }
    }
  }

  /** `w in s` for a non-empty `w`. */
  predicate Contains(s: string, w: string)
    requires |w| > 0
  {
    Find(s, w) >= 0
  }

  /** `s.split(sep)` for a non-empty separator: cut at every leftmost, non-overlapping occurrence. */
  function Split(s: string, sep: string): (parts: seq<string>)
    requires |sep| > 0
    ensures |parts| >= 1
    decreases |s|
  {
    var k := Find(s, sep);
    if k < 0 then [s] else [s[..k]] + Split(s[k + |sep|..], sep)
  }

  /** A string in which `sep` does not occur splits into itself alone. */
  lemma SplitAbsent(s: string, sep: string)
    requires |sep| > 0 && forall i :: !OccursAt(s, sep, i)
    ensures Split(s, sep) == [s]
  {
  }

  lemma JoinCons(sep: string, x: string, rest: seq<string>)
    requires |rest| >= 1
    ensures Join(sep, [x] + rest) == x + sep + Join(sep, rest)
  {
    assert ([x] + rest)[1..] == rest;
  }

  lemma SliceAround(s: string, k: nat, n: nat)
    requires k + n <= |s|
    ensures s == s[..k] + s[k..k + n] + s[k + n..]
  {
  }

  /** A split at the first occurrence `k`: the piece before it, then the split of the rest. */
  lemma SplitStep(s: string, sep: string)
    requires |sep| > 0 && Find(s, sep) >= 0
    ensures Split(s, sep) == [s[..Find(s, sep)]] + Split(s[Find(s, sep) + |sep|..], sep)
  {
  }

  /** Cutting `s` around an occurrence of `sep` at `k` and gluing the pieces with `sep` gives `s`. */
  lemma GlueAround(s: string, sep: string, k: nat)
    requires OccursAt(s, sep, k)
    ensures s[..k] + sep + s[k + |sep|..] == s
  {
    SliceAround(s, k, |sep|);
  }

  /** Joining the pieces of a split with the same separator gives back the string. */
  lemma {:induction false} JoinSplit(s: string, sep: string)
    requires |sep| > 0
    ensures Join(sep, Split(s, sep)) == s
    decreases |s|
  {
    var k := Find(s, sep);
    if k >= 0 {
      SplitStep(s, sep);
      var tail := s[k + |sep|..];
      var rest := Split(tail, sep);
      JoinCons(sep, s[..k], rest);
      JoinSplit(tail, sep);
      GlueAround(s, sep, k);
    }
  }

  /** Joining a concatenation of two non-empty lists puts one separator between their joins. */
  lemma {:induction false} JoinConcat(sep: string, a: seq<string>, b: seq<string>)
    requires |a| >= 1 && |b| >= 1
    ensures Join(sep, a + b) == Join(sep, a) + sep + Join(sep, b)
    decreases |a|
  {
    if |a| == 1 {
      assert (a + b)[1..] == b;
    } else {
      JoinConcat(sep, a[1..], b);
      assert (a + b)[1..] == a[1..] + b;
    }
  }

  /**
   * Dropping the middle of a list keeps the join of the first `h` and last `t`
   * parts around one separator; that join is strictly shorter than the whole.
   */
  lemma JoinDropMiddle(sep: string, parts: seq<string>, h: nat, t: nat)
    requires |sep| > 0 && 1 <= h && 1 <= t && h + t < |parts|
    ensures var a := Join(sep, parts[..h]);
      var b := Join(sep, parts[|parts| - t..]);
      var whole := Join(sep, parts);
      && Join(sep, parts[..h] + parts[|parts| - t..]) == a + sep + b
      && a <= whole
      && |b| <= |whole| && whole[|whole| - |b|..] == b
      && |a + sep + b| < |whole|
  {
    var a := parts[..h];
    var m := parts[h..|parts| - t];
    var b := parts[|parts| - t..];
    assert parts == a + (m + b);
    JoinConcat(sep, a, m + b);
    JoinConcat(sep, m, b);
    JoinConcat(sep, a, b);
    JoinPrefix(sep, parts, h);
    JoinSuffix(sep, parts, |parts| - t);
  }

  /** Joining the first `k` parts gives a prefix of the joined whole. */
  lemma JoinPrefix(sep: string, parts: seq<string>, k: nat)
    requires 1 <= k <= |parts|
    ensures Join(sep, parts[..k]) <= Join(sep, parts)
  {
    if k < |parts| {
      JoinConcat(sep, parts[..k], parts[k..]);
      assert parts[..k] + parts[k..] == parts;
    } else {
      assert parts[..k] == parts;
    }
  }

  /** Joining the parts from index `k` on gives a suffix of the joined whole. */
  lemma JoinSuffix(sep: string, parts: seq<string>, k: nat)
    requires k < |parts|
    ensures var t := Join(sep, parts[k..]); |t| <= |Join(sep, parts)| && Join(sep, parts)[|Join(sep, parts)| - |t|..] == t
  {
    if k > 0 {
      JoinConcat(sep, parts[..k], parts[k..]);
      assert parts[..k] + parts[k..] == parts;
    }
  }

  // ------------------------------------------------------ split() with no argument

  /** A maximal run of white space free characters, as `split()` returns them. */
  predicate IsWord(w: string) {
    w != [] && forall i :: 0 <= i < |w| ==> !IsSpace(w[i])
  }

  /** The length of the leading run of non-whitespace characters. */
  function WordLength(s: string): (n: nat)
    ensures n <= |s|
    ensures forall i :: 0 <= i < n ==> !IsSpace(s[i])
    ensures n == |s| || IsSpace(s[n])
    decreases |s|
  {
    if |s| > 0 && !IsSpace(s[0]) then 1 + WordLength(s[1..]) else 0
  }

  /** `s.split()`: the whitespace-separated words of `s`, in order. */
  function SplitWhitespace(s: string): seq<string>
    decreases |s|
  {
    var t := LStrip(s);
    if t == [] then []
    else
      var n := WordLength(t);
      assert n > 0;
      [t[..n]] + SplitWhitespace(t[n..])
  }

  lemma WordsCons(w: string, ws: seq<string>)
    requires IsWord(w) && forall i :: 0 <= i < |ws| ==> IsWord(ws[i])
    ensures forall i :: 0 <= i < |[w] + ws| ==> IsWord(([w] + ws)[i])
  {
    forall i | 0 <= i < |[w] + ws| ensures IsWord(([w] + ws)[i]) {
      if i > 0 { assert ([w] + ws)[i] == ws[i - 1]; }
    }
  }

  /** Every piece `split()` returns is a non-empty word without whitespace. */
  lemma {:induction false} SplitWhitespaceWords(s: string)
    ensures forall i :: 0 <= i < |SplitWhitespace(s)| ==> IsWord(SplitWhitespace(s)[i])
    decreases |s|
  {
    var t := LStrip(s);
    if t != [] {
      var n := WordLength(t);
      SplitWhitespaceWords(t[n..]);
      assert IsWord(t[..n]);
      WordsCons(t[..n], SplitWhitespace(t[n..]));
    }
  }

  /** `' '.join(s.split())`: runs of whitespace collapsed to one space, none at either end. */
  function NormalizeSpaces(s: string): string {
    Join(" ", SplitWhitespace(s))
  }

  /** Two adjacent characters `a`, `b` never occur in this order. */
  ghost predicate NoPair(s: string, a: char, b: char) {
    forall i, j :: 0 <= i && j == i + 1 && j < |s| ==> !(s[i] == a && s[j] == b)
  }

  lemma NoPairAt(s: string, i: nat, a: char, b: char)
    requires NoPair(s, a, b) && i + 1 < |s|
    ensures !(s[i] == a && s[i + 1] == b)
  {
    var j := i + 1;
    assert !(s[i] == a && s[j] == b);
  }

  /** The shape `' '.join(s.split())` produces and keeps. */
  ghost predicate SpacesNormal(s: string) {
    && (forall i :: 0 <= i < |s| && IsSpace(s[i]) ==> s[i] == ' ')
    && NoPair(s, ' ', ' ')
    && (s != [] ==> s[0] != ' ' && s[|s| - 1] != ' ')
  }

  lemma NoPairConcat(x: string, y: string, a: char, b: char)
    requires NoPair(x, a, b) && NoPair(y, a, b)
    requires x != [] && y != [] ==> !(x[|x| - 1] == a && y[0] == b)
    ensures NoPair(x + y, a, b)
  {
    forall i, j | 0 <= i && j == i + 1 && j < |x + y| ensures !((x + y)[i] == a && (x + y)[j] == b) {
      if i < |x| - 1 {
        assert (x + y)[i] == x[i] && (x + y)[j] == x[j];
      } else if i >= |x| {
        assert (x + y)[i] == y[i - |x|] && (x + y)[j] == y[j - |x|];
      }
    }
  }

  lemma SliceMembers(s: string, i: nat, j: nat)
    requires i <= j <= |s|
    ensures forall c :: c in s[i..j] ==> c in s
  {
    forall c | c in s[i..j] ensures c in s {
      var k :| 0 <= k < j - i && s[i..j][k] == c;
      assert s[i + k] == c;
    }
  }

  lemma NoPairSlice(s: string, i: nat, j: nat, a: char, b: char)
    requires i <= j <= |s| && NoPair(s, a, b)
    ensures NoPair(s[i..j], a, b)
  {
    forall k, l | 0 <= k && l == k + 1 && l < j - i ensures !(s[i..j][k] == a && s[i..j][l] == b) {
      assert s[i..j][k] == s[i + k] && s[i..j][l] == s[i + l];
    }
  }

  /** Joining words with single spaces gives a normalised string. */
  lemma {:induction false} JoinWordsNormal(words: seq<string>)
    requires forall i :: 0 <= i < |words| ==> IsWord(words[i])
    ensures SpacesNormal(Join(" ", words))
    ensures words != [] ==> Join(" ", words) != [] && Join(" ", words)[0] == words[0][0]
    decreases |words|
  {
    if |words| == 1 {
      assert NoPair(words[0], ' ', ' ');
    } else if |words| > 1 {
      var w := words[0];
      var j := Join(" ", words[1..]);
      JoinWordsNormal(words[1..]);
      assert NoPair(w, ' ', ' ');
      NoPairConcat(w, " ", ' ', ' ');
      NoPairConcat(w + " ", j, ' ', ' ');
      assert Join(" ", words) == w + " " + j;
      forall i | 0 <= i < |w + " " + j| ensures IsSpace((w + " " + j)[i]) ==> (w + " " + j)[i] == ' ' {
        if i < |w| { assert (w + " " + j)[i] == w[i]; }
        else if i > |w| { assert (w + " " + j)[i] == j[i - |w| - 1]; }
      }
    }
  }

  /** `' '.join(s.split())` always yields a normalised string. */
  lemma NormalizeSpacesNormal(s: string)
    ensures SpacesNormal(NormalizeSpaces(s))
  {
    SplitWhitespaceWords(s);
    JoinWordsNormal(SplitWhitespace(s));
  }

  lemma SplitWhitespaceLeadingSpace(u: string)
    requires u != [] && IsSpace(u[0])
    ensures SplitWhitespace(u) == SplitWhitespace(u[1..])
  {
    assert LStrip(u) == LStrip(u[1..]);
  }

  /** `' '.join(s.split())` never lengthens a string. */
  lemma {:induction false} NormalizeSpacesShorter(s: string)
    ensures |NormalizeSpaces(s)| <= |s|
    decreases |s|
  {
    var t := LStrip(s);
    if t != [] {
      var n := WordLength(t);
      var u := t[n..];
      assert SplitWhitespace(s) == [t[..n]] + SplitWhitespace(u);
      if SplitWhitespace(u) != [] {
        assert u != [] && IsSpace(u[0]);
        SplitWhitespaceLeadingSpace(u);
        NormalizeSpacesShorter(u[1..]);
        assert ([t[..n]] + SplitWhitespace(u))[1..] == SplitWhitespace(u);
        assert NormalizeSpaces(s) == t[..n] + " " + NormalizeSpaces(u[1..]);
      }
    }
  }

  lemma SplitWhitespaceAfterSpace(s: string, n: nat)
    requires n < |s| && IsSpace(s[n])
    ensures SplitWhitespace(s[n..]) == SplitWhitespace(s[n + 1..])
  {
    assert s[n..][1..] == s[n + 1..];
    SplitWhitespaceLeadingSpace(s[n..]);
  }

  lemma SpaceAt(s: string, n: nat)
    requires n < |s| && s[n] == ' '
    ensures s == s[..n] + " " + s[n + 1..]
  {
    assert s == s[..n] + [s[n]] + s[n + 1..];
  }

  lemma SplitWhitespaceWordFirst(s: string)
    requires s != [] && !IsSpace(s[0])
    ensures SplitWhitespace(s) == [s[..WordLength(s)]] + SplitWhitespace(s[WordLength(s)..])
  {
    assert LStrip(s) == s;
  }

  lemma SpacesOnlyBlankSlice(s: string, k: nat)
    requires k <= |s| && forall i :: 0 <= i < |s| && IsSpace(s[i]) ==> s[i] == ' '
    ensures forall i :: 0 <= i < |s[k..]| && IsSpace(s[k..][i]) ==> s[k..][i] == ' '
  {
    forall i | 0 <= i < |s[k..]| ensures IsSpace(s[k..][i]) ==> s[k..][i] == ' ' {
      assert s[k..][i] == s[k + i];
    }
  }

  /** In a normalised string, a whitespace character is a single space between two words. */
  lemma NormalSpaceAt(s: string, n: nat)
    requires SpacesNormal(s) && n < |s| && IsSpace(s[n])
    ensures n + 1 < |s| && s[n] == ' ' && !IsSpace(s[n + 1])
  {
    NoPairAt(s, n, ' ', ' ');
  }

  /** A normalised string stays normalised from any non-space character on. */
  lemma NormalSuffix(s: string, k: nat)
    requires SpacesNormal(s) && k < |s| && !IsSpace(s[k])
    ensures SpacesNormal(s[k..])
  {
    NoPairSlice(s, k, |s|, ' ', ' ');
    SpacesOnlyBlankSlice(s, k);
  }

  /** In a normalised string, a word that stops before the end is followed by one space
      and a normalised, non-empty rest. */
  lemma NormalAfterWord(s: string, n: nat)
    requires SpacesNormal(s) && n == WordLength(s) && n < |s|
    ensures n + 1 < |s| && s[n] == ' ' && !IsSpace(s[n + 1])
    ensures SpacesNormal(s[n + 1..])
  {
    NormalSpaceAt(s, n);
    NormalSuffix(s, n + 1);
  }

  /** A normalised string splits into its first word, one space and a normalised, non-empty rest. */
  lemma NormalizeSpacesStep(s: string, n: nat)
    requires SpacesNormal(s) && s != [] && n == WordLength(s) && n < |s|
    ensures n + 1 < |s| && SpacesNormal(s[n + 1..])
    ensures NormalizeSpaces(s) == s[..n] + " " + NormalizeSpaces(s[n + 1..])
  {
    assert !IsSpace(s[0]);
    SplitWhitespaceWordFirst(s);
    NormalAfterWord(s, n);
    var rest := s[n + 1..];
    SplitWhitespaceAfterSpace(s, n);
    SplitWhitespaceWordFirst(rest);
    JoinCons(" ", s[..n], SplitWhitespace(rest));
  }

  /** A normalised string is left unchanged by `' '.join(s.split())`. */
  lemma {:induction false} NormalizeSpacesFixed(s: string)
    requires SpacesNormal(s)
    ensures NormalizeSpaces(s) == s
    decreases |s|
  {
    if s != [] {
      assert !IsSpace(s[0]);
      var n := WordLength(s);
      if n < |s| {
        NormalizeSpacesStep(s, n);
        NormalizeSpacesFixed(s[n + 1..]);
        SpaceAt(s, n);
      } else {
        NormalizeSpacesOneWord(s);
      }
    }
  }

  /** A single word is its own normal form. */
  lemma NormalizeSpacesOneWord(s: string)
    requires s != [] && !IsSpace(s[0]) && WordLength(s) == |s|
    ensures NormalizeSpaces(s) == s
  {
    SplitWhitespaceWordFirst(s);
    assert s[|s|..] == [] && s[..|s|] == s;
    assert SplitWhitespace([]) == [];
  }

  // ---------------------------------------------------------------- replace

  /** `s.replace(pat, rep)`: every leftmost, non-overlapping occurrence of `pat` replaced. */
  function Replace(s: string, pat: string, rep: string): string
    requires |pat| > 0
    decreases |s|
  {
    if |s| < |pat| then s
    else if s[..|pat|] == pat then rep + Replace(s[|pat|..], pat, rep)
    else [s[0]] + Replace(s[1..], pat, rep)
  }

  /** A replacement no longer than the pattern never lengthens the string. */
  lemma {:induction false} ReplaceShorter(s: string, pat: string, rep: string)
    requires |pat| > 0 && |rep| <= |pat|
    ensures |Replace(s, pat, rep)| <= |s|
    decreases |s|
  {
    if |s| >= |pat| {
      if s[..|pat|] == pat { ReplaceShorter(s[|pat|..], pat, rep); }
      else { ReplaceShorter(s[1..], pat, rep); }
    }
  }

  /** Every character of the result comes from the input or from the replacement. */
  lemma {:induction false} ReplaceChars(s: string, pat: string, rep: string)
    requires |pat| > 0
    ensures forall c :: c in Replace(s, pat, rep) ==> c in s || c in rep
    decreases |s|
  {
    if |s| >= |pat| {
      if s[..|pat|] == pat {
        var t := s[|pat|..];
        ReplaceChars(t, pat, rep);
        assert forall c :: c in t ==> c in s;
      } else {
        var t := s[1..];
        ReplaceChars(t, pat, rep);
        assert forall c :: c in t ==> c in s;
      }
    }
  }

  /** With a one-character replacement, the result is empty exactly when the input is,
      and starts with the input's first character or with the replacement. */
  lemma ReplaceHead(s: string, pat: string, rep: string)
    requires |pat| > 0 && |rep| == 1
    ensures (Replace(s, pat, rep) == []) == (s == [])
    ensures s != [] ==> Replace(s, pat, rep)[0] == s[0] || Replace(s, pat, rep)[0] == rep[0]
  {
  }

  /** Replacing a character by a string without it leaves no occurrence of it. */
  lemma {:induction false} ReplaceRemovesChar(s: string, c: char, rep: string)
    requires c !in rep
    ensures c !in Replace(s, [c], rep)
    decreases |s|
  {
    if |s| >= 1 {
      if s[..1] == [c] { ReplaceRemovesChar(s[1..], c, rep); }
      else {
        ReplaceRemovesChar(s[1..], c, rep);
        assert s[0] != c;
      }
    }
  }

  /** Replacing a two-character pattern by one character foreign to it leaves no occurrence of the pattern. */
  lemma {:induction false} ReplaceRemovesPair(s: string, a: char, b: char, rep: string)
    requires |rep| == 1 && rep[0] != a && rep[0] != b
    ensures NoPair(Replace(s, [a, b], rep), a, b)
    decreases |s|
  {
    if |s| < 2 {
    } else if s[..2] == [a, b] {
      ReplaceRemovesPair(s[2..], a, b, rep);
      NoPairConcat(rep, Replace(s[2..], [a, b], rep), a, b);
    } else {
      var t := s[1..];
      ReplaceRemovesPair(t, a, b, rep);
      ReplaceHead(t, [a, b], rep);
      assert s[..2] == [s[0], s[1]];
      NoPairConcat([s[0]], Replace(t, [a, b], rep), a, b);
    }
  }

  /** A one-character replacement foreign to `a` and `b` cannot create the pair `a b`. */
  lemma {:induction false} ReplaceKeepsNoPair(s: string, pat: string, rep: string, a: char, b: char)
    requires |pat| > 0 && |rep| == 1 && rep[0] != a && rep[0] != b
    requires NoPair(s, a, b)
    ensures NoPair(Replace(s, pat, rep), a, b)
    decreases |s|
  {
    if |s| < |pat| {
    } else if s[..|pat|] == pat {
      NoPairSlice(s, |pat|, |s|, a, b);
      ReplaceKeepsNoPair(s[|pat|..], pat, rep, a, b);
      NoPairConcat(rep, Replace(s[|pat|..], pat, rep), a, b);
    } else {
      var t := s[1..];
      NoPairSlice(s, 1, |s|, a, b);
      ReplaceKeepsNoPair(t, pat, rep, a, b);
      ReplaceHead(t, pat, rep);
      if |s| > 1 { NoPairAt(s, 0, a, b); }
      NoPairConcat([s[0]], Replace(t, pat, rep), a, b);
    }
  }

  /** A pattern that does not occur leaves the string unchanged. */
  lemma {:induction false} ReplaceAbsent(s: string, pat: string, rep: string)
    requires |pat| > 0 && forall i :: !OccursAt(s, pat, i)
    ensures Replace(s, pat, rep) == s
    decreases |s|
  {
    if |s| >= |pat| {
      assert !OccursAt(s, pat, 0);
      forall i ensures !OccursAt(s[1..], pat, i) {
        if i >= 0 { OccursShift(s, pat, i); }
      }
      ReplaceAbsent(s[1..], pat, rep);
    }
  }

  lemma CharAbsentNoOccurrence(s: string, c: char)
    requires c !in s
    ensures forall i :: !OccursAt(s, [c], i)
  {
    forall i ensures !OccursAt(s, [c], i) {
      if 0 <= i && i + 1 <= |s| { assert s[i..i + 1] == [s[i]]; }
    }
  }

  lemma NoPairNoOccurrence(s: string, a: char, b: char)
    requires NoPair(s, a, b)
    ensures forall i :: !OccursAt(s, [a, b], i)
  {
    forall i ensures !OccursAt(s, [a, b], i) {
      if 0 <= i && i + 2 <= |s| {
        assert s[i..i + 2] == [s[i], s[i + 1]];
        NoPairAt(s, i, a, b);
      }
    }
  }

  // ------------------------------------------------------------ small helpers

  /** What follows a prefix `h` in `h + x` is `x`. */
  lemma Splice(h: string, x: string)
    ensures h <= h + x
    ensures (h + x)[|h|..] == x
  {
  }

  /** `s.endswith(t)`. */
  predicate EndsWith(s: string, t: string) {
    |t| <= |s| && s[|s| - |t|..] == t
  }

  function LowerChar(c: char): char {
    if 'A' <= c <= 'Z' then (c as int + 32) as char else c
  }

  /** `s.lower()` restricted to ASCII letters. */
  function Lower(s: string): (r: string)
    ensures |r| == |s| && forall i :: 0 <= i < |s| ==> r[i] == LowerChar(s[i])
  {
    seq(|s|, i requires 0 <= i < |s| => LowerChar(s[i]))
  }

  /** Lowering keeps an extension's shape (a dot, then no dot) and leaves no upper-case letter. */
  lemma LowerSuffixShape(ext: string)
    requires ext == [] || (ext[0] == '.' && '.' !in ext[1..])
    ensures var l := Lower(ext); l == [] || (l[0] == '.' && '.' !in l[1..])
    ensures forall i :: 0 <= i < |Lower(ext)| ==> !('A' <= Lower(ext)[i] <= 'Z')
  {
    var l := Lower(ext);
    if ext != [] {
      forall i | 1 <= i < |l| ensures l[i] != '.' {
        assert ext[1..][i - 1] == ext[i];
      }
      assert forall c :: c in l[1..] ==> c != '.';
    }
  }

  /** Python's `s[:k]` for any integer `k` (a negative `k` counts from the end). */
  function PrefixSlice(s: string, k: int): (r: string)
    ensures r <= s
    ensures k >= 0 ==> |r| == if k < |s| then k else |s|
  {
    if k >= 0 then (if k < |s| then s[..k] else s)
    else if |s| + k > 0 then s[..|s| + k] else ""
  }

  /** `s.rfind(c)`. */
  function RFind(s: string, c: char): (k: int)
    ensures -1 <= k < |s|
    ensures k >= 0 ==> s[k] == c
    decreases |s|
  {
    if |s| == 0 then -1
    else if s[|s| - 1] == c then |s| - 1
    else RFind(s[..|s| - 1], c)
  }

  /** No occurrence of `c` follows the one `rfind` reports. */
  lemma {:induction false} RFindLast(s: string, c: char)
    ensures forall i :: 0 <= i < |s| && RFind(s, c) < i ==> s[i] != c
    decreases |s|
  {
    if |s| > 0 && s[|s| - 1] != c {
      RFindLast(s[..|s| - 1], c);
      assert forall i :: 0 <= i < |s| - 1 ==> s[..|s| - 1][i] == s[i];
    }
  }

  /** `rfind` reports the last occurrence: the one no later position repeats. */
  lemma {:induction false} RFindAt(s: string, c: char, k: int)
    requires -1 <= k < |s| && (k >= 0 ==> s[k] == c)
    requires forall i :: 0 <= i < |s| && k < i ==> s[i] != c
    ensures RFind(s, c) == k
    decreases |s|
  {
    if |s| > 0 && s[|s| - 1] != c {
      var init := s[..|s| - 1];
      assert forall i :: 0 <= i < |init| && k < i ==> init[i] != c by {
        forall i | 0 <= i < |init| && k < i ensures init[i] != c {
          assert init[i] == s[i];
        }
      }
      RFindAt(init, c, k);
    }
  }

  /** `s[lo..hi]` consists of dots only. */
  predicate OnlyDots(s: string, lo: int, hi: int)
    requires 0 <= lo && hi <= |s|
    decreases hi - lo
  {
    lo >= hi || (s[lo] == '.' && OnlyDots(s, lo + 1, hi))
  }

  /** `os.path.splitext(path)[1]` for POSIX paths: the suffix from the last dot of the
      last path component, unless that component consists of dots up to it. */
  function SplitExt(path: string): (ext: string)
    ensures |ext| <= |path| && ext == path[|path| - |ext|..]
    ensures ext == [] || (ext[0] == '.' && '.' !in ext[1..] && '/' !in ext)
    ensures var sep := RFind(path, '/'); var dot := RFind(path, '.');
      ext != [] <==> dot > sep && !OnlyDots(path, sep + 1, dot)
    ensures ext != [] ==> ext == path[RFind(path, '.')..]
  {
    var sepIndex := RFind(path, '/');
    var dotIndex := RFind(path, '.');
    if dotIndex > sepIndex && !OnlyDots(path, sepIndex + 1, dotIndex) then
      RFindLast(path, '/');
      RFindLast(path, '.');
      SuffixAfterLastDot(path, dotIndex, sepIndex);
      path[dotIndex..]
    else ""
  }

  /** The suffix from the last dot, after the last slash, holds one dot, in front, and no slash. */
  lemma SuffixAfterLastDot(path: string, dot: int, sep: int)
    requires sep < dot < |path| && 0 <= dot && path[dot] == '.'
    requires forall i :: 0 <= i < |path| && dot < i ==> path[i] != '.'
    requires forall i :: 0 <= i < |path| && sep < i ==> path[i] != '/'
    ensures path[dot..][0] == '.' && '.' !in path[dot..][1..] && '/' !in path[dot..]
  {
    var ext := path[dot..];
    assert forall j :: 0 <= j < |ext| ==> ext[j] == path[dot + j];
    assert forall j :: 0 <= j < |ext[1..]| ==> ext[1..][j] == path[dot + 1 + j];
  }

  /** Decimal rendering of a natural number, as `f"{n}"`. */
  function NatToString(n: nat): (r: string)
    ensures r != []
    decreases n
  {
    var d := ['0', '1', '2', '3', '4', '5', '6', '7', '8', '9'][n % 10];
    if n < 10 then [d] else NatToString(n / 10) + [d]
  }
}
