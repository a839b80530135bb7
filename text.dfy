/**
 * `clean_text` of the wine converter: the normalisation applied to every
 * spreadsheet cell and to every column header.
 *
 * A cell is absent (pandas' NaN for an empty cell) or a string. Blank cells
 * (empty, whitespace only, or "nan" in any letter case) clean to "". Otherwise
 * one pair of wrapping double quotes is removed and then either every run of
 * whitespace becomes one space (the default) or, in the multi-line mode used
 * for the harmonization field, line ends are normalised to "\n", every line is
 * stripped and blank lines are dropped.
 */
module TextClean {

  /** A spreadsheet cell. Absent stands for pandas' NaN. */
  datatype Cell = Absent | Text(s: string)

  /** `str(cell)`: NaN prints as "nan". */
  function Str(c: Cell): string {
    if c.Absent? then "nan" else c.s
  }

  /**
   * Python's `str.isspace`, which is also the class `\s` matches and the set
   * `str.strip()` removes.
   */
  predicate IsSpace(c: char) {
    var n := c as int;
    (9 <= n <= 13) || (28 <= n <= 32) || n == 0x85 || n == 0xA0 || n == 0x1680
    || (0x2000 <= n <= 0x200A) || n == 0x2028 || n == 0x2029 || n == 0x202F
    || n == 0x205F || n == 0x3000
  }

  /** Lower-casing of one character, ASCII letters only. */
  function LowerChar(c: char): (r: char)
    ensures 'A' <= c <= 'Z' ==> r as int == c as int + 32
    ensures !('A' <= c <= 'Z') ==> r == c
  {
    if 'A' <= c <= 'Z' then (c as int + 32) as char else c
  }

  /** `str.lower()`, restricted to ASCII letters. */
  function Lower(s: string): (r: string)
    ensures |r| == |s|
  {
    seq(|s|, i requires 0 <= i < |s| => LowerChar(s[i]))
  }

  /** `s.lstrip()`: the suffix left after the leading whitespace. */
  function TrimStart(s: string): (r: string)
    ensures |r| <= |s| && r == s[|s| - |r|..]
    ensures r == [] || !IsSpace(r[0])
  {
    if s != [] && IsSpace(s[0]) then TrimStart(s[1..]) else s
  }

  /** Every character TrimStart drops is whitespace. */
  lemma {:induction false} TrimStartDropsSpaces(s: string)
    ensures forall i :: 0 <= i < |s| - |TrimStart(s)| ==> IsSpace(s[i])
  {
    if s != [] && IsSpace(s[0]) {
      TrimStartDropsSpaces(s[1..]);
      assert forall i :: 1 <= i < |s| - |TrimStart(s)| ==> s[i] == s[1..][i - 1];
    }
  }

  /** `s.rstrip()`: the prefix left before the trailing whitespace. */
  function TrimEnd(s: string): (r: string)
    ensures |r| <= |s| && r == s[..|r|]
    ensures r == [] || !IsSpace(r[|r| - 1])
  {
    if s != [] && IsSpace(s[|s| - 1]) then TrimEnd(s[..|s| - 1]) else s
  }

  /** Every character TrimEnd drops is whitespace. */
  lemma {:induction false} TrimEndDropsSpaces(s: string)
    ensures forall i :: |TrimEnd(s)| <= i < |s| ==> IsSpace(s[i])
  {
    if s != [] && IsSpace(s[|s| - 1]) {
      TrimEndDropsSpaces(s[..|s| - 1]);
    }
  }

  /** No whitespace at either end. */
  predicate Stripped(s: string) {
    s == [] || (!IsSpace(s[0]) && !IsSpace(s[|s| - 1]))
  }

  /** `s.strip()`: s without its leading and trailing whitespace. */
  function Strip(s: string): (r: string)
    ensures |r| <= |s|
    ensures Stripped(r)
  {
    var t := TrimStart(s);
    var r := TrimEnd(t);
    assert r != [] ==> r[0] == t[0];
    r
  }

  /** Strip leaves a slice of s. */
  lemma StripSlice(s: string)
    ensures forall c :: c in Strip(s) ==> c in s
  {
    var t := TrimStart(s);
    var k := |s| - |t|;
    assert Strip(s) == s[k..k + |Strip(s)|];
  }

  /** Strip leaves nothing exactly when s is all whitespace. */
  lemma StripEmpty(s: string)
    ensures Strip(s) == [] <==> forall i :: 0 <= i < |s| ==> IsSpace(s[i])
  {
    var t := TrimStart(s);
    var k := |s| - |t|;
    if Strip(s) == [] {
      TrimStartDropsSpaces(s);
      TrimEndDropsSpaces(t);
      assert |t| == 0;
    } else {
      assert Strip(s)[0] == t[0] == s[k];
    }
  }

  /** A value Strip leaves alone. */
  lemma StripStripped(s: string)
    requires Stripped(s)
    ensures Strip(s) == s
  {
  }

  /**
   * What `str.strip()` means: s is some whitespace, then the stripped text,
   * then some more whitespace.
   */
  lemma StripParts(s: string) returns (a: string, b: string)
    ensures s == a + Strip(s) + b
    ensures forall i :: 0 <= i < |a| ==> IsSpace(a[i])
    ensures forall i :: 0 <= i < |b| ==> IsSpace(b[i])
  {
    var t := TrimStart(s);
    var r := TrimEnd(t);
    assert r == Strip(s);
    a := LeadingSpaces(s);
    b := TrailingSpaces(t);
    Assoc(a, r, b);
  }

  /** The whitespace TrimStart removes. */
  lemma LeadingSpaces(s: string) returns (a: string)
    ensures a + TrimStart(s) == s
    ensures forall i :: 0 <= i < |a| ==> IsSpace(a[i])
  {
    var t := TrimStart(s);
    var k := |s| - |t|;
    a := s[..k];
    assert a + t == s by {
      assert t == s[k..];
    }
    forall i | 0 <= i < |a|
      ensures IsSpace(a[i])
    {
      TrimStartDropsSpaces(s);
      assert a[i] == s[i];
    }
  }

  /** The whitespace TrimEnd removes. */
  lemma TrailingSpaces(t: string) returns (b: string)
    ensures TrimEnd(t) + b == t
    ensures forall i :: 0 <= i < |b| ==> IsSpace(b[i])
  {
    var r := TrimEnd(t);
    TrimEndDropsSpaces(t);
    b := t[|r|..];
    assert r == t[..|r|];
  }

  /** The blank test shared by `clean_text` and `parse_number`. */
  predicate IsBlank(c: Cell) {
    (c.Text? && c.s == []) || Strip(Str(c)) == [] || Lower(Str(c)) == "nan"
  }

  /** Starts and ends with a double quote (one quote alone does both). */
  predicate Quoted(s: string) {
    |s| >= 1 && s[0] == '"' && s[|s| - 1] == '"'
  }

  /** `text[1:-1]` when the text is wrapped in quotes. */
  function Unquote(s: string): (r: string)
    ensures Quoted(s) && |s| >= 2 ==> r == s[1..|s| - 1]
    ensures Quoted(s) && |s| == 1 ==> r == []
    ensures !Quoted(s) ==> r == s
  {
    if Quoted(s) then (if |s| == 1 then [] else s[1..|s| - 1]) else s
  }

  /** Exactly one wrapping pair of quotes comes off, whatever lies inside. */
  lemma UnquoteWrapped(w: string)
    ensures Unquote(['"'] + w + ['"']) == w
  {
    var s := ['"'] + w + ['"'];
    assert s[1..|s| - 1] == w;
  }

  /** `re.sub(r'\s+', ' ', s)`: every maximal whitespace run becomes one space. */
  function CollapseSpaces(s: string): string
    decreases |s|
  {
    if s == [] then []
    else if IsSpace(s[0]) then [' '] + CollapseSpaces(TrimStart(s[1..]))
    else [s[0]] + CollapseSpaces(s[1..])
  }

  /** `re.sub(r'\r\n|\r', '\n', s)`. */
  function NormalizeNewlines(s: string): (r: string)
    ensures '\r' !in r
  {
    if s == [] then []
    else if s[0] == '\r' then
      "\n" + NormalizeNewlines(if |s| > 1 && s[1] == '\n' then s[2..] else s[1..])
    else [s[0]] + NormalizeNewlines(s[1..])
  }

  /** `s.split(sep)`: one more piece than there are separators. */
  function Split(s: string, sep: char): (r: seq<string>)
    ensures |r| >= 1
    ensures forall i :: 0 <= i < |r| ==> sep !in r[i]
  {
    if s == [] then [[]]
    else
      var rest := Split(s[1..], sep);
      if s[0] == sep then [[]] + rest else [[s[0]] + rest[0]] + rest[1..]
  }

  /** `sep.join(ls)`. */
  function Join(ls: seq<string>, sep: char): string {
    if |ls| == 0 then []
    else if |ls| == 1 then ls[0]
    else ls[0] + [sep] + Join(ls[1..], sep)
  }

  /** `[line.strip() for line in ls]`. */
  function StripEach(ls: seq<string>): (r: seq<string>)
    ensures |r| == |ls|
    ensures forall i :: 0 <= i < |ls| ==> r[i] == Strip(ls[i])
  {
    seq(|ls|, i requires 0 <= i < |ls| => Strip(ls[i]))
  }

  /** `[line for line in ls if line]`: the non-empty lines, in order. */
  function NonEmpty(ls: seq<string>): (r: seq<string>)
    ensures |r| <= |ls|
    ensures forall i :: 0 <= i < |r| ==> r[i] != [] && r[i] in ls
    ensures (forall i :: 0 <= i < |ls| ==> ls[i] != []) ==> r == ls
  {
    if ls == [] then []
    else (if ls[0] == [] then [] else [ls[0]]) + NonEmpty(ls[1..])
  }

  /** A line is kept exactly when it is one of the input lines and is not empty. */
  lemma {:induction false} NonEmptyMembers(ls: seq<string>, x: string)
    ensures x in NonEmpty(ls) <==> x in ls && x != []
    decreases |ls|
  {
    if ls != [] {
      NonEmptyMembers(ls[1..], x);
      assert ls == [ls[0]] + ls[1..];
    }
  }

  /** Filtering two blocks of lines gives the two filtered blocks in order. */
  lemma {:induction false} NonEmptyAppend(a: seq<string>, b: seq<string>)
    ensures NonEmpty(a + b) == NonEmpty(a) + NonEmpty(b)
    decreases |a|
  {
    if a != [] {
      NonEmptyAppend(a[1..], b);
      assert (a + b)[1..] == a[1..] + b;
    } else {
      assert a + b == b;
    }
  }

  /** `clean_text(text, preserve_line_breaks)`. */
  function CleanText(c: Cell, preserveLineBreaks: bool): string {
    if IsBlank(c) then []
    else
      var text := Unquote(Str(c));
      if preserveLineBreaks then
        Join(NonEmpty(StripEach(Split(NormalizeNewlines(text), '\n'))), '\n')
      else
        CollapseSpaces(Strip(text))
  }

  // ---------------------------------------------------------------------
  // Reference definitions: words and physical lines
  // ---------------------------------------------------------------------

  /** A non-empty string without whitespace. */
  predicate IsWord(w: string) {
    w != [] && forall i :: 0 <= i < |w| ==> !IsSpace(w[i])
  }

  /** The length of the longest whitespace-free prefix of s. */
  function WordEnd(s: string): (k: nat)
    ensures k <= |s|
    ensures forall i :: 0 <= i < k ==> !IsSpace(s[i])
    ensures k == |s| || IsSpace(s[k])
    ensures s != [] && !IsSpace(s[0]) ==> k >= 1
  {
    if s == [] || IsSpace(s[0]) then 0 else 1 + WordEnd(s[1..])
  }

  /** The maximal whitespace-free runs of s, in order (Python's `s.split()`). */
  function Words(s: string): (ws: seq<string>)
    ensures forall i :: 0 <= i < |ws| ==> IsWord(ws[i])
    decreases |s|
  {
    if s == [] then []
    else if IsSpace(s[0]) then Words(s[1..])
    else
      var k := WordEnd(s);
      [s[..k]] + Words(s[k..])
  }

  /** The physical lines of s, separated by "\r\n", "\r" or "\n". */
  function Lines(s: string): (ls: seq<string>)
    ensures |ls| >= 1
    ensures forall i :: 0 <= i < |ls| ==> '\n' !in ls[i] && '\r' !in ls[i]
  {
    if s == [] then [[]]
    else if s[0] == '\r' && |s| > 1 && s[1] == '\n' then [[]] + Lines(s[2..])
    else if s[0] == '\r' || s[0] == '\n' then [[]] + Lines(s[1..])
    else
      var rest := Lines(s[1..]);
      [[s[0]] + rest[0]] + rest[1..]
  }

  /** The lines the multi-line mode keeps: every non-blank physical line, stripped. */
  function KeptLines(s: string): seq<string> {
    NonEmpty(StripEach(Lines(s)))
  }

  /** Every whitespace character is a lone ' ' strictly inside the string. */
  predicate SingleSpaced(r: string) {
    && Stripped(r)
    && (forall i :: 0 <= i < |r| && IsSpace(r[i]) ==> r[i] == ' ')
    && (forall i :: 0 <= i < |r| - 1 ==> !IsSpace(r[i]) || !IsSpace(r[i + 1]))
  }

  // ---------------------------------------------------------------------
  // Lemmas on words
  // ---------------------------------------------------------------------

  /** Joining one more piece in front. */
  lemma JoinCons(a: string, ls: seq<string>, sep: char)
    requires |ls| >= 1
    ensures Join([a] + ls, sep) == a + [sep] + Join(ls, sep)
  {
    assert ([a] + ls)[1..] == ls;
  }

  /** Regrouping a concatenation of three strings, for the steps that need it spelled out. */
  lemma Assoc(a: string, b: string, c: string)
    ensures a + (b + c) == a + b + c
  {
  }

  lemma {:induction false} WordsTrimStart(s: string)
    ensures Words(TrimStart(s)) == Words(s)
  {
    if s != [] && IsSpace(s[0]) {
      WordsTrimStart(s[1..]);
    }
  }

  lemma {:induction false} WordsOfSpaces(sp: string)
    requires forall i :: 0 <= i < |sp| ==> IsSpace(sp[i])
    ensures Words(sp) == []
  {
    if sp != [] {
      WordsOfSpaces(sp[1..]);
    }
  }

  /** A break right after t does not move the end of t's first word. */
  lemma {:induction false} WordEndAppend(t: string, x: string)
    requires x == [] || IsSpace(x[0])
    ensures WordEnd(t + x) == WordEnd(t)
  {
    if t == [] {
      assert t + x == x;
    } else if !IsSpace(t[0]) {
      assert (t + x)[1..] == t[1..] + x;
      WordEndAppend(t[1..], x);
    }
  }

  /** Trailing whitespace adds no word. */
  lemma {:induction false} WordsAppendSpaces(t: string, sp: string)
    requires forall i :: 0 <= i < |sp| ==> IsSpace(sp[i])
    ensures Words(t + sp) == Words(t)
    decreases |t|
  {
    if t == [] {
      assert t + sp == sp;
      WordsOfSpaces(sp);
    } else if IsSpace(t[0]) {
      assert (t + sp)[1..] == t[1..] + sp;
      WordsAppendSpaces(t[1..], sp);
    } else {
      var k := WordEnd(t);
      WordEndAppend(t, sp);
      assert (t + sp)[..k] == t[..k];
      assert (t + sp)[k..] == t[k..] + sp;
      WordsAppendSpaces(t[k..], sp);
    }
  }

  lemma WordsTrimEnd(s: string)
    ensures Words(TrimEnd(s)) == Words(s)
  {
    var t := TrimEnd(s);
    TrimEndDropsSpaces(s);
    assert s == t + s[|t|..];
    WordsAppendSpaces(t, s[|t|..]);
  }

  /** Python's `s.strip().split()` is `s.split()`. */
  lemma WordsStrip(s: string)
    ensures Words(Strip(s)) == Words(s)
  {
    WordsTrimEnd(TrimStart(s));
    WordsTrimStart(s);
  }

  /** A whitespace-free prefix passes through CollapseSpaces unchanged. */
  lemma {:induction false} CollapsePrefix(t: string, k: nat)
    requires k <= |t|
    requires forall i :: 0 <= i < k ==> !IsSpace(t[i])
    ensures CollapseSpaces(t) == t[..k] + CollapseSpaces(t[k..])
  {
    if k > 0 {
      var r := t[1..];
      CollapsePrefix(r, k - 1);
      assert CollapseSpaces(t) == [t[0]] + CollapseSpaces(r);
      assert r[k - 1..] == t[k..];
      assert [t[0]] + r[..k - 1] == t[..k];
      Assoc([t[0]], r[..k - 1], CollapseSpaces(t[k..]));
    }
  }

  /** On a stripped string, collapsing whitespace joins its words with single spaces. */
  lemma {:induction false} CollapseStripped(t: string)
    requires Stripped(t)
    ensures CollapseSpaces(t) == Join(Words(t), ' ')
    decreases |t|
  {
    if t != [] {
      var k := WordEnd(t);
      if k == |t| {
        WordsOfWord(t);
        CollapsePrefix(t, k);
        assert t[..k] == t && t[k..] == [];
      } else {
        var t' := StrippedRest(t, k);
        CollapseStripped(t');
        CollapseWordThen(t, k, t');
        WordsWordThen(t, k, t');
        JoinCons(t[..k], Words(t'), ' ');
        Assoc(t[..k], [' '], CollapseSpaces(t'));
      }
    }
  }

  /** What follows the first word and its whitespace run, in a stripped string that has a second word. */
  lemma StrippedRest(t: string, k: nat) returns (t': string)
    requires Stripped(t) && t != [] && k == WordEnd(t) < |t|
    ensures t' == TrimStart(t[k + 1..]) && t' != [] && Stripped(t') && |t'| < |t|
  {
    var u := t[k + 1..];
    assert k + 1 < |t|;
    assert u[|u| - 1] == t[|t| - 1];
    t' := TrimStart(u);
    TrimStartDropsSpaces(u);
    assert !IsSpace(u[|u| - 1]);
    assert |t'| >= 1;
    assert t' == u[|u| - |t'|..];
    assert t'[|t'| - 1] == u[|u| - 1];
  }

  lemma CollapseWordThen(t: string, k: nat, t': string)
    requires t != [] && k == WordEnd(t) < |t| - 1 && t' == TrimStart(t[k + 1..])
    ensures CollapseSpaces(t) == t[..k] + ([' '] + CollapseSpaces(t'))
  {
    CollapsePrefix(t, k);
    var v := t[k..];
    assert v[0] == t[k] && IsSpace(v[0]);
    assert v[1..] == t[k + 1..];
    assert CollapseSpaces(v) == [' '] + CollapseSpaces(t');
  }

  lemma WordsWordThen(t: string, k: nat, t': string)
    requires t != [] && !IsSpace(t[0]) && k == WordEnd(t) < |t| - 1 && t' == TrimStart(t[k + 1..]) && t' != []
    ensures Words(t) == [t[..k]] + Words(t') && |Words(t')| >= 1
  {
    var v := t[k..];
    assert Words(t) == [t[..k]] + Words(v);
    assert v[0] == t[k] && IsSpace(v[0]);
    assert v[1..] == t[k + 1..];
    assert Words(v) == Words(t[k + 1..]);
    WordsTrimStart(t[k + 1..]);
    assert !IsSpace(t'[0]);
    assert Words(t') == [t'[..WordEnd(t')]] + Words(t'[WordEnd(t')..]);
  }

  /** The whitespace mode of `clean_text` on an unquoted text is `' '.join(text.split())`. */
  lemma CollapseStripIsJoinWords(s: string)
    ensures CollapseSpaces(Strip(s)) == Join(Words(s), ' ')
  {
    CollapseStripped(Strip(s));
    WordsStrip(s);
  }

  /** A word is its own only word. */
  lemma WordsOfWord(w: string)
    requires IsWord(w)
    ensures Words(w) == [w]
  {
    assert WordEnd(w) == |w|;
    assert w[..|w|] == w && w[|w|..] == [];
  }

  /** A whitespace-free prefix followed by whitespace or the end is the first word. */
  lemma {:induction false} WordEndAt(s: string, k: nat)
    requires k <= |s|
    requires forall i :: 0 <= i < k ==> !IsSpace(s[i])
    requires k == |s| || IsSpace(s[k])
    ensures WordEnd(s) == k
  {
    if k > 0 {
      WordEndAt(s[1..], k - 1);
    }
  }

  /** A word followed by a space: the word comes first, then the words of the rest. */
  lemma WordsOfWordThen(w: string, j: string)
    requires IsWord(w)
    ensures Words(w + [' '] + j) == [w] + Words(j)
  {
    var r := w + [' '] + j;
    assert forall i :: 0 <= i < |w| ==> r[i] == w[i];
    assert r[|w|] == ' ';
    WordEndAt(r, |w|);
    assert r[..|w|] == w;
    assert r[|w|..] == [' '] + j;
    assert ([' '] + j)[1..] == j;
  }

  /** Splitting words joined by single spaces gives the words back. */
  lemma {:induction false} WordsOfJoin(ws: seq<string>)
    requires forall i :: 0 <= i < |ws| ==> IsWord(ws[i])
    ensures Words(Join(ws, ' ')) == ws
  {
    if |ws| == 1 {
      WordsOfWord(ws[0]);
    } else if |ws| >= 2 {
      WordsOfJoin(ws[1..]);
      WordsOfWordThen(ws[0], Join(ws[1..], ' '));
      assert [ws[0]] + ws[1..] == ws;
    }
  }

  /** Words joined by single spaces are single-spaced. */
  lemma {:induction false} JoinWordsSingleSpaced(ws: seq<string>)
    requires forall i :: 0 <= i < |ws| ==> IsWord(ws[i])
    ensures SingleSpaced(Join(ws, ' '))
  {
    if |ws| >= 2 {
      var w := ws[0];
      var j := Join(ws[1..], ' ');
      JoinWordsSingleSpaced(ws[1..]);
      assert j != [] by {
        JoinNonEmpty(ws[1..], ' ');
      }
      var r := w + [' '] + j;
      assert Join(ws, ' ') == r;
      assert forall i :: 0 <= i < |w| ==> r[i] == w[i];
      assert forall i :: |w| < i < |r| ==> r[i] == j[i - |w| - 1];
      assert r[|w|] == ' ';
    }
  }

  /** Non-empty pieces join to a non-empty string. */
  lemma JoinNonEmpty(ls: seq<string>, sep: char)
    requires |ls| >= 1 && ls[0] != []
    ensures Join(ls, sep) != []
  {
  }

  // ---------------------------------------------------------------------
  // Lemmas on lines
  // ---------------------------------------------------------------------

  /** Normalising line ends and splitting at "\n" gives the physical lines. */
  lemma {:induction false} SplitNormalizedIsLines(s: string)
    ensures Split(NormalizeNewlines(s), '\n') == Lines(s)
  {
    if s != [] {
      if s[0] == '\r' || s[0] == '\n' {
        var s' := if s[0] == '\r' && |s| > 1 && s[1] == '\n' then s[2..] else s[1..];
        var n := NormalizeNewlines(s');
        assert NormalizeNewlines(s) == "\n" + n;
        assert ("\n" + n)[1..] == n;
        SplitNormalizedIsLines(s');
      } else {
        var n := NormalizeNewlines(s[1..]);
        assert NormalizeNewlines(s) == [s[0]] + n;
        assert ([s[0]] + n)[1..] == n;
        SplitNormalizedIsLines(s[1..]);
      }
    }
  }

  lemma {:induction false} NormalizeWithoutCr(s: string)
    requires '\r' !in s
    ensures NormalizeNewlines(s) == s
  {
    if s != [] {
      NormalizeWithoutCr(s[1..]);
    }
  }

  lemma {:induction false} SplitWithoutSep(l: string, sep: char)
    requires sep !in l
    ensures Split(l, sep) == [l]
  {
    if l != [] {
      SplitWithoutSep(l[1..], sep);
      assert [l[0]] + l[1..] == l;
    }
  }

  lemma {:induction false} SplitAfterPiece(l: string, sep: char, x: string)
    requires sep !in l
    ensures Split(l + [sep] + x, sep) == [l] + Split(x, sep)
  {
    if l == [] {
      assert l + [sep] + x == [sep] + x;
      assert ([sep] + x)[1..] == x;
    } else {
      assert (l + [sep] + x)[1..] == l[1..] + [sep] + x;
      SplitAfterPiece(l[1..], sep, x);
      assert [l[0]] + l[1..] == l;
    }
  }

  /** Splitting pieces joined by a separator they lack gives the pieces back. */
  lemma {:induction false} SplitOfJoin(ls: seq<string>, sep: char)
    requires |ls| >= 1
    requires forall i :: 0 <= i < |ls| ==> sep !in ls[i]
    ensures Split(Join(ls, sep), sep) == ls
  {
    if |ls| == 1 {
      SplitWithoutSep(ls[0], sep);
    } else {
      SplitAfterPiece(ls[0], sep, Join(ls[1..], sep));
      SplitOfJoin(ls[1..], sep);
    }
  }

  /** A character in a join is a separator or a character of a piece. */
  lemma {:induction false} JoinChars(ls: seq<string>, sep: char, c: char)
    requires c in Join(ls, sep)
    ensures c == sep || exists i :: 0 <= i < |ls| && c in ls[i]
  {
    if c != sep && |ls| >= 2 {
      var j := Join(ls[1..], sep);
      if c in j {
        JoinChars(ls[1..], sep, c);
        var i :| 0 <= i < |ls[1..]| && c in ls[1..][i];
        assert c in ls[i + 1];
      } else {
        assert c in ls[0];
      }
    } else if |ls| == 1 {
      assert c in ls[0];
    }
  }

  /** Joining non-empty stripped pieces gives a stripped string, empty only when there are no pieces. */
  lemma {:induction false} JoinStripped(ls: seq<string>, sep: char)
    requires forall i :: 0 <= i < |ls| ==> ls[i] != [] && Stripped(ls[i])
    ensures Stripped(Join(ls, sep))
    ensures Join(ls, sep) == [] <==> ls == []
  {
    if |ls| >= 2 {
      JoinStripped(ls[1..], sep);
      var j := Join(ls[1..], sep);
      var r := ls[0] + [sep] + j;
      assert r[0] == ls[0][0];
      assert r[|r| - 1] == j[|j| - 1];
    }
  }

  // ---------------------------------------------------------------------
  // Properties of clean_text
  // ---------------------------------------------------------------------

  /** Empty, whitespace-only and "nan" cells (in any letter case) clean to "" in both modes. */
  lemma CleanTextBlank(c: Cell, preserveLineBreaks: bool)
    requires c.Absent? || Strip(c.s) == [] || Lower(c.s) == "nan"
    ensures CleanText(c, preserveLineBreaks) == []
  {
    assert Lower("nan") == "nan";
    assert IsBlank(c);
  }

  /** Examples of blank cells: NaN, "", whitespace, and "nan" in any case. */
  lemma BlankExamples()
    ensures IsBlank(Absent) && IsBlank(Text(""))
    ensures IsBlank(Text(" \t\r\n"))
    ensures IsBlank(Text("NaN")) && IsBlank(Text("NAN"))
  {
    BlankNan();
    BlankWhitespace();
    BlankUpperNan();
  }

  lemma BlankNan()
    ensures IsBlank(Absent) && IsBlank(Text(""))
  {
    assert Lower("nan") == "nan";
  }

  lemma BlankUpperNan()
    ensures IsBlank(Text("NaN")) && IsBlank(Text("NAN"))
  {
    assert Lower("NaN") == "nan";
    assert Lower("NAN") == "nan";
  }

  lemma BlankWhitespace()
    ensures IsBlank(Text(" \t\r\n"))
  {
    var ws := " \t\r\n";
    assert forall i :: 0 <= i < |ws| ==> IsSpace(ws[i]);
    StripEmpty(ws);
  }

  /** A whitespace-free string is left alone by stripping and collapsing. */
  lemma CollapseStripNoSpaces(t: string)
    requires forall i :: 0 <= i < |t| ==> !IsSpace(t[i])
    ensures CollapseSpaces(Strip(t)) == t
  {
    assert Stripped(t);
    StripStripped(t);
    CollapsePrefix(t, |t|);
    assert t[..|t|] == t && t[|t|..] == [];
  }

  /** A non-blank whitespace-free text cleans (in whitespace mode) to its unquoted self. */
  lemma CleanTextNoSpaces(s: string)
    requires s != [] && forall i :: 0 <= i < |s| ==> !IsSpace(s[i])
    requires Lower(s) != "nan"
    ensures CleanText(Text(s), false) == Unquote(s)
  {
    assert Stripped(s);
    StripStripped(s);
    var u := Unquote(s);
    assert forall i :: 0 <= i < |u| ==> u[i] == s[i + |s| - |u| - (if Quoted(s) && |s| >= 2 then 1 else 0)];
    CollapseStripNoSpaces(u);
  }

  /** The "nan" test is made before any stripping: " nan" is not blank. */
  lemma CleanTextNanNotTrimmed()
    ensures CleanText(Text(" nan"), false) == "nan"
  {
    SpacedNanNotBlank();
    SpacedNanWords();
    CleanTextSingleLine(Text(" nan"));
    assert Unquote(" nan") == " nan";
  }

  lemma SpacedNanStrip()
    ensures Strip(" nan") == "nan"
  {
    var s := " nan";
    assert TrimStart("nan") == "nan" by {
      assert !IsSpace("nan"[0]);
    }
    assert TrimEnd("nan") == "nan" by {
      assert !IsSpace("nan"[2]);
    }
    assert TrimStart(s) == "nan" by {
      assert IsSpace(s[0]) && s[1..] == "nan";
    }
  }

  lemma SpacedNanNotBlank()
    ensures !IsBlank(Text(" nan"))
  {
    SpacedNanStrip();
    assert Lower(" nan")[0] == ' ';
  }

  lemma SpacedNanWords()
    ensures Words(" nan") == ["nan"]
  {
    var s := " nan";
    assert IsSpace(s[0]) && s[1..] == "nan";
    WordsOfWord("nan");
  }

  /**
   * The whitespace mode: the result is the words of the unquoted text joined
   * by single spaces, so it has no whitespace at either end and every inner
   * whitespace run has become one ' '.
   */
  lemma CleanTextSingleLine(c: Cell)
    ensures var r := CleanText(c, false);
      && SingleSpaced(r)
      && (!IsBlank(c) ==> r == Join(Words(Unquote(Str(c))), ' '))
  {
    if !IsBlank(c) {
      var u := Unquote(Str(c));
      CollapseStripIsJoinWords(u);
      JoinWordsSingleSpaced(Words(u));
    }
  }

  /**
   * The multi-line mode: the result is the non-blank physical lines of the
   * unquoted text, stripped, in their original order, joined by "\n". It holds
   * no '\r', and splitting it at "\n" gives exactly those lines, none of which
   * is empty or has whitespace at either end.
   */
  lemma CleanTextMultiLine(c: Cell)
    requires !IsBlank(c)
    ensures var r := CleanText(c, true);
      var ls := KeptLines(Unquote(Str(c)));
      && r == Join(ls, '\n')
      && '\r' !in r
      && Stripped(r)
      && (r == [] <==> ls == [])
      && (r != [] ==> Split(r, '\n') == ls)
      && (forall i :: 0 <= i < |ls| ==> ls[i] != [] && Stripped(ls[i]) && '\n' !in ls[i] && '\r' !in ls[i])
  {
    var u := Unquote(Str(c));
    SplitNormalizedIsLines(u);
    KeptLinesClean(u);
    JoinCleanLines(KeptLines(u));
  }

  /** The kept lines are non-empty, stripped, and hold no line break. */
  lemma KeptLinesClean(u: string)
    ensures var ls := KeptLines(u);
      forall i :: 0 <= i < |ls| ==> ls[i] != [] && Stripped(ls[i]) && '\n' !in ls[i] && '\r' !in ls[i]
  {
    var ls := KeptLines(u);
    var stripped := StripEach(Lines(u));
    forall i | 0 <= i < |ls|
      ensures ls[i] != [] && Stripped(ls[i]) && '\n' !in ls[i] && '\r' !in ls[i]
    {
      assert ls[i] in stripped;
      var k :| 0 <= k < |stripped| && stripped[k] == ls[i];
      StripSlice(Lines(u)[k]);
    }
  }

  /** Joining such lines with "\n" gives a stripped text without '\r' that splits back into them. */
  lemma JoinCleanLines(ls: seq<string>)
    requires forall i :: 0 <= i < |ls| ==> ls[i] != [] && Stripped(ls[i]) && '\n' !in ls[i] && '\r' !in ls[i]
    ensures var r := Join(ls, '\n');
      && '\r' !in r
      && Stripped(r)
      && (r == [] <==> ls == [])
      && (r != [] ==> Split(r, '\n') == ls)
  {
    var r := Join(ls, '\n');
    JoinStripped(ls, '\n');
    if '\r' in r {
      JoinChars(ls, '\n', '\r');
      assert false;
    }
    if r != [] {
      SplitOfJoin(ls, '\n');
    }
  }

  /**
   * Exactly one pair of wrapping quotes is removed: a quoted whitespace-free
   * text cleans to its inside, whatever that inside is (even "" or a quoted text).
   */
  lemma CleanTextUnquotesOnce(w: string)
    requires forall i :: 0 <= i < |w| ==> !IsSpace(w[i])
    ensures CleanText(Text(['"'] + w + ['"']), false) == w
  {
    var s := ['"'] + w + ['"'];
    assert Lower(s)[0] == '"';
    assert forall i :: 1 <= i < |s| - 1 ==> s[i] == w[i - 1];
    CleanTextNoSpaces(s);
    assert s[1..|s| - 1] == w;
  }

  /** A cell that is empty once unquoted cleans to "" in both modes. */
  lemma CleanTextEmptyInside(c: Cell, preserveLineBreaks: bool)
    requires Unquote(Str(c)) == []
    ensures CleanText(c, preserveLineBreaks) == []
  {
    assert NormalizeNewlines([]) == [];
    assert Split([], '\n') == [[]];
    assert StripEach([[]]) == [[]];
    assert NonEmpty([[]]) == [];
  }

  /** A lone quote is not blank, but cleans to "" in both modes. */
  lemma LoneQuote()
    ensures !IsBlank(Text("\""))
    ensures CleanText(Text("\""), false) == [] && CleanText(Text("\""), true) == []
  {
    var q := "\"";
    assert Lower(q)[0] == '"';
    assert Stripped(q);
    StripStripped(q);
    assert Unquote(q) == [];
    CleanTextEmptyInside(Text(q), false);
    CleanTextEmptyInside(Text(q), true);
  }

  /**
   * `clean_text` is not idempotent: cleaning a doubly quoted text exposes a
   * new pair of quotes, which a second cleaning removes.
   */
  lemma CleanTextNotIdempotent(w: string)
    requires forall i :: 0 <= i < |w| ==> !IsSpace(w[i])
    ensures var q := ['"'] + w + ['"'];
      && CleanText(Text(['"'] + q + ['"']), false) == q
      && CleanText(Text(q), false) == w != q
  {
    var q := ['"'] + w + ['"'];
    QuotesAddNoSpaces(w);
    CleanTextUnquotesOnce(w);
    CleanTextUnquotesOnce(q);
    assert |q| != |w|;
  }

  lemma QuotesAddNoSpaces(w: string)
    requires forall i :: 0 <= i < |w| ==> !IsSpace(w[i])
    ensures var q := ['"'] + w + ['"'];
      forall i :: 0 <= i < |q| ==> !IsSpace(q[i])
  {
    var q := ['"'] + w + ['"'];
    assert forall i :: 1 <= i < |q| - 1 ==> q[i] == w[i - 1];
  }

  /** A quoted "nan" (in any case) cleans to that "nan", which a second cleaning blanks. */
  lemma CleanTextExposesNan(w: string)
    requires Lower(w) == "nan"
    requires forall i :: 0 <= i < |w| ==> !IsSpace(w[i])
    ensures CleanText(Text(['"'] + w + ['"']), false) == w
    ensures CleanText(Text(w), false) == []
  {
    CleanTextUnquotesOnce(w);
    CleanTextBlank(Text(w), false);
  }

  /** Collapsing leaves alone a text whose whitespace is lone ' ' characters, none of them last. */
  lemma {:induction false} CollapseSpacedTail(s: string)
    requires s == [] || !IsSpace(s[|s| - 1])
    requires forall i :: 0 <= i < |s| && IsSpace(s[i]) ==> s[i] == ' '
    requires forall i :: 0 <= i < |s| - 1 ==> !IsSpace(s[i]) || !IsSpace(s[i + 1])
    ensures CollapseSpaces(s) == s
    decreases |s|
  {
    if s != [] {
      var t := s[1..];
      assert forall i :: 0 <= i < |t| ==> t[i] == s[i + 1];
      if IsSpace(s[0]) {
        assert |s| >= 2 && !IsSpace(t[0]);
        assert TrimStart(t) == t;
      }
      CollapseSpacedTail(t);
    }
  }

  /** A non-blank single-spaced text without wrapping quotes is already clean. */
  lemma CleanTextOfClean(s: string)
    requires s != [] && SingleSpaced(s) && !Quoted(s) && Lower(s) != "nan"
    ensures CleanText(Text(s), false) == s
  {
    StripStripped(s);
    CollapseSpacedTail(s);
  }

  /** A non-empty stripped text that is neither quoted nor "nan" is not blank and is not unquoted. */
  lemma RecleanKeeps(r: string)
    requires r != [] && Stripped(r) && !Quoted(r) && Lower(r) != "nan"
    ensures !IsBlank(Text(r)) && Unquote(Str(Text(r))) == r
  {
    StripStripped(r);
  }

  lemma {:induction false} StripEachStripped(ls: seq<string>)
    requires forall i :: 0 <= i < |ls| ==> Stripped(ls[i])
    ensures StripEach(ls) == ls
  {
    forall i | 0 <= i < |ls|
      ensures StripEach(ls)[i] == ls[i]
    {
      StripStripped(ls[i]);
    }
  }

  lemma IdempotentMultiLine(c: Cell)
    requires !IsBlank(c)
    requires var r := CleanText(c, true); r != [] && !Quoted(r) && Lower(r) != "nan"
    ensures CleanText(Text(CleanText(c, true)), true) == CleanText(c, true)
  {
    var r := CleanText(c, true);
    CleanTextMultiLine(c);
    RecleanKeeps(r);
    var ls := KeptLines(Unquote(Str(c)));
    NormalizeWithoutCr(r);
    assert Split(NormalizeNewlines(r), '\n') == ls;
    StripEachStripped(ls);
    assert NonEmpty(StripEach(ls)) == ls;
  }

  lemma IdempotentSingleLine(c: Cell)
    requires !IsBlank(c)
    requires var r := CleanText(c, false); r != [] && !Quoted(r) && Lower(r) != "nan"
    ensures CleanText(Text(CleanText(c, false)), false) == CleanText(c, false)
  {
    var r := CleanText(c, false);
    CleanTextSingleLine(c);
    RecleanKeeps(r);
    var ws := Words(Unquote(Str(c)));
    CollapseStripIsJoinWords(r);
    WordsOfJoin(ws);
  }

  /**
   * Cleaning is idempotent on every result that does not itself look like a
   * quoted value or a "nan".
   */
  lemma CleanTextIdempotent(c: Cell, preserveLineBreaks: bool)
    requires !Quoted(CleanText(c, preserveLineBreaks))
    requires Lower(CleanText(c, preserveLineBreaks)) != "nan"
    ensures CleanText(Text(CleanText(c, preserveLineBreaks)), preserveLineBreaks) == CleanText(c, preserveLineBreaks)
  {
    var r := CleanText(c, preserveLineBreaks);
    if r == [] {
      assert Text(r) == Text([]);
    } else {
      assert !IsBlank(c);
      if preserveLineBreaks {
        IdempotentMultiLine(c);
      } else {
        IdempotentSingleLine(c);
      }
    }
  }
}
