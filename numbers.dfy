/**
 * `parse_number`: a cell is turned into an optional integer (a harvest year
 * or a plain number) or, in the float mode used for the alcohol level, into
 * an optional fraction.
 */
module Numbers {
  import opened Options
  import opened TextClean

  // ---------------------------------------------------------------------
  // Digits
  // ---------------------------------------------------------------------

  /** An ASCII decimal digit, the characters `\d` matches here. */
  predicate IsDigit(c: char) {
    '0' <= c <= '9'
  }

  /** A character `\w` matches (ASCII letters, digits and '_'). */
  predicate IsWordChar(c: char) {
    IsDigit(c) || 'a' <= c <= 'z' || 'A' <= c <= 'Z' || c == '_'
  }

  predicate AllDigits(s: string) {
    forall i :: 0 <= i < |s| ==> IsDigit(s[i])
  }

  function DigitValue(c: char): (d: nat)
    requires IsDigit(c)
    ensures d < 10
  {
    c as int - '0' as int
  }

  function DigitChar(d: nat): (c: char)
    requires d < 10
    ensures IsDigit(c) && DigitValue(c) == d
  {
    ('0' as int + d) as char
  }

  function Pow10(n: nat): (p: nat)
    ensures p >= 1
  {
    if n == 0 then 1 else 10 * Pow10(n - 1)
  }

  /** The value of a run of decimal digits, most significant first (`int(s)`). */
  function DigitsValue(s: string): (n: nat)
    requires AllDigits(s)
    ensures n < Pow10(|s|)
  {
    if s == [] then 0 else DigitsValue(s[..|s| - 1]) * 10 + DigitValue(s[|s| - 1])
  }

  /** The last `width` decimal digits of n, zero-padded on the left. */
  function DigitsOf(n: nat, width: nat): (s: string)
    ensures |s| == width && AllDigits(s)
  {
    if width == 0 then [] else DigitsOf(n / 10, width - 1) + [DigitChar(n % 10)]
  }

  /** Rendering a value in enough digits and reading it back gives the value. */
  lemma {:induction false} DigitsOfValue(n: nat, width: nat)
    requires n < Pow10(width)
    ensures DigitsValue(DigitsOf(n, width)) == n
  {
    if width > 0 {
      DigitsOfValue(n / 10, width - 1);
      var s := DigitsOf(n, width);
      assert s[..|s| - 1] == DigitsOf(n / 10, width - 1);
    }
  }

  /** Reading a digit run and rendering it in as many digits gives the run back, leading zeros included. */
  lemma {:induction false} ValueDigitsOf(s: string)
    requires AllDigits(s)
    ensures DigitsOf(DigitsValue(s), |s|) == s
  {
    if s != [] {
      var init := s[..|s| - 1];
      var n := DigitsValue(s);
      ValueDigitsOf(init);
      assert n / 10 == DigitsValue(init) && n % 10 == DigitValue(s[|s| - 1]);
      assert DigitChar(n % 10) == s[|s| - 1];
      assert init + [s[|s| - 1]] == s;
    }
  }

  /** The length of the longest digit prefix of s. */
  function DigitRun(s: string): (k: nat)
    ensures k <= |s| && AllDigits(s[..k])
    ensures k == |s| || !IsDigit(s[k])
  {
    if s == [] || !IsDigit(s[0]) then 0
    else
      var k := 1 + DigitRun(s[1..]);
      assert s[..k] == [s[0]] + s[1..][..k - 1];
      k
  }

  lemma {:induction false} DigitRunAt(s: string, k: nat)
    requires k <= |s| && AllDigits(s[..k])
    requires k == |s| || !IsDigit(s[k])
    ensures DigitRun(s) == k
  {
    if k > 0 {
      assert IsDigit(s[..k][0]);
      assert s[1..][..k - 1] == s[1..k];
      DigitRunAt(s[1..], k - 1);
    }
  }

  // ---------------------------------------------------------------------
  // The harvest-year search: re.search(r'\b(\d{4})\b', text)
  // ---------------------------------------------------------------------

  /** Four digits at i, with no word character just before or just after them. */
  predicate YearAt(s: string, i: nat) {
    i + 4 <= |s| && AllDigits(s[i..i + 4])
    && (i == 0 || !IsWordChar(s[i - 1]))
    && (i + 4 == |s| || !IsWordChar(s[i + 4]))
  }

  /** The leftmost position at or after i where a year starts. */
  function FindYearFrom(s: string, i: nat): (r: Option<nat>)
    ensures r.Some? ==> i <= r.value && YearAt(s, r.value)
    ensures r.Some? ==> forall j :: i <= j < r.value ==> !YearAt(s, j)
    ensures r.None? ==> forall j :: i <= j ==> !YearAt(s, j)
    decreases |s| - i
  {
    if i + 4 > |s| then None
    else if YearAt(s, i) then Some(i)
    else FindYearFrom(s, i + 1)
  }

  function FindYear(s: string): Option<nat> {
    FindYearFrom(s, 0)
  }

  function YearValue(s: string, i: nat): (v: nat)
    requires YearAt(s, i)
    ensures v < 10000
  {
    assert Pow10(4) == 10000;
    DigitsValue(s[i..i + 4])
  }

  // ---------------------------------------------------------------------
  // Decimal literals: the part of `float()` the fallback relies on
  // ---------------------------------------------------------------------

  datatype Sign = NoSign | Plus | Minus

  /** An optionally signed decimal: whole digits, then optionally '.' and fraction digits. */
  datatype Decimal = Decimal(sign: Sign, whole: string, point: bool, frac: string)

  /** At least one digit in all; fraction digits only after a point. */
  predicate WellFormed(d: Decimal) {
    AllDigits(d.whole) && AllDigits(d.frac)
    && (d.point || d.frac == [])
    && (d.whole != [] || d.frac != [])
  }

  function SignText(sg: Sign): string {
    match sg
    case NoSign => []
    case Plus => "+"
    case Minus => "-"
  }

  /** The text of a decimal literal. */
  function Render(d: Decimal): string {
    SignText(d.sign) + (d.whole + (PointText(d.point) + d.frac))
  }

  function PointText(point: bool): string {
    if point then "." else []
  }

  /** The optional sign of s and what follows it. */
  function SplitSign(s: string): (Sign, string) {
    if s != [] && s[0] == '+' then (Plus, s[1..])
    else if s != [] && s[0] == '-' then (Minus, s[1..])
    else (NoSign, s)
  }

  /** Reads the whole of s as a decimal literal, or fails. */
  function ParseDecimal(s: string): (r: Option<Decimal>)
    ensures r.Some? ==> WellFormed(r.value)
  {
    var (sg, body) := SplitSign(s);
    var k := DigitRun(body);
    var whole := body[..k];
    var rest := body[k..];
    if rest == [] then
      if whole == [] then None else Some(Decimal(sg, whole, false, []))
    else if rest[0] == '.' && AllDigits(rest[1..]) && (whole != [] || |rest| > 1) then
      Some(Decimal(sg, whole, true, rest[1..]))
    else None
  }

  lemma SplitSignRender(d: Decimal)
    requires WellFormed(d)
    ensures SplitSign(Render(d)) == (d.sign, d.whole + (PointText(d.point) + d.frac))
  {
    var tail := d.whole + (PointText(d.point) + d.frac);
    assert Render(d) == SignText(d.sign) + tail;
    if d.sign == NoSign {
      assert Render(d) == tail;
      if tail != [] {
        assert tail[0] == '.' || IsDigit(tail[0]);
      }
    } else {
      assert Render(d)[1..] == tail;
    }
  }

  lemma SplitSignText(s: string)
    ensures SignText(SplitSign(s).0) + SplitSign(s).1 == s
  {
  }

  /** A parsed decimal renders back to the text it was read from. */
  lemma ParseDecimalSound(s: string)
    requires ParseDecimal(s).Some?
    ensures Render(ParseDecimal(s).value) == s
  {
    ParseDecimalParts(s);
    SplitSignText(s);
  }

  /** The sign of a parsed decimal is the text's sign, and its parts spell the rest. */
  lemma ParseDecimalParts(s: string)
    requires ParseDecimal(s).Some?
    ensures var d := ParseDecimal(s).value;
      d.sign == SplitSign(s).0 && d.whole + (PointText(d.point) + d.frac) == SplitSign(s).1
  {
    var body := SplitSign(s).1;
    var k := DigitRun(body);
    var d := ParseDecimal(s).value;
    assert d.whole == body[..k];
    PointRest(body[k..], d.point, d.frac);
    assert body == d.whole + body[k..];
  }

  /** What follows the whole digits of a parsed decimal: nothing, or a point and the fraction. */
  lemma PointRest(rest: string, point: bool, frac: string)
    requires (rest == [] && !point && frac == []) || (rest != [] && rest[0] == '.' && point && frac == rest[1..])
    ensures rest == PointText(point) + frac
  {
    if rest != [] {
      assert rest == [rest[0]] + rest[1..];
    }
  }

  /** Every well-formed decimal is read back from its rendering. */
  lemma ParseDecimalComplete(d: Decimal)
    requires WellFormed(d)
    ensures ParseDecimal(Render(d)) == Some(d)
  {
    SplitSignRender(d);
    var body := d.whole + (PointText(d.point) + d.frac);
    assert body[..|d.whole|] == d.whole;
    DigitRunAt(body, |d.whole|);
    var rest := body[|d.whole|..];
    assert rest == PointText(d.point) + d.frac;
    if d.point {
      assert rest[1..] == d.frac;
    }
  }

  /** ParseDecimal accepts exactly the renderings of well-formed decimals. */
  lemma ParseDecimalIff(s: string, d: Decimal)
    ensures ParseDecimal(s) == Some(d) <==> WellFormed(d) && Render(d) == s
  {
    if ParseDecimal(s) == Some(d) {
      ParseDecimalSound(s);
    }
    if WellFormed(d) && Render(d) == s {
      ParseDecimalComplete(d);
    }
  }

  /** The exact value a decimal literal denotes. */
  function ExactValue(d: Decimal): real
    requires WellFormed(d)
  {
    var magnitude := DigitsValue(d.whole) as real + DigitsValue(d.frac) as real / Pow10(|d.frac|) as real;
    if d.sign == Minus then -magnitude else magnitude
  }

  /** `int(float(s))`: the value truncated toward zero, that is the signed whole part. */
  function Truncate(d: Decimal): (n: int)
    requires WellFormed(d)
  {
    var w: int := DigitsValue(d.whole);
    if d.sign == Minus then -w else w
  }

  /** Truncation moves toward zero by less than one. */
  lemma TruncateTowardZero(d: Decimal)
    requires WellFormed(d)
    ensures var v := ExactValue(d); var n := Truncate(d) as real;
      && (d.sign != Minus ==> n <= v < n + 1.0)
      && (d.sign == Minus ==> n - 1.0 < v <= n)
  {
    FractionBelowOne(DigitsValue(d.frac), Pow10(|d.frac|));
  }

  lemma FractionBelowOne(f: nat, p: nat)
    requires f < p
    ensures 0.0 <= f as real / p as real < 1.0
  {
    var q := f as real / p as real;
    assert q * p as real == f as real;
  }

  // ---------------------------------------------------------------------
  // parse_number, integer mode
  // ---------------------------------------------------------------------

  /** The integer mode after cleaning: the first year if there is one, else the truncated decimal. */
  function ParseCleanedInt(t: string): Option<int> {
    match FindYear(t)
    case Some(i) => Some(YearValue(t, i))
    case None =>
      match ParseDecimal(t)
      case Some(d) => Some(Truncate(d))
      case None => None
  }

  /**
   * `parse_number(text)`: blank cells give None, any failure gives None.
   * A non-blank cell holds a text, so `clean_text(str(text))` is the cleaning
   * of the cell itself.
   */
  function ParseInt(c: Cell): Option<int> {
    if IsBlank(c) then None else ParseCleanedInt(CleanText(c, false))
  }

  /**
   * The three outcomes of `ParseCleanedInt`, each stated by its reference
   * definition: the leftmost year, else the truncation of the decimal the
   * whole text renders, else None.
   */
  lemma ParseCleanedIntCases(t: string)
    ensures forall i: nat :: YearAt(t, i) && (forall j: nat :: j < i ==> !YearAt(t, j)) ==>
      ParseCleanedInt(t) == Some(YearValue(t, i))
    ensures (forall i: nat :: !YearAt(t, i)) ==>
      forall d :: WellFormed(d) && Render(d) == t ==> ParseCleanedInt(t) == Some(Truncate(d))
    ensures (forall i: nat :: !YearAt(t, i)) && (forall d :: !(WellFormed(d) && Render(d) == t)) ==>
      ParseCleanedInt(t) == None
  {
    var r := FindYear(t);
    if r.Some? {
      forall i: nat | YearAt(t, i) && (forall j: nat :: j < i ==> !YearAt(t, j))
        ensures i == r.value
      {
        assert YearAt(t, r.value);
      }
    } else {
      forall d | WellFormed(d) && Render(d) == t
        ensures ParseCleanedInt(t) == Some(Truncate(d))
      {
        ParseDecimalComplete(d);
      }
      if ParseDecimal(t).Some? {
        ParseDecimalSound(t);
        var d := ParseDecimal(t).value;
        assert WellFormed(d) && Render(d) == t;
      }
    }
  }

  /** A year found is the 4-digit run itself: its value, written in four digits, is the matched text. */
  lemma YearIsMatchedText(t: string, i: nat)
    requires YearAt(t, i)
    ensures DigitsOf(YearValue(t, i), 4) == t[i..i + 4]
  {
    ValueDigitsOf(t[i..i + 4]);
  }

  /** Blank cells parse to None. */
  lemma ParseIntBlank(c: Cell)
    requires IsBlank(c)
    ensures ParseInt(c) == None
  {
  }

  /** A year result is between 0 and 9999. */
  lemma ParseCleanedIntYearRange(t: string)
    requires FindYear(t).Some?
    ensures ParseCleanedInt(t).Some? && 0 <= ParseCleanedInt(t).value < 10000
  {
  }

  // ---------------------------------------------------------------------
  // parse_number, float mode: re.search(r'([\d.]+)%?', text)
  // ---------------------------------------------------------------------

  /** A character `[\d.]` matches. */
  predicate IsNumChar(c: char) {
    IsDigit(c) || c == '.'
  }

  /** The first position at or after i holding a digit or a point, or |s|. */
  function FirstNumStart(s: string, i: nat): (k: nat)
    requires i <= |s|
    ensures i <= k <= |s|
    ensures forall j :: i <= j < k ==> !IsNumChar(s[j])
    ensures k < |s| ==> IsNumChar(s[k])
    decreases |s| - i
  {
    if i == |s| || IsNumChar(s[i]) then i else FirstNumStart(s, i + 1)
  }

  /** The end of the maximal run of digits and points starting at i. */
  function NumRunEnd(s: string, i: nat): (k: nat)
    requires i <= |s|
    ensures i <= k <= |s|
    ensures forall j :: i <= j < k ==> IsNumChar(s[j])
    ensures k == |s| || !IsNumChar(s[k])
    decreases |s| - i
  {
    if i == |s| || !IsNumChar(s[i]) then i else NumRunEnd(s, i + 1)
  }

  /**
   * s[k..e] is the leftmost maximal run of digits and points: the match of
   * `[\d.]+` that `re.search` finds.
   */
  predicate LeftmostRun(s: string, k: nat, e: nat) {
    && k < e <= |s|
    && (forall j :: 0 <= j < k ==> !IsNumChar(s[j]))
    && (forall j :: k <= j < e ==> IsNumChar(s[j]))
    && (e == |s| || !IsNumChar(s[e]))
  }

  /** The leftmost maximal run of digits and points, if there is one. */
  function FirstNumToken(s: string): (r: Option<string>)
    ensures r.Some? ==> r.value != [] && forall j :: 0 <= j < |r.value| ==> IsNumChar(r.value[j])
    ensures r.Some? ==> exists k: nat, e: nat :: LeftmostRun(s, k, e) && r.value == s[k..e]
    ensures r.None? ==> forall j :: 0 <= j < |s| ==> !IsNumChar(s[j])
  {
    var k := FirstNumStart(s, 0);
    if k == |s| then None
    else
      var e := NumRunEnd(s, k);
      assert LeftmostRun(s, k, e);
      assert forall j :: 0 <= j < e - k ==> s[k..e][j] == s[k + j];
      Some(s[k..e])
  }

  /** Whenever s has a leftmost maximal run, that run is the token found. */
  lemma FirstNumTokenLeftmost(s: string, k: nat, e: nat)
    requires LeftmostRun(s, k, e)
    ensures FirstNumToken(s) == Some(s[k..e])
  {
    var k' := FirstNumStart(s, 0);
    assert IsNumChar(s[k]);
    assert k' == k;
    var e' := NumRunEnd(s, k);
    assert e' == e;
  }

  /** The float mode after cleaning: the first run of digits and points read as a decimal, divided by 100. */
  function ParseCleanedPercent(t: string): Option<real> {
    match FirstNumToken(t)
    case None => None
    case Some(tok) =>
      match ParseDecimal(tok)
      case Some(d) => Some(ExactValue(d) / 100.0)
      case None => None
  }

  /** `parse_number(text, is_float=True)`. */
  function ParsePercent(c: Cell): Option<real> {
    if IsBlank(c) then None else ParseCleanedPercent(CleanText(c, false))
  }

  /** A run of digits and points has no sign. */
  lemma NumTokenUnsigned(tok: string)
    requires tok != [] && forall j :: 0 <= j < |tok| ==> IsNumChar(tok[j])
    ensures ParseDecimal(tok).Some? ==> ParseDecimal(tok).value.sign == NoSign
  {
    assert IsNumChar(tok[0]);
  }

  /** A percentage is never negative: the token carries no sign. */
  lemma ParseCleanedPercentNonNegative(t: string)
    ensures ParseCleanedPercent(t).Some? ==> ParseCleanedPercent(t).value >= 0.0
  {
    var tok := FirstNumToken(t);
    if tok.Some? && ParseDecimal(tok.value).Some? {
      var d := ParseDecimal(tok.value).value;
      NumTokenUnsigned(tok.value);
      assert DigitsValue(d.frac) as real / Pow10(|d.frac|) as real >= 0.0;
    }
  }

  /**
   * The outcomes of the float mode, each stated by its reference definition:
   * no digit and no point gives None; otherwise the leftmost maximal run is
   * read as a decimal and divided by 100, or gives None when it is not one.
   */
  lemma ParseCleanedPercentCases(t: string)
    ensures (forall j :: 0 <= j < |t| ==> !IsNumChar(t[j])) ==> ParseCleanedPercent(t) == None
    ensures forall k: nat, e: nat, d :: LeftmostRun(t, k, e) && WellFormed(d) && Render(d) == t[k..e] ==>
      ParseCleanedPercent(t) == Some(ExactValue(d) / 100.0)
    ensures forall k: nat, e: nat :: LeftmostRun(t, k, e) && (forall d :: !(WellFormed(d) && Render(d) == t[k..e])) ==>
      ParseCleanedPercent(t) == None
  {
    if forall j :: 0 <= j < |t| ==> !IsNumChar(t[j]) {
      PercentWithoutRun(t);
    }
    forall k: nat, e: nat, d | LeftmostRun(t, k, e) && WellFormed(d) && Render(d) == t[k..e]
      ensures ParseCleanedPercent(t) == Some(ExactValue(d) / 100.0)
    {
      PercentOfRun(t, k, e, d);
    }
    forall k: nat, e: nat | LeftmostRun(t, k, e) && (forall d :: !(WellFormed(d) && Render(d) == t[k..e]))
      ensures ParseCleanedPercent(t) == None
    {
      PercentOfBadRun(t, k, e);
    }
  }

  lemma PercentWithoutRun(t: string)
    requires forall j :: 0 <= j < |t| ==> !IsNumChar(t[j])
    ensures ParseCleanedPercent(t) == None
  {
    assert FirstNumStart(t, 0) == |t|;
  }

  lemma PercentOfRun(t: string, k: nat, e: nat, d: Decimal)
    requires LeftmostRun(t, k, e) && WellFormed(d) && Render(d) == t[k..e]
    ensures ParseCleanedPercent(t) == Some(ExactValue(d) / 100.0)
  {
    FirstNumTokenLeftmost(t, k, e);
    ParseDecimalComplete(d);
  }

  lemma PercentOfBadRun(t: string, k: nat, e: nat)
    requires LeftmostRun(t, k, e)
    requires forall d :: !(WellFormed(d) && Render(d) == t[k..e])
    ensures ParseCleanedPercent(t) == None
  {
    FirstNumTokenLeftmost(t, k, e);
    if ParseDecimal(t[k..e]).Some? {
      ParseDecimalSound(t[k..e]);
    }
  }

  /** `"1.2.3"` is a single token, which `float()` rejects, so the result is None. */
  lemma ParseCleanedPercentTwoPoints()
    ensures ParseCleanedPercent("1.2.3") == None
  {
    var s := "1.2.3";
    assert FirstNumStart(s, 0) == 0;
    assert NumRunEnd(s, 5) == 5;
    assert NumRunEnd(s, 0) == 5;
    assert s[0..5] == s;
    assert DigitRun(s[4..]) == 1;
    assert DigitRun(s[2..]) == 1;
    assert DigitRun(s) == 1;
    assert s[1..][1..] == "2.3";
    assert !AllDigits("2.3") by {
      assert "2.3"[1] == '.';
    }
  }

  // ---------------------------------------------------------------------
  // Examples
  // ---------------------------------------------------------------------

  /** A text that is already clean is parsed as it stands. */
  lemma ParseOfClean(s: string)
    requires s != [] && SingleSpaced(s) && !Quoted(s) && Lower(s) != "nan"
    ensures ParseInt(Text(s)) == ParseCleanedInt(s)
    ensures ParsePercent(Text(s)) == ParseCleanedPercent(s)
  {
    CleanTextOfClean(s);
    StripStripped(s);
  }

  /** "Harvest: 2018 vintage" gives 2018. */
  lemma HarvestExample()
    ensures ParseInt(Text("Harvest: 2018 vintage")) == Some(2018)
  {
    HarvestIsClean();
    ParseOfClean("Harvest: 2018 vintage");
    HarvestYear();
  }

  lemma HarvestIsClean()
    ensures var s := "Harvest: 2018 vintage";
      s != [] && SingleSpaced(s) && !Quoted(s) && Lower(s) != "nan"
  {
    var s := "Harvest: 2018 vintage";
    assert Lower(s)[0] == 'h';
    assert forall i :: 0 <= i < |s| ==> ' ' <= s[i] <= '~';
    assert forall i :: 0 <= i < |s| - 1 ==> s[i] != ' ' || s[i + 1] != ' ';
    PrintableSpaced(s);
  }

  /** Printable ASCII text with lone inner blanks is single-spaced. */
  lemma PrintableSpaced(s: string)
    requires forall i :: 0 <= i < |s| ==> ' ' <= s[i] <= '~'
    requires s != [] && s[0] != ' ' && s[|s| - 1] != ' '
    requires forall i :: 0 <= i < |s| - 1 ==> s[i] != ' ' || s[i + 1] != ' '
    ensures SingleSpaced(s)
  {
  }

  lemma HarvestYear()
    ensures ParseCleanedInt("Harvest: 2018 vintage") == Some(2018)
  {
    var s := "Harvest: 2018 vintage";
    HarvestYearAt();
    ParseCleanedIntCases(s);
    Value2018();
  }

  /** The only year of "Harvest: 2018 vintage" starts at position 9. */
  lemma HarvestYearAt()
    ensures var s := "Harvest: 2018 vintage";
      YearAt(s, 9) && s[9..13] == "2018" && forall j: nat :: j < 9 ==> !YearAt(s, j)
  {
    var s := "Harvest: 2018 vintage";
    assert forall j :: 0 <= j < 9 ==> !IsDigit(s[j]);
    forall j: nat | j < 9
      ensures !YearAt(s, j)
    {
      assert s[j..j + 4][0] == s[j];
    }
    assert s[9..13] == "2018";
    assert !IsWordChar(s[8]) && !IsWordChar(s[13]);
  }

  lemma Value2018()
    ensures DigitsValue("2018") == 2018
  {
    assert "2018"[..3] == "201" && "201"[..2] == "20" && "20"[..1] == "2" && "2"[..0] == [];
  }

  /** Positions where no year starts are skipped by the search. */
  lemma {:induction false} FindYearSkip(s: string, i: nat, k: nat)
    requires i <= k
    requires forall j :: i <= j < k ==> !YearAt(s, j)
    ensures FindYearFrom(s, i) == FindYearFrom(s, k)
    decreases k - i
  {
    if i < k && i + 4 <= |s| {
      FindYearSkip(s, i + 1, k);
    } else if i < k {
      assert FindYearFrom(s, i) == None;
      assert FindYearFrom(s, k) == None;
    }
  }

  /** Text with no year and no number gives None in both modes. */
  lemma NoNumberExample()
    ensures ParseInt(Text("abc")) == None && ParsePercent(Text("abc")) == None
  {
    AbcIsClean();
    ParseOfClean("abc");
    AbcParsed();
  }

  lemma AbcIsClean()
    ensures var s := "abc"; s != [] && SingleSpaced(s) && !Quoted(s) && Lower(s) != "nan"
  {
    assert Lower("abc")[0] == 'a';
  }

  lemma AbcParsed()
    ensures ParseCleanedInt("abc") == None && ParseCleanedPercent("abc") == None
  {
    var s := "abc";
    assert !YearAt(s, 0);
    assert DigitRun(s) == 0;
    assert FirstNumStart(s, 0) == 3 by {
      assert FirstNumStart(s, 2) == 3;
      assert FirstNumStart(s, 1) == 3;
    }
  }

  /** A year needs a word boundary after it: "2018abc" has none, and it is not a number either. */
  lemma YearBoundaryExample()
    ensures ParseCleanedInt("2018abc") == None
  {
    var s := "2018abc";
    assert IsWordChar(s[4]);
    assert !YearAt(s, 0);
    assert !YearAt(s, 1) && !YearAt(s, 2) && !YearAt(s, 3) by {
      assert !IsDigit(s[4]);
    }
    FindYearSkip(s, 0, 4);
    DigitRunAt(s, 4) by {
      assert AllDigits(s[..4]) by {
        assert s[..4] == "2018";
      }
    }
  }

  /** The fallback truncates toward zero: "-2.7" gives -2. */
  lemma NegativeTruncationExample()
    ensures ParseCleanedInt("-2.7") == Some(-2)
  {
    var s := "-2.7";
    assert FindYear(s) == None;
    var body := s[1..];
    assert SplitSign(s) == (Minus, body);
    DigitRunAt(body, 1);
    assert body[..1] == "2" && body[1..] == ".7" && ".7"[1..] == "7";
    assert ParseDecimal(s) == Some(Decimal(Minus, "2", true, "7"));
  }

  /** In the float mode, "13.5%" gives 13.5 / 100. */
  lemma PercentExample()
    ensures ParseCleanedPercent("13.5%") == Some(135.0 / 1000.0)
  {
    PercentToken();
    PercentDecimal();
    PercentValue();
  }

  lemma PercentToken()
    ensures FirstNumToken("13.5%") == Some("13.5")
  {
    var s := "13.5%";
    assert LeftmostRun(s, 0, 4);
    FirstNumTokenLeftmost(s, 0, 4);
    assert s[0..4] == "13.5";
  }

  lemma PercentValue()
    ensures ExactValue(Decimal(NoSign, "13", true, "5")) / 100.0 == 135.0 / 1000.0
  {
    assert DigitsValue("13") == 13 by {
      assert "13"[..1] == "1" && "1"[..0] == [];
    }
    assert DigitsValue("5") == 5 by {
      assert "5"[..0] == [];
    }
  }

  lemma PercentDecimal()
    ensures ParseDecimal("13.5") == Some(Decimal(NoSign, "13", true, "5"))
  {
    var tok := "13.5";
    DigitRunAt(tok, 2);
    assert tok[..2] == "13" && tok[2..] == ".5" && ".5"[1..] == "5";
  }
}
