/**
 * Parsing one line of an alignment file (x.py, process_paf_line).
 *
 * A line is split on runs of whitespace exactly as Python's `str.split()`
 * does; only the field positions 1, 2 and 7 are used. Fields 1 and 2 go
 * through `int()`, which raises on anything that is not a decimal numeral:
 * that exception is the `Err` branch here.
 */
module PafRecord {
  import opened Wrappers

  // ---------------------------------------------------------------------
  // str.split() with no separator
  // ---------------------------------------------------------------------

  /** Python's `str.isspace()` on one character: the separators of `str.split()`. */
  predicate IsSpace(c: char) {
    var n := c as int;
    (9 <= n <= 13) || (28 <= n <= 32) || n == 0x85 || n == 0xA0 || n == 0x1680
    || (0x2000 <= n <= 0x200A) || n == 0x2028 || n == 0x2029 || n == 0x202F
    || n == 0x205F || n == 0x3000
  }

  /** A field as `str.split()` produces it: non-empty and free of whitespace. */
  predicate IsWord(w: string) {
    w != [] && forall i :: 0 <= i < |w| ==> !IsSpace(w[i])
  }

  /** Length of the longest whitespace-free prefix of `s`. */
  function WordLength(s: string): (n: nat)
    ensures n <= |s|
    ensures forall i :: 0 <= i < n ==> !IsSpace(s[i])
    ensures n < |s| ==> IsSpace(s[n])
  {
    if s == [] || IsSpace(s[0]) then 0 else 1 + WordLength(s[1..])
  }

  /** `s.split()`: the maximal whitespace-free runs of `s`, left to right. */
  function Fields(s: string): (r: seq<string>)
    ensures forall i :: 0 <= i < |r| ==> IsWord(r[i])
    decreases |s|
  {
    if s == [] then []
    else if IsSpace(s[0]) then Fields(s[1..])
    else
      var n := WordLength(s);
      [s[..n]] + Fields(s[n..])
  }

  /** A run of whitespace, possibly empty. */
  predicate IsBlank(ws: string) {
    forall i :: 0 <= i < |ws| ==> IsSpace(ws[i])
  }

  /**
   * A line laid out from fields: `fs` with the whitespace run `gaps[k]`
   * between fields k and k + 1, followed by `trail` (a tab-separated PAF
   * line read by `readlines()` has tabs for gaps and "\n" for trail).
   */
  function Layout(fs: seq<string>, gaps: seq<string>, trail: string): string
    requires |fs| <= |gaps| + 1
    decreases |fs|
  {
    if fs == [] then trail
    else if |fs| == 1 then fs[0] + trail
    else fs[0] + gaps[0] + Layout(fs[1..], gaps[1..], trail)
  }

  /** Whitespace in front of a line adds no field. */
  lemma {:induction false} FieldsAfterBlank(ws: string, s: string)
    requires IsBlank(ws)
    ensures Fields(ws + s) == Fields(s)
    decreases |ws|
  {
    if ws != [] {
      assert (ws + s)[0] == ws[0] && IsSpace(ws[0]);
      assert Fields(ws + s) == Fields((ws + s)[1..]);
      assert (ws + s)[1..] == ws[1..] + s;
      FieldsAfterBlank(ws[1..], s);
    } else {
      assert ws + s == s;
    }
  }

  /** A word followed by the end of the line or by whitespace is one field. */
  lemma FieldsOfWordThen(w: string, rest: string)
    requires IsWord(w)
    requires rest == [] || IsSpace(rest[0])
    ensures Fields(w + rest) == [w] + Fields(rest)
  {
    var s := w + rest;
    assert !IsSpace(s[0]);
    if rest != [] { assert s[|w|] == rest[0]; }
    assert WordLength(s) == |w|;
    assert s[..|w|] == w && s[|w|..] == rest;
  }

  lemma {:induction false} FieldsOfLayoutBody(fs: seq<string>, gaps: seq<string>, trail: string)
    requires |fs| <= |gaps| + 1
    requires forall i :: 0 <= i < |fs| ==> IsWord(fs[i])
    requires forall i :: 0 <= i < |gaps| ==> gaps[i] != [] && IsBlank(gaps[i])
    requires IsBlank(trail)
    ensures Fields(Layout(fs, gaps, trail)) == fs
    decreases |fs|
  {
    FieldsAfterBlank(trail, []);
    assert trail + [] == trail;
    if |fs| == 1 {
      FieldsOfWordThen(fs[0], trail);
    } else if |fs| > 1 {
      var rest := Layout(fs[1..], gaps[1..], trail);
      assert fs[0] + gaps[0] + rest == fs[0] + (gaps[0] + rest);
      FieldsOfWordThen(fs[0], gaps[0] + rest);
      FieldsAfterBlank(gaps[0], rest);
      FieldsOfLayoutBody(fs[1..], gaps[1..], trail);
    }
  }

  /**
   * Splitting a line laid out from well-formed fields, with any whitespace
   * before, between and after them, gives those fields back.
   */
  lemma FieldsOfLayout(lead: string, fs: seq<string>, gaps: seq<string>, trail: string)
    requires |fs| <= |gaps| + 1
    requires forall i :: 0 <= i < |fs| ==> IsWord(fs[i])
    requires forall i :: 0 <= i < |gaps| ==> gaps[i] != [] && IsBlank(gaps[i])
    requires IsBlank(lead) && IsBlank(trail)
    ensures Fields(lead + Layout(fs, gaps, trail)) == fs
  {
    FieldsAfterBlank(lead, Layout(fs, gaps, trail));
    FieldsOfLayoutBody(fs, gaps, trail);
  }

  // ---------------------------------------------------------------------
  // int() on one field
  // ---------------------------------------------------------------------

  predicate IsDigit(c: char) {
    '0' <= c <= '9'
  }

  predicate AllDigits(t: string) {
    forall i :: 0 <= i < |t| ==> IsDigit(t[i])
  }

  /** A non-empty run of decimal digits. */
  predicate IsNumeral(t: string) {
    t != [] && AllDigits(t)
  }

  /** Value of a decimal numeral, most significant digit first. */
  function NumeralValue(t: string): nat
    requires AllDigits(t)
    decreases |t|
  {
    if t == [] then 0
    else 10 * NumeralValue(t[..|t| - 1]) + ((t[|t| - 1] as int) - ('0' as int))
  }

  /**
   * `int(t)` for a field `t`: an optional minus sign followed by decimal
   * digits; `None` where Python raises ValueError.
   */
  function ParseInt(t: string): (r: Option<int>)
    ensures r.Some? <==> IsNumeral(t) || (|t| >= 2 && t[0] == '-' && IsNumeral(t[1..]))
    ensures r.Some? ==>
      && t != [] && (t[0] == '-' || IsDigit(t[0]))
      && (forall i :: 1 <= i < |t| ==> IsDigit(t[i]))
      && (r.value < 0 ==> t[0] == '-')
  {
    if |t| > 0 && t[0] == '-' then
      if IsNumeral(t[1..]) then Some(-(NumeralValue(t[1..]) as int)) else None
    else if IsNumeral(t) then Some(NumeralValue(t))
    else None
  }

  lemma {:induction false} NumeralValueLeadingZero(t: string)
    requires AllDigits(t)
    ensures AllDigits("0" + t) && NumeralValue("0" + t) == NumeralValue(t)
    decreases |t|
  {
    if t != [] {
      NumeralValueLeadingZero(t[..|t| - 1]);
      assert ("0" + t)[..|"0" + t| - 1] == "0" + t[..|t| - 1];
    }
  }

  /** A leading zero changes nothing: `int("007") == int("7")`. */
  lemma ParseIntLeadingZero(t: string)
    requires IsNumeral(t)
    ensures ParseInt("0" + t) == ParseInt(t)
  {
    NumeralValueLeadingZero(t);
  }

  /** A minus sign before a numeral negates it: `int("-0") == 0`, `int("-12") == -12`. */
  lemma ParseIntNegative(t: string)
    requires IsNumeral(t)
    ensures ParseInt("-" + t) == Some(-ParseInt(t).value)
  {
    assert ("-" + t)[1..] == t;
    assert t[0] != '-';
  }

  /** `str(n)` for a natural number: its shortest decimal numeral. */
  function NatText(n: nat): (t: string)
    ensures IsNumeral(t)
    decreases n
  {
    var last := (('0' as int) + n % 10) as char;
    if n < 10 then [last] else NatText(n / 10) + [last]
  }

  /** `str(n)`: the reference writer that `int()` inverts. */
  function IntText(n: int): string {
    if n < 0 then "-" + NatText(-n) else NatText(n)
  }

  lemma {:induction false} NatTextValue(n: nat)
    ensures NumeralValue(NatText(n)) == n
    decreases n
  {
    var t := NatText(n);
    if n >= 10 {
      NatTextValue(n / 10);
      assert t[..|t| - 1] == NatText(n / 10);
    }
  }

  /** `int(str(n)) == n` for every integer `n`. */
  lemma ParseIntText(n: int)
    ensures ParseInt(IntText(n)) == Some(n)
  {
    if n < 0 {
      NatTextValue(-n);
      assert IntText(n)[1..] == NatText(-n);
    } else {
      NatTextValue(n);
      assert IsDigit(NatText(n)[0]);
    }
  }

  // ---------------------------------------------------------------------
  // process_paf_line
  // ---------------------------------------------------------------------

  /** The ValueError `int()` raises, with the offending text. */
  datatype ParseError = InvalidLiteral(text: string)

  /**
   * The pair process_paf_line returns: a breakpoint list and a variation
   * label, each possibly None.
   */
  datatype LineResult = LineResult(breakpoints: Option<seq<int>>, variation: Option<string>)

  /** `(None, None)`: a line with too few fields. */
  const NoRecord := LineResult(None, None)

  /** Fields 0..7 must be present. */
  const MinFields := 8

  function ParseField(t: string): Result<int, ParseError> {
    match ParseInt(t)
    case Some(n) => Ok(n)
    case None => Err(InvalidLiteral(t))
  }

  /**
   * process_paf_line: fewer than eight fields give `(None, None)`; otherwise
   * `([int(f1), int(f2)], f7)`, and a field 1 or 2 that is not a numeral is
   * an error (field 1 is converted first).
   */
  function ProcessPafLine(line: string): (r: Result<LineResult, ParseError>)
    ensures r == Ok(NoRecord) <==> |Fields(line)| < MinFields
    ensures r.Err? <==>
      |Fields(line)| >= MinFields
      && (ParseInt(Fields(line)[1]).None? || ParseInt(Fields(line)[2]).None?)
    ensures r.Ok? && r.value != NoRecord ==>
      && r.value.breakpoints.Some? && |r.value.breakpoints.value| == 2
      && r.value.variation.Some? && IsWord(r.value.variation.value)
    ensures r.Ok? && r.value != NoRecord ==>
      r.value == LineResult(Some([ParseInt(Fields(line)[1]).value, ParseInt(Fields(line)[2]).value]),
                            Some(Fields(line)[7]))
  {
    var parts := Fields(line);
    if |parts| < MinFields then Ok(NoRecord)
    else
      match ParseField(parts[1])
      case Err(e) => Err(e)
      case Ok(queryStart) =>
        match ParseField(parts[2])
        case Err(e) => Err(e)
        case Ok(queryEnd) => Ok(LineResult(Some([queryStart, queryEnd]), Some(parts[7])))
  }

  /**
   * A line laid out from well-formed fields, with any whitespace before,
   * between and after them: with fewer than eight fields it is rejected;
   * otherwise fields 1 and 2, written by `str`, come back as the
   * breakpoint pair and field 7 as the label.
   */
  lemma ProcessWrittenLine(lead: string, fs: seq<string>, gaps: seq<string>, trail: string,
                           queryStart: int, queryEnd: int)
    requires |fs| <= |gaps| + 1
    requires forall i :: 0 <= i < |fs| ==> IsWord(fs[i])
    requires forall i :: 0 <= i < |gaps| ==> gaps[i] != [] && IsBlank(gaps[i])
    requires IsBlank(lead) && IsBlank(trail)
    requires |fs| >= MinFields ==> fs[1] == IntText(queryStart) && fs[2] == IntText(queryEnd)
    ensures ProcessPafLine(lead + Layout(fs, gaps, trail)) ==
      if |fs| < MinFields then Ok(NoRecord)
      else Ok(LineResult(Some([queryStart, queryEnd]), Some(fs[7])))
  {
    FieldsOfLayout(lead, fs, gaps, trail);
    ParseIntText(queryStart);
    ParseIntText(queryEnd);
  }

  /** The fields of a tab-separated PAF line. */
  const SampleFields: seq<string> := ["q", "100", "0", "100", "+", "t", "200", "7"]

  const Tabs: seq<string> := ["\t", "\t", "\t", "\t", "\t", "\t", "\t"]

  lemma SampleLayout()
    ensures Layout(SampleFields, Tabs, "\n") == "q\t100\t0\t100\t+\tt\t200\t7\n"
  {
  }

  /**
   * A tab-separated line as `readlines()` returns it, newline included
   * (its text is given by SampleLayout): fields 1 and 2 are the pair, field
   * 7 the label.
   */
  lemma TabSeparatedLine()
    ensures ProcessPafLine(Layout(SampleFields, Tabs, "\n")) == Ok(LineResult(Some([100, 0]), Some("7")))
  {
    var fs, gaps := SampleFields, Tabs;
    assert IntText(100) == "100" by {
      assert NatText(1) == "1";
      assert NatText(10) == "10";
    }
    assert IntText(0) == "0";
    assert forall i :: 0 <= i < |fs| ==> IsWord(fs[i]);
    assert forall i :: 0 <= i < |gaps| ==> gaps[i] != [] && IsBlank(gaps[i]);
    ProcessWrittenLine([], fs, gaps, "\n", 100, 0);
    assert [] + Layout(fs, gaps, "\n") == Layout(fs, gaps, "\n");
  }

  /**
   * The error names the first non-numeric field among 1 and 2: a bad
   * field 1 is reported even when field 2 is bad too.
   */
  lemma ProcessRejectsNonNumeric(lead: string, fs: seq<string>, gaps: seq<string>, trail: string)
    requires |fs| <= |gaps| + 1
    requires forall i :: 0 <= i < |fs| ==> IsWord(fs[i])
    requires forall i :: 0 <= i < |gaps| ==> gaps[i] != [] && IsBlank(gaps[i])
    requires IsBlank(lead) && IsBlank(trail)
    requires |fs| >= MinFields
    ensures ParseInt(fs[1]).None? ==>
      ProcessPafLine(lead + Layout(fs, gaps, trail)) == Err(InvalidLiteral(fs[1]))
    ensures ParseInt(fs[1]).Some? && ParseInt(fs[2]).None? ==>
      ProcessPafLine(lead + Layout(fs, gaps, trail)) == Err(InvalidLiteral(fs[2]))
  {
    FieldsOfLayout(lead, fs, gaps, trail);
  }
}
