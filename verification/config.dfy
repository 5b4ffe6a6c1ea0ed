/** Option resolution (src/config.ts): parsing cooldown strings such as
    `"30s"` into milliseconds, and merging command-line flags, the
    environment and the persisted configuration into the loop's options.
    Reading and writing the configuration file is not modelled. */
module Config {

  import opened Wrappers
  import opened Strings
  import opened Types

  // =====================================================================
  // parseDuration: /^(\d+(?:\.\d+)?)\s*(ms|s|m|h)?$/i

  /** JavaScript's `\s`: the ECMAScript white space and line terminators. */
  predicate IsJsSpace(c: char) {
    || c == '\t' || c == '\n' || c == '\U{B}' || c == '\U{C}' || c == '\r' || c == ' '
    || c == '\U{A0}' || c == '\U{1680}' || ('\U{2000}' <= c <= '\U{200A}')
    || c == '\U{2028}' || c == '\U{2029}' || c == '\U{202F}' || c == '\U{205F}'
    || c == '\U{3000}' || c == '\U{FEFF}'
  }

  /** Length of the digit run starting at `i` (greedy `\d+` / `\d*`). */
  function DigitRun(s: string, i: nat): (n: nat)
    requires i <= |s|
    ensures i + n <= |s|
    decreases |s| - i
  {
    if i < |s| && IsDigit(s[i]) then 1 + DigitRun(s, i + 1) else 0
  }

  /** The digit run is maximal: all digits, and no digit right after it. */
  lemma {:induction false} DigitRunFacts(s: string, i: nat)
    requires i <= |s|
    ensures forall k :: i <= k < i + DigitRun(s, i) ==> IsDigit(s[k])
    ensures i + DigitRun(s, i) < |s| ==> !IsDigit(s[i + DigitRun(s, i)])
    decreases |s| - i
  {
    if i < |s| && IsDigit(s[i]) {
      DigitRunFacts(s, i + 1);
      assert DigitRun(s, i) == 1 + DigitRun(s, i + 1);
    } else {
      assert DigitRun(s, i) == 0;
    }
  }

  /** Length of the white-space run starting at `i` (greedy `\s*`). */
  function SpaceRun(s: string, i: nat): (n: nat)
    requires i <= |s|
    ensures i + n <= |s|
    decreases |s| - i
  {
    if i < |s| && IsJsSpace(s[i]) then 1 + SpaceRun(s, i + 1) else 0
  }

  /** The white-space run is maximal. */
  lemma {:induction false} SpaceRunFacts(s: string, i: nat)
    requires i <= |s|
    ensures forall k :: i <= k < i + SpaceRun(s, i) ==> IsJsSpace(s[k])
    ensures i + SpaceRun(s, i) < |s| ==> !IsJsSpace(s[i + SpaceRun(s, i)])
    decreases |s| - i
  {
    if i < |s| && IsJsSpace(s[i]) {
      SpaceRunFacts(s, i + 1);
      assert SpaceRun(s, i) == 1 + SpaceRun(s, i + 1);
    } else {
      assert SpaceRun(s, i) == 0;
    }
  }

  /** The unit spellings the pattern accepts, after lower-casing; `""` is
      an omitted unit. */
  const UNIT_TEXTS: set<string> := {"", "ms", "s", "m", "h"}

  function InvalidDuration(s: string): string {
    "Invalid duration: \"" + s + "\""
  }

  function UnknownUnit(unit: string): string {
    "Unknown duration unit: \"" + unit + "\""
  }

  function Pow10(n: nat): (p: nat)
    ensures p >= 1
  {
    if n == 0 then 1 else 10 * Pow10(n - 1)
  }

  /** `parseFloat` of a matched numeral `intPart fraction`, where the
      fraction is empty or `.` followed by digits, as an exact decimal. */
  function DecimalValue(intPart: string, fraction: string): (v: real)
    ensures v >= 0.0
  {
    DigitsValue(intPart) as real
      + (if |fraction| <= 1 then 0.0 else DigitsValue(fraction[1..]) as real / Pow10(|fraction| - 1) as real)
  }

  /** Where the optional `.digits` fraction after position `n` ends: it
      is taken only when at least one digit follows the dot. */
  function FractionEnd(s: string, n: nat): (m: nat)
    requires n <= |s|
    ensures n <= m <= |s|
  {
    if n < |s| && s[n] == '.' && DigitRun(s, n + 1) > 0 then n + 1 + DigitRun(s, n + 1) else n
  }

  /** parseDuration: a duration string to milliseconds. The regular
      expression is matched greedily from the left: digits, an optional
      `.digits` fraction, white space, and the rest must be a unit. */
  function ParseDuration(s: string): (r: Result<real, string>)
    ensures r.Success? ==> r.value >= 0.0
    // The "Unknown duration unit" branch is never taken: every failure is
    // the "Invalid duration" error naming the input.
    ensures r.Failure? ==> r.error == InvalidDuration(s)
  {
    var n := DigitRun(s, 0);
    var m := FractionEnd(s, n);
    ConvertMatch(s, n, m, s[m + SpaceRun(s, m)..])
  }

  /** The conversion after the pattern has been tried: numeral `s[..n]`,
      fraction `s[n..m]`, and the text after the white space, which must
      be a unit for the pattern to match. */
  function ConvertMatch(s: string, n: nat, m: nat, unitText: string): (r: Result<real, string>)
    requires n <= m <= |s|
    ensures r.Success? ==> r.value >= 0.0
    ensures r.Failure? ==> r.error == InvalidDuration(s)
  {
    if n == 0 || Lower(unitText) !in UNIT_TEXTS then Failure(InvalidDuration(s))
    else
      var unit := if unitText == "" then "s" else Lower(unitText);
      assert unit in {"ms", "s", "m", "h"};
      ApplyUnit(DecimalValue(s[..n], s[n..m]), unit)
  }

  /** The `switch` on the lower-cased unit: scaling to milliseconds, and
      the "Unknown duration unit" error in its `default` case. */
  function ApplyUnit(value: real, unit: string): (r: Result<real, string>)
    ensures r.Success? <==> unit in {"ms", "s", "m", "h"}
    ensures r.Success? && value >= 0.0 ==> r.value >= 0.0
    ensures r.Failure? ==> r.error == UnknownUnit(unit)
  {
    if unit == "ms" then Success(value)
    else if unit == "s" then Success(value * 1000.0)
    else if unit == "m" then Success(value * 60.0 * 1000.0)
    else if unit == "h" then Success(value * 60.0 * 60.0 * 1000.0)
    else Failure(UnknownUnit(unit))
  }

  // ---------------------------------------------------------------------
  // The grammar the pattern describes, as an independent definition

  predicate DigitsIn(s: string, i: nat, j: nat)
    requires i <= j <= |s|
  {
    forall k :: i <= k < j ==> IsDigit(s[k])
  }

  predicate SpacesIn(s: string, i: nat, j: nat)
    requires i <= j <= |s|
  {
    forall k :: i <= k < j ==> IsJsSpace(s[k])
  }

  predicate IsUnitText(u: string) {
    Lower(u) in UNIT_TEXTS
  }

  /** `s` splits at `a <= b <= c` into one or more digits `s[..a]`, an
      empty or `.digits` fraction `s[a..b]`, white space `s[b..c]` and a
      unit `s[c..]` spelled in any letter case. */
  predicate DurationForm(s: string, a: nat, b: nat, c: nat) {
    && 0 < a <= b <= c <= |s|
    && DigitsIn(s, 0, a)
    && (a == b || (a + 2 <= b && s[a] == '.' && DigitsIn(s, a + 1, b)))
    && SpacesIn(s, b, c)
    && IsUnitText(s[c..])
  }

  ghost predicate MatchesDuration(s: string) {
    exists a: nat, b: nat, c: nat :: DurationForm(s, a, b, c)
  }

  /** Milliseconds per unit, for a unit spelled in any letter case. */
  function Scale(unit: string): real {
    var u := Lower(unit);
    if u == "ms" then 1.0
    else if u == "" || u == "s" then 1000.0
    else if u == "m" then 60000.0
    else 3600000.0
  }

  lemma LowerCharLetter(c: char)
    ensures IsAsciiLetter(LowerChar(c)) ==> IsAsciiLetter(c)
  {
  }

  /** A unit's first character is a letter: no digit, dot or space. */
  lemma UnitTextStartsWithLetter(u: string)
    requires IsUnitText(u) && |u| > 0
    ensures IsAsciiLetter(u[0])
  {
    LowerCharLetter(u[0]);
    assert Lower(u)[0] == LowerChar(u[0]);
  }

  /** A maximal run of exactly `n` is what the scan finds. */
  lemma {:induction false} DigitRunExact(s: string, i: nat, n: nat)
    requires i + n <= |s|
    requires forall k :: i <= k < i + n ==> IsDigit(s[k])
    requires i + n < |s| ==> !IsDigit(s[i + n])
    ensures DigitRun(s, i) == n
    decreases n
  {
    if n > 0 {
      assert IsDigit(s[i]);
      DigitRunExact(s, i + 1, n - 1);
    }
  }

  /** A maximal run of exactly `n` is what the scan finds. */
  lemma {:induction false} SpaceRunExact(s: string, i: nat, n: nat)
    requires i + n <= |s|
    requires forall k :: i <= k < i + n ==> IsJsSpace(s[k])
    requires i + n < |s| ==> !IsJsSpace(s[i + n])
    ensures SpaceRun(s, i) == n
    decreases n
  {
    if n > 0 {
      assert IsJsSpace(s[i]);
      SpaceRunExact(s, i + 1, n - 1);
    }
  }

  /** In a string of the grammar's shape the greedy scan stops exactly at
      the split points. */
  lemma ScanOfForm(s: string, a: nat, b: nat, c: nat)
    requires DurationForm(s, a, b, c)
    ensures DigitRun(s, 0) == a
    ensures FractionEnd(s, a) == b
    ensures SpaceRun(s, b) == c - b
  {
    if c < |s| {
      UnitTextStartsWithLetter(s[c..]);
      assert s[c..][0] == s[c];
    }
    // The character after each run, if any, is '.', a space or a letter.
    assert a < |s| ==> !IsDigit(s[a]) && (s[a] == '.' <==> a < b) by {
      if a < |s| && a == b && b < c {
        assert IsJsSpace(s[b]);
      }
    }
    DigitRunExact(s, 0, a);
    if a < b {
      assert b < |s| ==> !IsDigit(s[b]) by {
        if b < c && b < |s| {
          assert IsJsSpace(s[b]);
        }
      }
      DigitRunExact(s, a + 1, b - a - 1);
    }
    SpaceRunExact(s, b, c - b);
  }

  /** Any split of `s` in the grammar's shape determines parseDuration's
      result: the numeral's value times the unit's scale. */
  lemma ParseDurationOfForm(s: string, a: nat, b: nat, c: nat)
    requires DurationForm(s, a, b, c)
    ensures ParseDuration(s) == Success(DecimalValue(s[..a], s[a..b]) * Scale(s[c..]))
  {
    ScanOfForm(s, a, b, c);
    ParseDurationAt(s, a, b, c);
    ConvertUnit(s, a, b, s[c..]);
  }

  /** parseDuration's result once the scan's stopping points are known. */
  lemma ParseDurationAt(s: string, a: nat, b: nat, c: nat)
    requires a <= b <= c <= |s|
    requires DigitRun(s, 0) == a && FractionEnd(s, a) == b && SpaceRun(s, b) == c - b
    ensures ParseDuration(s) == ConvertMatch(s, a, b, s[c..])
  {
    var m := FractionEnd(s, DigitRun(s, 0));
    assert m + SpaceRun(s, m) == c;
  }

  /** A matched numeral followed by a unit converts to its value times the
      unit's scale. */
  lemma ConvertUnit(s: string, a: nat, b: nat, u: string)
    requires 0 < a <= b <= |s|
    requires IsUnitText(u)
    ensures ConvertMatch(s, a, b, u) == Success(DecimalValue(s[..a], s[a..b]) * Scale(u))
  {
    ApplyUnitOfText(DecimalValue(s[..a], s[a..b]), u);
  }

  /** The `switch` agrees with Scale on every spelling the pattern admits,
      an omitted unit reading as seconds. */
  lemma ApplyUnitOfText(value: real, u: string)
    requires IsUnitText(u)
    ensures ApplyUnit(value, if u == "" then "s" else Lower(u)) == Success(value * Scale(u))
  {
  }

  /** The split points of a string parseDuration accepts. */
  lemma ParseDurationSplit(s: string) returns (a: nat, b: nat, c: nat)
    requires ParseDuration(s).Success?
    ensures DurationForm(s, a, b, c)
  {
    a := DigitRun(s, 0);
    b := FractionEnd(s, a);
    c := b + SpaceRun(s, b);
    assert ParseDuration(s) == ConvertMatch(s, a, b, s[c..]);
    assert 0 < a && IsUnitText(s[c..]);
    DigitRunFacts(s, 0);
    assert DigitsIn(s, 0, a);
    if a < b {
      DigitRunFacts(s, a + 1);
      assert DigitsIn(s, a + 1, b);
    }
    SpaceRunFacts(s, b);
    assert SpacesIn(s, b, c);
  }

  /** Every string parseDuration accepts has the grammar's shape. */
  lemma ParseDurationHasForm(s: string)
    requires ParseDuration(s).Success?
    ensures MatchesDuration(s)
  {
    var a, b, c := ParseDurationSplit(s);
  }

  /** parseDuration succeeds exactly on the strings of the grammar. */
  lemma ParseDurationGrammar(s: string)
    ensures ParseDuration(s).Success? <==> MatchesDuration(s)
  {
    if ParseDuration(s).Success? {
      ParseDurationHasForm(s);
    }
    if MatchesDuration(s) {
      var a: nat, b: nat, c: nat :| DurationForm(s, a, b, c);
      ParseDurationOfForm(s, a, b, c);
    }
  }

  lemma LowerCharFacts(c: char)
    ensures IsDigit(LowerChar(c)) <==> IsDigit(c)
    ensures IsJsSpace(LowerChar(c)) <==> IsJsSpace(c)
    ensures (LowerChar(c) == '.') <==> (c == '.')
    ensures LowerChar(LowerChar(c)) == LowerChar(c)
    ensures IsDigit(c) ==> LowerChar(c) == c
  {
  }

  /** Lower-casing a string of the grammar's shape keeps the split points. */
  lemma LowerKeepsForm(s: string, a: nat, b: nat, c: nat)
    requires DurationForm(s, a, b, c)
    ensures DurationForm(Lower(s), a, b, c)
    ensures Lower(s)[..a] == s[..a] && Lower(s)[a..b] == s[a..b]
    ensures Lower(s)[c..] == Lower(s[c..])
    ensures Lower(Lower(s[c..])) == Lower(s[c..])
  {
    var t := Lower(s);
    forall k | 0 <= k < |s| ensures IsDigit(t[k]) <==> IsDigit(s[k])
      ensures IsJsSpace(t[k]) <==> IsJsSpace(s[k])
      ensures (t[k] == '.') <==> (s[k] == '.')
      ensures IsDigit(s[k]) ==> t[k] == s[k]
    {
      LowerCharFacts(s[k]);
    }
    var u := s[c..];
    assert Lower(Lower(u)) == Lower(u) by {
      forall k | 0 <= k < |u| ensures Lower(Lower(u))[k] == Lower(u)[k] { LowerCharFacts(u[k]); }
    }
    assert t[c..] == Lower(u);
    assert t[..a] == s[..a];
    assert t[a..b] == s[a..b] by {
      forall k | a <= k < b ensures t[k] == s[k] {
        if k > a {
          assert IsDigit(s[k]);
        }
      }
    }
  }

  /** The lower-cased form of a string of the grammar's shape has the
      same split points, so its value is read off the same way. */
  lemma LowerFormValue(s: string, t: string, a: nat, b: nat, c: nat)
    requires DurationForm(s, a, b, c)
    requires t == Lower(s)
    ensures ParseDuration(t) == Success(DecimalValue(t[..a], t[a..b]) * Scale(t[c..]))
  {
    LowerKeepsForm(s, a, b, c);
    assert DurationForm(t, a, b, c);
    ParseDurationOfForm(t, a, b, c);
  }

  /** ... and that value is the original's. */
  lemma LowerFormSameValue(s: string, t: string, a: nat, b: nat, c: nat)
    requires DurationForm(s, a, b, c)
    requires t == Lower(s)
    ensures DecimalValue(t[..a], t[a..b]) * Scale(t[c..]) == DecimalValue(s[..a], s[a..b]) * Scale(s[c..])
  {
    LowerKeepsForm(s, a, b, c);
    ScaleLower(s[c..]);
  }

  /** Lower-casing a string of the grammar's shape leaves its duration
      unchanged. */
  lemma LowerOfForm(s: string, t: string, a: nat, b: nat, c: nat)
    requires DurationForm(s, a, b, c)
    requires t == Lower(s)
    ensures ParseDuration(t) == ParseDuration(s)
  {
    LowerFormValue(s, t, a, b, c);
    LowerFormSameValue(s, t, a, b, c);
    ParseDurationOfForm(s, a, b, c);
  }

  lemma ScaleLower(u: string)
    requires Lower(Lower(u)) == Lower(u)
    ensures Scale(Lower(u)) == Scale(u)
  {
  }

  /** Lower-casing an input that parses keeps it parsing, to the same value. */
  lemma ParseDurationLowerKeeps(s: string)
    ensures ParseDuration(s).Success? ==> ParseDuration(Lower(s)) == ParseDuration(s)
  {
    if ParseDuration(s).Success? {
      ParseDurationHasForm(s);
      var a: nat, b: nat, c: nat :| DurationForm(s, a, b, c);
      LowerOfForm(s, Lower(s), a, b, c);
    }
  }

  /** An input whose lower-cased form parses parses itself. */
  lemma ParseDurationLowerReflects(s: string)
    ensures ParseDuration(Lower(s)).Success? ==> ParseDuration(s).Success?
  {
    var t := Lower(s);
    if ParseDuration(t).Success? {
      var a, b, c := ParseDurationSplit(t);
      UpperKeepsForm(s, a, b, c);
      ParseDurationOfForm(s, a, b, c);
    }
  }

  /** Letter case does not matter: lower-casing the whole input changes
      neither whether it parses nor the duration it denotes. */
  lemma ParseDurationCaseInsensitive(s: string)
    ensures ParseDuration(Lower(s)).Success? <==> ParseDuration(s).Success?
    ensures ParseDuration(s).Success? ==> ParseDuration(Lower(s)) == ParseDuration(s)
  {
    ParseDurationLowerKeeps(s);
    ParseDurationLowerReflects(s);
  }

  /** The converse of LowerKeepsForm: if the lower-cased string has the
      grammar's shape, so does the original. */
  lemma UpperKeepsForm(s: string, a: nat, b: nat, c: nat)
    requires DurationForm(Lower(s), a, b, c)
    ensures DurationForm(s, a, b, c)
  {
    var t := Lower(s);
    forall k | 0 <= k < |s| ensures IsDigit(t[k]) <==> IsDigit(s[k])
      ensures IsJsSpace(t[k]) <==> IsJsSpace(s[k])
      ensures (t[k] == '.') <==> (s[k] == '.')
    {
      LowerCharFacts(s[k]);
    }
    var u := s[c..];
    assert t[c..] == Lower(u);
    assert Lower(Lower(u)) == Lower(u) by {
      forall k | 0 <= k < |u| ensures Lower(Lower(u))[k] == Lower(u)[k] { LowerCharFacts(u[k]); }
    }
  }

  lemma SmallDigits()
    ensures DigitsValue("0") == 0 && DigitsValue("1") == 1 && DigitsValue("2") == 2
    ensures DigitsValue("5") == 5 && DigitsValue("500") == 500
  {
    assert "0"[..0] == "" && "1"[..0] == "" && "2"[..0] == "" && "5"[..0] == "";
    assert "500"[..2] == "50";
    assert "50"[..1] == "5";
  }

  /** The values the unit tests expect, one input per lemma. */
  lemma Parse500ms()
    ensures ParseDuration("500ms") == Success(500.0)
  {
    SmallDigits();
    assert "500ms"[..3] == "500" && "500ms"[3..3] == "" && "500ms"[3..] == "ms";
    assert Lower("ms") == "ms";
    assert Scale("ms") == 1.0;
    assert DecimalValue("500", "") == 500.0;
    ParseDurationOfForm("500ms", 3, 3, 3);
  }

  lemma ParseHalfSecond()
    ensures ParseDuration("0.5s") == Success(500.0)
  {
    SmallDigits();
    assert "0.5s"[..1] == "0" && "0.5s"[1..3] == ".5" && "0.5s"[3..] == "s";
    assert ".5"[1..] == "5";
    assert Lower("s") == "s";
    assert Scale("s") == 1000.0;
    assert DecimalValue("0", ".5") == 0.5;
    ParseDurationOfForm("0.5s", 1, 3, 3);
  }

  lemma ParseOneMinute()
    ensures ParseDuration("1m") == Success(60000.0)
  {
    SmallDigits();
    assert "1m"[..1] == "1" && "1m"[1..1] == "" && "1m"[1..] == "m";
    assert Lower("m") == "m";
    assert Scale("m") == 60000.0;
    assert DecimalValue("1", "") == 1.0;
    ParseDurationOfForm("1m", 1, 1, 1);
  }

  lemma ParseTwoHours()
    ensures ParseDuration("2h") == Success(7200000.0)
  {
    SmallDigits();
    assert "2h"[..1] == "2" && "2h"[1..1] == "" && "2h"[1..] == "h";
    assert Lower("h") == "h";
    assert Scale("h") == 3600000.0;
    assert DecimalValue("2", "") == 2.0;
    ParseDurationOfForm("2h", 1, 1, 1);
  }

  lemma ParseBareNumber()
    ensures ParseDuration("2.5") == Success(2500.0)
  {
    SmallDigits();
    assert "2.5"[..1] == "2" && "2.5"[1..3] == ".5" && "2.5"[3..] == "";
    assert ".5"[1..] == "5";
    assert Lower("") == "";
    assert Scale("") == 1000.0;
    assert DecimalValue("2", ".5") == 2.5;
    ParseDurationOfForm("2.5", 1, 3, 3);
  }

  lemma ParseUpperS()
    ensures ParseDuration("5S") == Success(5000.0)
  {
    SmallDigits();
    assert "5S"[..1] == "5" && "5S"[1..1] == "" && "5S"[1..] == "S";
    assert Lower("S") == "s";
    assert Scale("S") == 1000.0;
    assert DecimalValue("5", "") == 5.0;
    ParseDurationOfForm("5S", 1, 1, 1);
  }

  lemma ParseUpperMs()
    ensures ParseDuration("500MS") == Success(500.0)
  {
    SmallDigits();
    assert "500MS"[..3] == "500" && "500MS"[3..3] == "" && "500MS"[3..] == "MS";
    assert Lower("MS") == "ms";
    assert Scale("MS") == 1.0;
    assert DecimalValue("500", "") == 500.0;
    ParseDurationOfForm("500MS", 3, 3, 3);
  }

  /** The values the unit tests expect, upper-case units included. */
  lemma ParseDurationExamples()
    ensures ParseDuration("500ms") == Success(500.0)
    ensures ParseDuration("0.5s") == Success(500.0)
    ensures ParseDuration("1m") == Success(60000.0)
    ensures ParseDuration("2h") == Success(7200000.0)
    ensures ParseDuration("2.5") == Success(2500.0)
    ensures ParseDuration("5S") == Success(5000.0)
    ensures ParseDuration("500MS") == Success(500.0)
  {
    Parse500ms();
    ParseHalfSecond();
    ParseOneMinute();
    ParseTwoHours();
    ParseBareNumber();
    ParseUpperS();
    ParseUpperMs();
  }

  /** Empty, non-numeric, negative and unknown-unit inputs are rejected. */
  lemma ParseDurationRejects()
    ensures ParseDuration("") == Failure(InvalidDuration(""))
    ensures ParseDuration("abc") == Failure(InvalidDuration("abc"))
    ensures ParseDuration("-5s") == Failure(InvalidDuration("-5s"))
    ensures ParseDuration("5x") == Failure(InvalidDuration("5x"))
  {
    NoLeadingDigit("");
    NoLeadingDigit("abc");
    NoLeadingDigit("-5s");
    assert DigitRun("5x", 0) == 1 by { assert DigitRun("5x", 1) == 0; }
    assert FractionEnd("5x", 1) == 1;
    assert SpaceRun("5x", 1) == 0;
    assert "5x"[1..] == "x";
    assert Lower("x") == "x";
    assert ParseDuration("5x") == ConvertMatch("5x", 1, 1, "x");
  }

  /** Input that does not start with a digit is rejected. */
  lemma NoLeadingDigit(s: string)
    requires |s| == 0 || !IsDigit(s[0])
    ensures ParseDuration(s) == Failure(InvalidDuration(s))
  {
    assert DigitRun(s, 0) == 0;
  }

  // =====================================================================
  // resolveOptions

  /** `differences?: boolean | string` as commander hands it over. */
  datatype DiffFlag = Flag(on: bool) | Named(name: string)

  /** The command-line flags; every one is optional. */
  datatype CliFlags = CliFlags(
    interval: Option<string>,
    differences: Option<DiffFlag>,
    errexit: Option<bool>,
    chgexit: Option<bool>,
    color: Option<bool>,
    noColor: Option<bool>,
    noTitle: Option<bool>,
    noWrap: Option<bool>,
    exec: Option<bool>,
    precise: Option<bool>,
    beep: Option<bool>,
    email: Option<string>,
    from: Option<string>,
    cooldown: Option<string>,
    subject: Option<string>,
    apiKey: Option<string>)

  /** `"permanent"` and `"cumulative"` accumulate; an absent or `false` flag
      is off; `true` and every other string turn highlighting on. */
  function ResolveDifferences(d: Option<DiffFlag>): (r: Differences)
    ensures r == Permanent <==> d == Some(Named("permanent")) || d == Some(Named("cumulative"))
    ensures r == Off <==> d == None || d == Some(Flag(false))
  {
    if d == Some(Named("permanent")) || d == Some(Named("cumulative")) then Permanent
    else if d != None && d != Some(Flag(false)) then On
    else Off
  }

  /** A JavaScript truthiness test on an optional string: present and
      non-empty. */
  predicate Truthy(o: Option<string>) {
    o.Some? && o.value != ""
  }

  /** The cooldown text the loop will parse: flag, then configuration,
      then one minute. */
  function CooldownText(cli: CliFlags, config: Config): string {
    cli.cooldown.GetOr(config.defaultCooldown.GetOr("1m"))
  }

  /** `flag ?? false` for a boolean command-line flag. */
  function FlagOn(flag: Option<bool>): (on: bool)
    ensures on <==> flag == Some(true)
  {
    flag.GetOr(false)
  }

  /** The options resolveOptions builds once the cooldown string has been
      parsed to `cooldown` milliseconds. */
  function ResolveWith(cli: CliFlags, config: Config, commandArgs: seq<string>,
                       envApiKey: Option<string>, parseFloat: string -> real, cooldown: real)
    : (o: WatchOptions)
    ensures o.cooldown == cooldown
    // Interval: a non-empty flag wins, then the configuration, then 2 s.
    ensures Truthy(cli.interval) ==> o.interval == parseFloat(cli.interval.value)
    ensures !Truthy(cli.interval) && config.defaultInterval.Some? ==> o.interval == config.defaultInterval.value
    ensures !Truthy(cli.interval) && config.defaultInterval.None? ==> o.interval == 2.0
    // API key: flag, then environment, then configuration.
    ensures cli.apiKey.Some? ==> o.resendApiKey == cli.apiKey
    ensures cli.apiKey.None? && envApiKey.Some? ==> o.resendApiKey == envApiKey
    ensures cli.apiKey.None? && envApiKey.None? ==> o.resendApiKey == config.resendApiKey
    // Addresses: flag, then configuration.
    ensures cli.email.Some? ==> o.email == cli.email
    ensures cli.email.None? ==> o.email == config.defaultTo
    ensures cli.from.Some? ==> o.from == cli.from
    ensures cli.from.None? ==> o.from == config.defaultFrom
    // Flags absent from the command line are off; subject and command pass through.
    ensures o.differences == ResolveDifferences(cli.differences)
    ensures o.errexit <==> cli.errexit == Some(true)
    ensures o.chgexit <==> cli.chgexit == Some(true)
    ensures o.color <==> cli.color == Some(true)
    ensures o.noColor <==> cli.noColor == Some(true)
    ensures o.noTitle <==> cli.noTitle == Some(true)
    ensures o.noWrap <==> cli.noWrap == Some(true)
    ensures o.exec <==> cli.exec == Some(true)
    ensures o.precise <==> cli.precise == Some(true)
    ensures o.beep <==> cli.beep == Some(true)
    ensures o.subject == cli.subject && o.command == commandArgs
  {
    var interval := if Truthy(cli.interval) then parseFloat(cli.interval.value)
                    else config.defaultInterval.GetOr(2.0);
    var resendApiKey := if cli.apiKey.Some? then cli.apiKey
                        else if envApiKey.Some? then envApiKey
                        else config.resendApiKey;
    WatchOptions(
      command := commandArgs,
      interval := interval,
      differences := ResolveDifferences(cli.differences),
      errexit := FlagOn(cli.errexit),
      chgexit := FlagOn(cli.chgexit),
      color := FlagOn(cli.color),
      noColor := FlagOn(cli.noColor),
      noTitle := FlagOn(cli.noTitle),
      noWrap := FlagOn(cli.noWrap),
      exec := FlagOn(cli.exec),
      precise := FlagOn(cli.precise),
      beep := FlagOn(cli.beep),
      email := if cli.email.Some? then cli.email else config.defaultTo,
      from := if cli.from.Some? then cli.from else config.defaultFrom,
      cooldown := cooldown,
      subject := cli.subject,
      resendApiKey := resendApiKey)
  }

  /** resolveOptions. The environment variable holding the API key and
      JavaScript's lenient `parseFloat` for the interval are parameters. */
  function ResolveOptions(cli: CliFlags, config: Config, commandArgs: seq<string>,
                          envApiKey: Option<string>, parseFloat: string -> real)
    : (r: Result<WatchOptions, string>)
    // A bad cooldown string is the only error, and it is parseDuration's.
    ensures r.Success? <==> ParseDuration(CooldownText(cli, config)).Success?
    ensures r.Failure? ==> r.error == InvalidDuration(CooldownText(cli, config))
    ensures r.Success? ==>
      r.value == ResolveWith(cli, config, commandArgs, envApiKey, parseFloat,
                             ParseDuration(CooldownText(cli, config)).value)
  {
    var cooldown :- ParseDuration(CooldownText(cli, config));
    Success(ResolveWith(cli, config, commandArgs, envApiKey, parseFloat, cooldown))
  }

  /** With no flags and an empty configuration: a 2 s interval, a one-minute
      cooldown, everything off and no addresses. */
  lemma ResolveOptionsDefaults(commandArgs: seq<string>, parseFloat: string -> real)
    ensures
      var none := CliFlags(None, None, None, None, None, None, None, None, None, None, None,
                           None, None, None, None, None);
      ResolveOptions(none, Config(None, None, None, None, None), commandArgs, None, parseFloat)
      == Success(WatchOptions(commandArgs, 2.0, Off, false, false, false, false, false, false,
                              false, false, false, None, None, 60000.0, None, None))
  {
    ParseDurationExamples();
  }

  /** A cooldown flag overrides the configured default, which overrides
      one minute: `"30s"` over `"10m"` gives 30000 ms. */
  lemma CooldownPrecedence(cli: CliFlags, config: Config)
    ensures cli.cooldown.Some? ==> CooldownText(cli, config) == cli.cooldown.value
    ensures cli.cooldown.None? && config.defaultCooldown.Some? ==> CooldownText(cli, config) == config.defaultCooldown.value
    ensures cli.cooldown.None? && config.defaultCooldown.None? ==> ParseDuration(CooldownText(cli, config)) == Success(60000.0)
  {
    ParseDurationExamples();
  }
}
