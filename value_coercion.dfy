/**
 * The four value kinds an entry can hold, and the conversions between raw
 * text and typed values that the providers perform: `int.TryParse` in its
 * default (Integer) style, `bool.TryParse`, the invariant-culture rendering
 * used on save, `ToString()` used by the manager's indexer, and the newline
 * normalisation of string values.
 *
 * Culture-dependent float handling and `int.TryParse` with `NumberStyles.Any`
 * are not spelled out: they are fields of `Runtime`, supplied by the caller.
 */
module ValueCoercion {
  import opened Wrappers
  import opened Strings

  /** `System.Int32`. */
  type Int32 = x: int | -0x8000_0000 <= x < 0x8000_0000

  /** `System.Single`, by its IEEE 754 bit pattern. */
  type Float32 = bv32

  /** `Environment.NewLine`, never empty. */
  type NewLine = s: string | |s| > 0 witness "\n"

  /** The four `PropertyType`s an entry can carry: `typeof(int)`, `typeof(float)`, `typeof(bool)`, `typeof(string)`. */
  datatype Kind = IntKind | FloatKind | BoolKind | StringKind

  /** A boxed entry value together with its runtime type. */
  datatype Value = IntValue(i: Int32) | FloatValue(f: Float32) | BoolValue(b: bool) | StringValue(s: string)
  {
    function Kind(): Kind {
      match this
      case IntValue(_) => IntKind
      case FloatValue(_) => FloatKind
      case BoolValue(_) => BoolKind
      case StringValue(_) => StringKind
    }
  }

  /**
   * What the host platform contributes: the platform line terminator and the
   * culture-dependent number routines, which are left uninterpreted.
   */
  datatype Runtime = Runtime(
    newLine: NewLine,                                  // Environment.NewLine
    tryParseFloat: string -> Option<Float32>,          // float.TryParse(s), current culture
    tryParseIntAny: string -> Option<Int32>,           // int.TryParse(s, NumberStyles.Any, InvariantCulture)
    tryParseFloatAny: string -> Option<Float32>,       // float.TryParse(s, NumberStyles.Any, InvariantCulture)
    formatFloatInvariant: Float32 -> string,           // string.Format(InvariantCulture, "{0}", f)
    formatFloat: Float32 -> string)                    // f.ToString(), current culture
  {
    /** `Environment.NewLine` is "\n" or "\r\n" on every platform .NET runs on. */
    predicate HasPlatformNewLine() {
      newLine == "\n" || newLine == "\r\n"
    }

    /** A float's invariant rendering is one line of text, as every .NET number format is. */
    ghost predicate FloatRendersOnOneLine() {
      forall f :: IsSingleLine(formatFloatInvariant(f))
    }

    /** No culture reads the words "True" and "False" as a number. */
    predicate FloatRejectsBooleans() {
      tryParseFloat("True").None? && tryParseFloat("False").None?
    }
  }

  // ---------------------------------------------------------------------
  // int.TryParse(s) and the invariant rendering of an Int32
  // ---------------------------------------------------------------------

  /** The white space `NumberStyles.AllowLeadingWhite`/`AllowTrailingWhite` accept: U+0009..U+000D and U+0020. */
  predicate IsNumberWhite(c: char) {
    c == ' ' || ('\t' <= c <= '\r')
  }

  predicate IsDigit(c: char) {
    '0' <= c <= '9'
  }

  function DropNumberWhite(s: string): (r: string)
    ensures |r| <= |s|
    ensures r == [] || !IsNumberWhite(r[0])
  {
    if |s| > 0 && IsNumberWhite(s[0]) then DropNumberWhite(s[1..]) else s
  }

  /** What `DropNumberWhite` leaves is a suffix of its input. */
  lemma {:induction false} DropNumberWhiteSuffix(s: string)
    ensures forall j :: 0 <= j < |DropNumberWhite(s)| ==> DropNumberWhite(s)[j] == s[|s| - |DropNumberWhite(s)| + j]
    decreases |s|
  {
    if |s| > 0 && IsNumberWhite(s[0]) {
      DropNumberWhiteSuffix(s[1..]);
    }
  }

  /** The length of the run of ASCII digits at the start of `s`. */
  function DigitRun(s: string): (n: nat)
    ensures n <= |s|
    ensures forall i :: 0 <= i < n ==> IsDigit(s[i])
    ensures n < |s| ==> !IsDigit(s[n])
  {
    if |s| > 0 && IsDigit(s[0]) then 1 + DigitRun(s[1..]) else 0
  }

  predicate AllNul(s: string) {
    forall i :: 0 <= i < |s| ==> s[i] == '\0'
  }

  predicate AllDigits(d: string) {
    forall i :: 0 <= i < |d| ==> IsDigit(d[i])
  }

  /** The number a run of decimal digits denotes. */
  function DigitsValue(d: string): nat
    requires AllDigits(d)
  {
    if |d| == 0 then 0 else 10 * DigitsValue(d[..|d| - 1]) + (d[|d| - 1] as int - '0' as int)
  }

  /**
   * `int.TryParse(s, out int n)`: `NumberStyles.Integer` — optional white space,
   * an optional sign, one or more ASCII digits, optional white space, then
   * nothing but NUL characters — and the value must fit in 32 bits.
   */
  function ParseInt32(s: string): (r: Option<Int32>)
    ensures r.Some? ==> exists i :: 0 <= i < |s| && IsDigit(s[i])
  {
    var a := DropNumberWhite(s);
    DropNumberWhiteSuffix(s);
    var signed := |a| > 0 && (a[0] == '-' || a[0] == '+');
    match ParseMagnitude(if signed then a[1..] else a)
    case None => None
    case Some(magnitude) => ToInt32(if signed && a[0] == '-' then -magnitude else magnitude)
  }

  /** One or more digits, then optional white space, then nothing but NUL characters. */
  function ParseMagnitude(b: string): (r: Option<int>)
    ensures r.Some? ==> |b| > 0 && IsDigit(b[0]) && r.value >= 0
  {
    var n := DigitRun(b);
    if n == 0 || !AllNul(DropNumberWhite(b[n..])) then None
    else Some(DigitsValue(b[..n]))
  }

  /** The value, if it fits in 32 bits (`int.TryParse` fails on overflow). */
  function ToInt32(v: int): Option<Int32> {
    if -0x8000_0000 <= v < 0x8000_0000 then Some(v) else None
  }

  /** The decimal digits of `m`, most significant first, without leading zeros. */
  function Digits(m: nat): (d: string)
    ensures |d| >= 1 && AllDigits(d)
    ensures DigitsValue(d) == m
  {
    var last := [('0' as int + m % 10) as char];
    if m < 10 then last
    else
      var d := Digits(m / 10) + last;
      assert d[..|d| - 1] == Digits(m / 10);
      d
  }

  /** `n.ToString(CultureInfo.InvariantCulture)`; the current culture is taken to use the same signs. */
  function FormatInt32(n: Int32): string {
    var m: int := n;
    if m < 0 then "-" + Digits(-m) else Digits(m)
  }

  /** The integer rendering: an optional leading minus sign, then digits, ending in a digit. */
  lemma FormatInt32Chars(n: Int32)
    ensures var s := FormatInt32(n);
      && |s| > 0 && IsDigit(s[|s| - 1]) && (s[0] == '-' || IsDigit(s[0]))
      && forall j :: 0 <= j < |s| ==> s[j] == '-' || IsDigit(s[j])
  {
    var m: int := n;
    if m < 0 {
      var d := Digits(-m);
      var s := "-" + d;
      forall j | 0 <= j < |s| ensures s[j] == '-' || IsDigit(s[j]) {
        if j > 0 {
          assert s[j] == d[j - 1];
        }
      }
      assert s[|s| - 1] == d[|d| - 1];
    }
  }

  lemma {:induction false} DigitRunOfDigits(d: string)
    requires AllDigits(d)
    ensures DigitRun(d) == |d|
  {
    if |d| > 0 {
      assert AllDigits(d[1..]) by {
        forall i | 0 <= i < |d[1..]| ensures IsDigit(d[1..][i]) {
          assert d[1..][i] == d[i + 1];
        }
      }
      DigitRunOfDigits(d[1..]);
    }
  }

  /** A run of digits on its own is a magnitude. */
  lemma ParseMagnitudeOfDigits(d: string)
    requires |d| >= 1 && AllDigits(d)
    ensures ParseMagnitude(d) == Some(DigitsValue(d) as int)
  {
    DigitRunOfDigits(d);
    assert d[..|d|] == d;
    assert d[|d|..] == [];
  }

  /** Text that starts with a minus sign, and not with white space. */
  lemma ParseInt32Negative(s: string)
    requires |s| > 0 && s[0] == '-'
    ensures ParseInt32(s) == match ParseMagnitude(s[1..]) case None => None case Some(m) => ToInt32(-m)
  {
    assert DropNumberWhite(s) == s;
  }

  /** Text that starts with a digit. */
  lemma ParseInt32Digit(s: string)
    requires |s| > 0 && IsDigit(s[0])
    ensures ParseInt32(s) == match ParseMagnitude(s) case None => None case Some(m) => ToInt32(m)
  {
    assert DropNumberWhite(s) == s;
  }

  /** Unsigned digits parse as their value. */
  lemma ParseUnsignedDigits(d: string)
    requires |d| >= 1 && AllDigits(d) && DigitsValue(d) < 0x8000_0000
    ensures ParseInt32(d) == Some(DigitsValue(d) as int)
  {
    assert IsDigit(d[0]);
    ParseInt32Digit(d);
    ParseMagnitudeOfDigits(d);
    var v := DigitsValue(d) as int;
    assert ToInt32(v) == Some(v);
  }

  /** Digits after a minus sign parse as the negated value. */
  lemma ParseNegatedDigits(d: string)
    requires |d| >= 1 && AllDigits(d) && 0 < DigitsValue(d) <= 0x8000_0000
    ensures ParseInt32("-" + d) == Some(-(DigitsValue(d) as int))
  {
    var s := "-" + d;
    assert s[0] == '-' && s[1..] == d;
    NegatedText(s, d);
  }

  lemma NegatedText(s: string, d: string)
    requires |s| > 0 && s[0] == '-' && s[1..] == d
    requires |d| >= 1 && AllDigits(d) && 0 < DigitsValue(d) <= 0x8000_0000
    ensures ParseInt32(s) == Some(-(DigitsValue(d) as int))
  {
    ParseInt32Negative(s);
    ParseMagnitudeOfDigits(d);
    NegatedInRange(DigitsValue(d));
  }

  lemma NegatedInRange(v: int)
    requires 0 < v <= 0x8000_0000
    ensures ToInt32(-v) == Some(-v)
  {
  }

  /** The rendering of an Int32 reads back as the same Int32. */
  lemma ParseFormatInt32(n: Int32)
    ensures ParseInt32(FormatInt32(n)) == Some(n)
  {
    var m: int := n;
    if m < 0 {
      ParseNegatedDigits(Digits(-m));
    } else {
      ParseUnsignedDigits(Digits(m));
    }
  }

  /** Text starting with neither white space, a sign nor a digit is not an Int32. */
  lemma ParseInt32RejectsNonNumeric(s: string)
    requires |s| > 0 && !IsNumberWhite(s[0]) && !IsDigit(s[0]) && s[0] != '-' && s[0] != '+'
    ensures ParseInt32(s).None?
  {
    assert DropNumberWhite(s) == s;
  }

  // ---------------------------------------------------------------------
  // bool.TryParse(s) and the rendering of a bool
  // ---------------------------------------------------------------------

  function ToUpperAscii(c: char): char {
    if 'a' <= c <= 'z' then (c as int - 32) as char else c
  }

  /** Ordinal case-insensitive equality (`StringComparison.OrdinalIgnoreCase`) over ASCII letters. */
  predicate EqualsIgnoreCase(s: string, t: string) {
    |s| == |t| && forall i :: 0 <= i < |s| ==> ToUpperAscii(s[i]) == ToUpperAscii(t[i])
  }

  predicate IsWhiteSpaceOrNul(c: char) {
    IsWhiteSpace(c) || c == '\0'
  }

  function TrimWhiteSpaceAndNul(s: string): (r: string)
    ensures |r| <= |s|
    decreases |s|
  {
    if |s| > 0 && IsWhiteSpaceOrNul(s[0]) then TrimWhiteSpaceAndNul(s[1..])
    else if |s| > 0 && IsWhiteSpaceOrNul(s[|s| - 1]) then TrimWhiteSpaceAndNul(s[..|s| - 1])
    else s
  }

  /**
   * `bool.TryParse(s, out bool b)`: "True" or "False" in any letter case, once white
   * space and NUL characters are stripped from both ends.
   */
  function ParseBool(s: string): (r: Option<bool>)
    ensures r.Some? ==> EqualsIgnoreCase(TrimWhiteSpaceAndNul(s), if r.value then "True" else "False")
  {
    var t := TrimWhiteSpaceAndNul(s);
    if EqualsIgnoreCase(t, "True") then Some(true)
    else if EqualsIgnoreCase(t, "False") then Some(false)
    else None
  }

  /** `Boolean.ToString()`, culture-independent; it parses back to the same bool. */
  function FormatBool(b: bool): (r: string)
    ensures ParseBool(r) == Some(b)
  {
    if b then "True" else "False"
  }

  /** The bool renderings are not integer text. */
  lemma FormatBoolIsNotInt32(b: bool)
    ensures ParseInt32(FormatBool(b)).None?
  {
    ParseInt32RejectsNonNumeric(FormatBool(b));
  }

  // ---------------------------------------------------------------------
  // String values: newline normalisation on load, escaping on save
  // ---------------------------------------------------------------------

  /** `value.Replace("\n", NewLine).Replace("\\n", NewLine)`: a real or an escaped newline becomes the platform terminator. */
  function NormalizeNewLines(value: string, newLine: NewLine): (r: string)
    ensures forall c :: c in r ==> c in value || c in newLine
    ensures '\n' !in value && '\\' !in value ==> r == value
  {
    var once := Replace(value, "\n", newLine);
    assert '\n' !in value && '\\' !in value ==> once == value && Replace(once, "\\n", newLine) == once by {
      if '\n' !in value && '\\' !in value {
        ReplaceAbsent(value, "\n", newLine);
        ReplaceAbsent(once, "\\n", newLine);
      }
    }
    Replace(once, "\\n", newLine)
  }

  /** `value.Replace(NewLine, "\\n")`: the platform terminator written back as the two characters `\n`. */
  function EscapeNewLines(value: string, newLine: NewLine): (r: string)
    ensures forall c :: c in r ==> c in value || c in "\\n"
    ensures newLine[0] !in value ==> r == value
  {
    assert newLine[0] !in value ==> Replace(value, newLine, "\\n") == value by {
      if newLine[0] !in value {
        ReplaceAbsent(value, newLine, "\\n");
      }
    }
    Replace(value, newLine, "\\n")
  }

  /** For a single physical line, escaping undoes normalisation exactly. */
  lemma EscapeNormalized(value: string, newLine: NewLine)
    requires IsSingleLine(value)
    requires newLine == "\n" || newLine == "\r\n"
    ensures EscapeNewLines(NormalizeNewLines(value, newLine), newLine) == value
  {
    assert "\n"[0] !in value;
    ReplaceAbsent(value, "\n", newLine);
    assert newLine[0] !in value;
    ReplaceInverse(value, "\\n", newLine);
  }

  // ---------------------------------------------------------------------
  // Classification of a raw value and rendering of a typed one
  // ---------------------------------------------------------------------

  /**
   * The fixed order in which a raw value is typed: an integer if `tryInt`
   * accepts it, else a float if `tryFloat` does, else a bool, else a string
   * with its newlines normalised.
   */
  function Classify(value: string, tryInt: string -> Option<Int32>, tryFloat: string -> Option<Float32>,
                    newLine: NewLine): (r: Value)
    ensures r.IntValue? <==> tryInt(value).Some?
    ensures r.IntValue? ==> r.i == tryInt(value).value
    ensures r.FloatValue? <==> tryInt(value).None? && tryFloat(value).Some?
    ensures r.FloatValue? ==> r.f == tryFloat(value).value
    ensures r.BoolValue? <==> tryInt(value).None? && tryFloat(value).None? && ParseBool(value).Some?
    ensures r.BoolValue? ==> r.b == ParseBool(value).value
    ensures r.StringValue? ==> r.s == NormalizeNewLines(value, newLine)
  {
    match tryInt(value)
    case Some(i) => IntValue(i)
    case None =>
      match tryFloat(value)
      case Some(f) => FloatValue(f)
      case None =>
        match ParseBool(value)
        case Some(b) => BoolValue(b)
        case None => StringValue(NormalizeNewLines(value, newLine))
  }

  /** `string.Format(CultureInfo.InvariantCulture, "{0}", value)`; a null value formats as the empty string. */
  function FormatInvariant(value: Option<Value>, rt: Runtime): (r: string)
    ensures value.None? ==> r == ""
    ensures value.Some? && value.value.IntValue? ==> ParseInt32(r) == Some(value.value.i)
    ensures value.Some? && value.value.BoolValue? ==> ParseBool(r) == Some(value.value.b)
    ensures value.Some? && value.value.StringValue? ==> r == value.value.s
    ensures value.Some? && value.value.FloatValue? ==> r == rt.formatFloatInvariant(value.value.f)
  {
    if value.Some? && value.value.IntValue? then ParseFormatInt32(value.value.i); FormatInt32(value.value.i)
    else
    match value
    case None => ""
    case Some(IntValue(i)) => FormatInt32(i)
    case Some(FloatValue(f)) => rt.formatFloatInvariant(f)
    case Some(BoolValue(b)) => FormatBool(b)
    case Some(StringValue(s)) => s
  }

  /**
   * `value.ToString()` under the current culture: the invariant rendering for an
   * int, a bool or a string, and the current-culture float formatter for a float.
   * A negative int is written with the ASCII '-', not with the culture's
   * `NegativeSign`.
   */
  function DisplayString(value: Value, rt: Runtime): (r: string)
    ensures !value.FloatValue? ==> r == FormatInvariant(Some(value), rt)
    ensures value.FloatValue? ==> r == rt.formatFloat(value.f)
  {
    match value
    case IntValue(i) => FormatInt32(i)
    case FloatValue(f) => rt.formatFloat(f)
    case BoolValue(b) => FormatBool(b)
    case StringValue(s) => s
  }
}
