/**
 * `FileEditablePropertyProvider`: reads every line of a file into an entry and
 * writes entries back as lines. A line whose trimmed form starts with the comment
 * sign, or is blank, is kept verbatim (trimmed) as a passthrough entry; every
 * other line must be a binding `[static] [field] path = value`.
 *
 * The file is a sequence of lines in and a sequence of lines out; reading and
 * writing the file itself are not part of this model.
 */
module FileEditablePropertyProvider {
  import opened Wrappers
  import opened Strings
  import opened ValueCoercion
  import opened LineFormat
  import opened PropertyEntry

  /** `IndexOutOfRangeException`: a binding line without '=' has no `strings[1]`. */
  datatype LoadError = MissingSeparator

  /** `InvalidCastException`: an entry to be saved is not a `PropertyLine`. */
  datatype SaveError = NotPropertyLine

  /** The passthrough test on a trimmed line: a comment or white space only. */
  predicate IsPassthroughText(trimmed: string, commentSign: string) {
    StartsWith(trimmed, commentSign) || IsNullOrWhiteSpace(trimmed)
  }

  /** A passthrough `PropertyLine`: every `PropertyEntry` field at its default. */
  function PassthroughEntry(source: string): Entry {
    DefaultEntry.(line := Some(Line(true, source)))
  }

  /** The loop body of `GetPropertyEntries` for one line. */
  function ParseLine(line: string, commentSign: string, rt: Runtime): (r: Result<Entry, LoadError>)
    ensures r.Failure? <==> !IsPassthroughText(Trim(line), commentSign) && '=' !in Trim(line)
    ensures r.Success? ==> r.value.line == Some(Line(IsPassthroughText(Trim(line), commentSign), Trim(line)))
    ensures r.Success? && IsPassthroughText(Trim(line), commentSign) ==> r.value == PassthroughEntry(Trim(line))
    ensures r.Success? && !IsPassthroughText(Trim(line), commentSign) ==>
              r.value.value.Some? && '=' !in r.value.property
              && WellFormedKey(KeyClause(r.value.property, r.value.isStatic, r.value.isField))
  {
    var trimmedLine := Trim(line);
    if IsPassthroughText(trimmedLine, commentSign) then Success(PassthroughEntry(trimmedLine))
    else
      var strings := SplitFirst(trimmedLine, '=');
      if |strings| < 2 then Failure(MissingSeparator)
      else
        var key := ParseKeyClause(strings[0]);
        var value := Trim(strings[1]);
        Success(Entry(key.path, Some(Classify(value, ParseInt32, rt.tryParseFloat, rt.newLine)),
                      key.isField, key.isStatic, Some(Line(false, trimmedLine))))
  }

  /** All lines, in order; the first binding line without '=' fails the whole load. */
  function ParseFile(lines: seq<string>, commentSign: string, rt: Runtime): (r: Result<seq<Entry>, LoadError>)
    ensures r.Success? <==> forall i :: 0 <= i < |lines| ==> ParseLine(lines[i], commentSign, rt).Success?
    ensures r.Success? ==> |r.value| == |lines|
    ensures r.Success? ==> forall i :: 0 <= i < |lines| ==> ParseLine(lines[i], commentSign, rt) == Success(r.value[i])
    ensures r.Failure? ==> r.error == MissingSeparator
  {
    MapResult(lines, LineParser(commentSign, rt))
  }

  function LineParser(commentSign: string, rt: Runtime): string -> Result<Entry, LoadError> {
    line => ParseLine(line, commentSign, rt)
  }

  /** `GetPropertyEntries()` over the lines the file holds. */
  method GetPropertyEntries(lines: seq<string>, commentSign: string, rt: Runtime) returns (r: Result<seq<Entry>, LoadError>)
    ensures r == ParseFile(lines, commentSign, rt)
  {
    var entries: seq<Entry> := [];
    var i := 0;
    while i < |lines|
      invariant 0 <= i <= |lines|
      invariant MapResult(lines[..i], LineParser(commentSign, rt)) == Success(entries)
    {
      var newLine := ParseLine(lines[i], commentSign, rt);
      MapResultStep(lines, i, LineParser(commentSign, rt), entries);
      if newLine.Failure? {
        return Failure(newLine.error);
      }
      entries := entries + [newLine.value];
      i := i + 1;
    }
    assert lines[..i] == lines;
    r := Success(entries);
  }

  /** The line `Save` writes for one entry. */
  function SaveLine(e: Entry, rt: Runtime): (r: Result<string, SaveError>)
    ensures r.Failure? <==> e.line.None?
    ensures r.Success? && e.line.value.isCommentOrEmpty ==> r.value == e.line.value.source
  {
    if e.line.None? then Failure(NotPropertyLine)
    else if e.line.value.isCommentOrEmpty then Success(e.line.value.source)
    else
      var value := EscapeNewLines(FormatInvariant(e.value, rt), rt.newLine);
      Success(FormatKeyClause(KeyClause(e.property, e.isStatic, e.isField)) + " = " + value)
  }

  /** The lines `Save` writes: one per entry, or nothing at all when some entry is not a `PropertyLine`. */
  function SaveFile(entries: seq<Entry>, rt: Runtime): (r: Result<seq<string>, SaveError>)
    ensures r.Success? <==> forall i :: 0 <= i < |entries| ==> entries[i].line.Some?
    ensures r.Success? ==> |r.value| == |entries|
    ensures r.Success? ==> forall i :: 0 <= i < |entries| ==> SaveLine(entries[i], rt) == Success(r.value[i])
    ensures r.Failure? ==> r.error == NotPropertyLine
  {
    MapResult(entries, LineSaver(rt))
  }

  function LineSaver(rt: Runtime): Entry -> Result<string, SaveError> {
    e => SaveLine(e, rt)
  }

  /** `Save(lines)`: the lines `File.WriteAllLines` is given. */
  method Save(entries: seq<Entry>, rt: Runtime) returns (r: Result<seq<string>, SaveError>)
    ensures r == SaveFile(entries, rt)
  {
    var lineList: seq<string> := [];
    var i := 0;
    while i < |entries|
      invariant 0 <= i <= |entries|
      invariant MapResult(entries[..i], LineSaver(rt)) == Success(lineList)
    {
      var entry := entries[i];
      MapResultStep(entries, i, LineSaver(rt), lineList);
      if entry.line.None? {
        return Failure(NotPropertyLine);
      }
      var outLine;
      if entry.line.value.isCommentOrEmpty {
        outLine := entry.line.value.source;
      } else {
        outLine := FormatKeyClause(KeyClause(entry.property, entry.isStatic, entry.isField));
        var value := FormatInvariant(entry.value, rt);
        value := EscapeNewLines(value, rt.newLine);
        outLine := outLine + " = " + value;
      }
      lineList := lineList + [outLine];
      i := i + 1;
    }
    assert entries[..i] == entries;
    r := Success(lineList);
  }

  // ---------------------------------------------------------------------
  // The file between a save and the next load
  // ---------------------------------------------------------------------

  /** `File.WriteAllLines`: the text of the file, every line followed by `Environment.NewLine`. */
  function WriteAllLines(lines: seq<string>, newLine: NewLine): (r: string)
    ensures r == [] <==> lines == []
  {
    if lines == [] then [] else lines[0] + newLine + WriteAllLines(lines[1..], newLine)
  }

  /** The length of the first line of `text`: the characters before its first '\r' or '\n'. */
  function LineLength(text: string): (n: nat)
    ensures n <= |text| && IsSingleLine(text[..n])
    ensures n < |text| ==> text[n] == '\n' || text[n] == '\r'
  {
    if text == [] || text[0] == '\n' || text[0] == '\r' then 0
    else
      var n := 1 + LineLength(text[1..]);
      assert text[..n] == [text[0]] + text[1..][..n - 1];
      n
  }

  /**
   * `File.ReadAllLines`: the text cut at every "\r\n", '\r' or '\n'. A terminator
   * at the very end starts no further line, and no line holds a terminator.
   */
  function ReadAllLines(text: string): (r: seq<string>)
    ensures forall i :: 0 <= i < |r| ==> IsSingleLine(r[i])
    decreases |text|
  {
    if text == [] then []
    else
      var n := LineLength(text);
      if n == |text| then assert text[..n] == text; [text]
      else
        var skip := if text[n] == '\r' && n + 1 < |text| && text[n + 1] == '\n' then 2 else 1;
        var rest := ReadAllLines(text[n + skip..]);
        assert forall i :: 1 <= i < |rest| + 1 ==> ([text[..n]] + rest)[i] == rest[i - 1];
        [text[..n]] + rest
  }

  /** A single line followed by the platform terminator ends where the line does. */
  lemma {:induction false} LineLengthOfWritten(line: string, newLine: NewLine, rest: string)
    requires IsSingleLine(line) && (newLine == "\n" || newLine == "\r\n")
    ensures LineLength(line + newLine + rest) == |line|
    decreases |line|
  {
    if line != [] {
      assert line[0] in line;
      assert (line + newLine + rest)[1..] == line[1..] + newLine + rest;
      assert IsSingleLine(line[1..]) by {
        assert forall c :: c in line[1..] ==> c in line;
      }
      LineLengthOfWritten(line[1..], newLine, rest);
    }
  }

  /** Lines without a terminator, written and read back, are the same lines. */
  lemma {:induction false} ReadWrittenLines(lines: seq<string>, newLine: NewLine)
    requires newLine == "\n" || newLine == "\r\n"
    requires forall i :: 0 <= i < |lines| ==> IsSingleLine(lines[i])
    ensures ReadAllLines(WriteAllLines(lines, newLine)) == lines
    decreases |lines|
  {
    if lines != [] {
      var rest := WriteAllLines(lines[1..], newLine);
      var text := lines[0] + newLine + rest;
      assert text == WriteAllLines(lines, newLine);
      LineLengthOfWritten(lines[0], newLine, rest);
      var n := |lines[0]|;
      assert text[..n] == lines[0];
      assert text[n + |newLine|..] == rest;
      assert forall i :: 0 <= i < |lines[1..]| ==> lines[1..][i] == lines[i + 1];
      ReadWrittenLines(lines[1..], newLine);
      assert lines == [lines[0]] + lines[1..];
    }
  }

  /**
   * The lines the next `File.ReadAllLines` returns after `File.WriteAllLines(written)`.
   * They are the lines written exactly when none of those holds a line break.
   */
  function StoredLines(written: seq<string>, newLine: NewLine): (r: seq<string>)
    ensures forall i :: 0 <= i < |r| ==> IsSingleLine(r[i])
    ensures newLine == "\n" || newLine == "\r\n" ==>
              (r == written <==> forall i :: 0 <= i < |written| ==> IsSingleLine(written[i]))
  {
    var r := ReadAllLines(WriteAllLines(written, newLine));
    assert (newLine == "\n" || newLine == "\r\n") && (forall i :: 0 <= i < |written| ==> IsSingleLine(written[i]))
           ==> r == written by {
      if (newLine == "\n" || newLine == "\r\n") && (forall i :: 0 <= i < |written| ==> IsSingleLine(written[i])) {
        ReadWrittenLines(written, newLine);
      }
    }
    r
  }

  // ---------------------------------------------------------------------
  // Round trip: load, save, load again
  // ---------------------------------------------------------------------

  /**
   * What a second load gives back for an entry: the same line kind, path and flags;
   * a passthrough entry unchanged; an int, bool or string value unchanged.
   */
  predicate ReloadsAs(e: Entry, e2: Entry) {
    && e2.property == e.property && e2.isStatic == e.isStatic && e2.isField == e.isField
    && e2.line.Some? && e.line.Some? && e2.line.value.isCommentOrEmpty == e.line.value.isCommentOrEmpty
    && (e.IsPassthrough() ==> e2 == e)
    && (e.PropertyType() != Some(FloatKind) ==> e2.value == e.value)
  }

  /**
   * When the saved form of a binding entry can be read back: the bare path does
   * not start with white space (it would be trimmed away), and the saved line does
   * not itself read as a comment.
   */
  predicate SavesSafely(e: Entry, commentSign: string, rt: Runtime) {
    e.line.Some? &&
    (!e.line.value.isCommentOrEmpty ==>
       (e.isStatic || e.isField || e.property == [] || !IsWhiteSpace(e.property[0]))
       && !StartsWith(Trim(SaveLine(e, rt).value), commentSign))
  }

  /** A passthrough line is written back as its trimmed text, which reads back as the same entry. */
  lemma PassthroughRoundTrip(line: string, e: Entry, commentSign: string, rt: Runtime)
    requires ParseLine(line, commentSign, rt) == Success(e) && e.IsPassthrough()
    ensures SaveLine(e, rt) == Success(Trim(line))
    ensures ParseLine(Trim(line), commentSign, rt) == Success(e)
  {
    TrimIdempotent(line);
  }

  /** A text holding '=' is not blank. */
  lemma SeparatorIsNotBlank(t: string)
    requires '=' in t
    ensures !IsNullOrWhiteSpace(t)
  {
    var i :| 0 <= i < |t| && t[i] == '=';
    assert !IsWhiteSpace(t[i]);
  }

  /** The text after the first '=' of a single line is a single line. */
  lemma SingleLineSplit(t: string)
    requires IsSingleLine(t) && '=' in t
    ensures IsSingleLine(SplitFirst(t, '=')[1])
  {
    var parts := SplitFirst(t, '=');
    forall i | 0 <= i < |parts[1]| ensures parts[1][i] != '\n' && parts[1][i] != '\r' {
      assert parts[1][i] == t[|parts[0]| + 1 + i];
    }
  }

  /** The key clause depends only on the trimmed text before the '='. */
  lemma ParseKeyClauseOfTrimmed(x: string, key: string)
    requires Trim(x) == key && IsTrimmed(key)
    ensures ParseKeyClause(x) == ParseKeyClause(key)
  {
  }

  /** A parsed binding entry: its well-formed key and the raw value text it was typed from. */
  lemma BindingParts(line: string, e: Entry, commentSign: string, rt: Runtime) returns (raw: string)
    requires IsSingleLine(line)
    requires ParseLine(line, commentSign, rt) == Success(e) && !e.IsPassthrough()
    ensures e.line.Some? && !e.line.value.isCommentOrEmpty
    ensures WellFormedKey(KeyClause(e.property, e.isStatic, e.isField)) && '=' !in e.property
    ensures IsSingleLine(e.property)
    ensures IsSingleLine(raw) && IsTrimmed(raw)
    ensures e.value == Some(Classify(raw, ParseInt32, rt.tryParseFloat, rt.newLine))
  {
    var trimmedLine := Trim(line);
    var strings := SplitFirst(trimmedLine, '=');
    raw := Trim(strings[1]);
    var w1, w2 := TrimParts(line);
    assert forall c :: c in e.property ==> c in strings[0];
    TrimKeepsSingleLine(line);
    SingleLineSplit(trimmedLine);
    TrimKeepsSingleLine(strings[1]);
  }

  /** The saved line of a binding entry, read back: the same key clause, and the value typed afresh. */
  lemma ReadSavedBinding(e: Entry, commentSign: string, rt: Runtime) returns (raw: string)
    requires e.line.Some? && !e.line.value.isCommentOrEmpty
    requires WellFormedKey(KeyClause(e.property, e.isStatic, e.isField)) && '=' !in e.property
    requires SavesSafely(e, commentSign, rt)
    ensures raw == Trim(EscapeNewLines(FormatInvariant(e.value, rt), rt.newLine))
    ensures ParseLine(SaveLine(e, rt).value, commentSign, rt)
         == Success(Entry(e.property, Some(Classify(raw, ParseInt32, rt.tryParseFloat, rt.newLine)),
                          e.isField, e.isStatic, Some(Line(false, Trim(SaveLine(e, rt).value)))))
  {
    var k := KeyClause(e.property, e.isStatic, e.isField);
    var key := FormatKeyClause(k);
    var value := EscapeNewLines(FormatInvariant(e.value, rt), rt.newLine);
    var saved := key + " = " + value;
    assert SaveLine(e, rt).value == saved;
    FormatKeyClauseTrimmed(k);
    FormatKeyClauseHasNoSeparator(k);
    TrimBinding(key, value);
    var t := Trim(saved);
    SeparatorIsNotBlank(t);
    var strings := SplitFirst(t, '=');
    ParseKeyClauseOfTrimmed(strings[0], key);
    KeyClauseRoundTrip(k);
    raw := Trim(value);
  }

  /** Trimmed text without a line terminator is written unchanged. */
  lemma PlainText(s: string, newLine: NewLine)
    requires IsTrimmed(s) && newLine[0] !in s
    ensures Trim(EscapeNewLines(s, newLine)) == s
  {
    ReplaceAbsent(s, newLine, "\\n");
  }

  /** The written form of an Int32 reads back as the same Int32. */
  lemma IntTextReloads(n: Int32, rt: Runtime)
    requires rt.HasPlatformNewLine()
    ensures Classify(Trim(EscapeNewLines(FormatInt32(n), rt.newLine)), ParseInt32, rt.tryParseFloat, rt.newLine)
         == IntValue(n)
  {
    var s := FormatInt32(n);
    FormatInt32Chars(n);
    assert rt.newLine[0] !in s by {
      forall j | 0 <= j < |s| ensures s[j] != rt.newLine[0] {
        assert s[j] == '-' || IsDigit(s[j]);
      }
    }
    assert IsTrimmed(s) by {
      assert s[0] == '-' || IsDigit(s[0]);
    }
    PlainText(s, rt.newLine);
    ParseFormatInt32(n);
  }

  /** The written form of a bool reads back as the same bool. */
  lemma BoolTextReloads(b: bool, rt: Runtime)
    requires rt.HasPlatformNewLine() && rt.FloatRejectsBooleans()
    ensures Classify(Trim(EscapeNewLines(FormatBool(b), rt.newLine)), ParseInt32, rt.tryParseFloat, rt.newLine)
         == BoolValue(b)
  {
    var s := FormatBool(b);
    assert IsTrimmed(s) && rt.newLine[0] !in s by {
      assert s[0] in "TF" && s[|s| - 1] == 'e';
    }
    PlainText(s, rt.newLine);
    FormatBoolIsNotInt32(b);
  }

  /**
   * A value typed from a trimmed single line, written and typed again, is the same
   * value unless it is a float.
   */
  lemma ValueReloads(v: Value, raw: string, rt: Runtime)
    requires rt.HasPlatformNewLine() && rt.FloatRejectsBooleans()
    requires IsSingleLine(raw) && IsTrimmed(raw)
    requires v == Classify(raw, ParseInt32, rt.tryParseFloat, rt.newLine)
    ensures v.Kind() != FloatKind ==>
      Classify(Trim(EscapeNewLines(FormatInvariant(Some(v), rt), rt.newLine)), ParseInt32, rt.tryParseFloat, rt.newLine) == v
  {
    match v {
      case IntValue(i) => IntTextReloads(i, rt);
      case FloatValue(_) =>
      case BoolValue(b) => BoolTextReloads(b, rt);
      case StringValue(s) =>
        EscapeNormalized(raw, rt.newLine);
    }
  }

  /** A binding's saved line is one line exactly when its key clause and its written value are. */
  lemma SavedBindingLine(e: Entry, rt: Runtime)
    requires e.line.Some? && !e.line.value.isCommentOrEmpty
    ensures SaveLine(e, rt).Success?
    ensures IsSingleLine(SaveLine(e, rt).value) <==>
              IsSingleLine(FormatKeyClause(KeyClause(e.property, e.isStatic, e.isField)))
              && IsSingleLine(EscapeNewLines(FormatInvariant(e.value, rt), rt.newLine))
  {
  }

  /** Every rendering but a string's is a single line. */
  lemma RenderingSingleLine(v: Value, rt: Runtime)
    requires rt.FloatRendersOnOneLine() && !v.StringValue?
    ensures IsSingleLine(FormatInvariant(Some(v), rt))
  {
    match v {
      case IntValue(i) =>
        FormatInt32Chars(i);
        assert forall c :: c in FormatInt32(i) ==> c == '-' || IsDigit(c);
      case FloatValue(f) =>
        assert IsSingleLine(rt.formatFloatInvariant(f));
      case BoolValue(b) =>
    }
  }

  /** The value text written for a value typed from a single line is a single line. */
  lemma WrittenValueSingleLine(v: Value, raw: string, rt: Runtime)
    requires rt.HasPlatformNewLine() && rt.FloatRendersOnOneLine()
    requires IsSingleLine(raw) && v == Classify(raw, ParseInt32, rt.tryParseFloat, rt.newLine)
    ensures IsSingleLine(EscapeNewLines(FormatInvariant(Some(v), rt), rt.newLine))
  {
    if v.StringValue? {
      EscapeNormalized(raw, rt.newLine);
    } else {
      RenderingSingleLine(v, rt);
    }
  }

  /** The saved line of an entry read from a single line is itself a single line. */
  lemma SavedLineIsSingleLine(line: string, e: Entry, commentSign: string, rt: Runtime)
    requires IsSingleLine(line) && rt.HasPlatformNewLine() && rt.FloatRendersOnOneLine()
    requires ParseLine(line, commentSign, rt) == Success(e)
    ensures SaveLine(e, rt).Success? && IsSingleLine(SaveLine(e, rt).value)
  {
    if e.IsPassthrough() {
      TrimKeepsSingleLine(line);
    } else {
      var raw := BindingParts(line, e, commentSign, rt);
      WrittenValueSingleLine(e.value.value, raw, rt);
      FormatKeyClauseSingleLine(KeyClause(e.property, e.isStatic, e.isField));
      SavedBindingLine(e, rt);
    }
  }

  /**
   * Reading back the saved line of a parsed binding entry gives the same path,
   * flags and line kind, and the same value unless it is a float.
   */
  lemma BindingRoundTrip(line: string, e: Entry, commentSign: string, rt: Runtime)
    requires IsSingleLine(line) && rt.HasPlatformNewLine() && rt.FloatRejectsBooleans()
    requires ParseLine(line, commentSign, rt) == Success(e) && !e.IsPassthrough()
    requires SavesSafely(e, commentSign, rt)
    ensures ParseLine(SaveLine(e, rt).value, commentSign, rt).Success?
    ensures ReloadsAs(e, ParseLine(SaveLine(e, rt).value, commentSign, rt).value)
  {
    var raw := BindingParts(line, e, commentSign, rt);
    ValueReloads(e.value.value, raw, rt);
    var raw2 := ReadSavedBinding(e, commentSign, rt);
  }

  /**
   * A float whose invariant rendering is integer text is read back as an int: the
   * value kind of a saved float is not preserved.
   */
  lemma FloatRenderedAsIntegerReloadsAsInt(e: Entry, commentSign: string, rt: Runtime, n: Int32)
    requires rt.HasPlatformNewLine()
    requires e.line.Some? && !e.line.value.isCommentOrEmpty
    requires WellFormedKey(KeyClause(e.property, e.isStatic, e.isField)) && '=' !in e.property
    requires SavesSafely(e, commentSign, rt)
    requires e.value.Some? && e.value.value.FloatValue?
    requires rt.formatFloatInvariant(e.value.value.f) == FormatInt32(n)
    ensures ParseLine(SaveLine(e, rt).value, commentSign, rt).Success?
    ensures ParseLine(SaveLine(e, rt).value, commentSign, rt).value.value == Some(IntValue(n))
  {
    IntTextReloads(n, rt);
    var raw := ReadSavedBinding(e, commentSign, rt);
  }

  /** One line's round trip, passthrough or binding. */
  lemma LineRoundTrip(line: string, e: Entry, commentSign: string, rt: Runtime)
    requires IsSingleLine(line) && rt.HasPlatformNewLine() && rt.FloatRejectsBooleans()
    requires ParseLine(line, commentSign, rt) == Success(e)
    requires SavesSafely(e, commentSign, rt)
    ensures SaveLine(e, rt).Success?
    ensures ParseLine(SaveLine(e, rt).value, commentSign, rt).Success?
    ensures ReloadsAs(e, ParseLine(SaveLine(e, rt).value, commentSign, rt).value)
  {
    if e.IsPassthrough() {
      PassthroughRoundTrip(line, e, commentSign, rt);
    } else {
      BindingRoundTrip(line, e, commentSign, rt);
    }
  }

  /**
   * Loading a file, saving what was loaded and loading the result again gives one
   * entry per original line, each reading back as its original.
   */
  lemma LoadSaveLoad(lines: seq<string>, commentSign: string, rt: Runtime)
    requires rt.HasPlatformNewLine() && rt.FloatRejectsBooleans()
    requires forall i :: 0 <= i < |lines| ==> IsSingleLine(lines[i])
    requires ParseFile(lines, commentSign, rt).Success?
    requires forall i :: 0 <= i < |lines| ==> SavesSafely(ParseFile(lines, commentSign, rt).value[i], commentSign, rt)
    ensures SaveFile(ParseFile(lines, commentSign, rt).value, rt).Success?
    ensures ParseFile(SaveFile(ParseFile(lines, commentSign, rt).value, rt).value, commentSign, rt).Success?
    ensures var es, es2 := ParseFile(lines, commentSign, rt).value,
                           ParseFile(SaveFile(ParseFile(lines, commentSign, rt).value, rt).value, commentSign, rt).value;
      |es2| == |lines| && forall i :: 0 <= i < |lines| ==> ReloadsAs(es[i], es2[i])
  {
    var es := ParseFile(lines, commentSign, rt).value;
    forall i | 0 <= i < |lines|
      ensures SaveLine(es[i], rt).Success?
      ensures ParseLine(SaveLine(es[i], rt).value, commentSign, rt).Success?
      ensures ReloadsAs(es[i], ParseLine(SaveLine(es[i], rt).value, commentSign, rt).value)
    {
      LineRoundTrip(lines[i], es[i], commentSign, rt);
    }
    var out := SaveFile(es, rt).value;
    assert forall i :: 0 <= i < |lines| ==> ParseLine(out[i], commentSign, rt).Success?;
  }
}
