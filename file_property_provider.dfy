/**
 * `FilePropertyProvider`: the read-only file provider. It keeps only lines that
 * are neither blank nor comments and contain '='; every other line is skipped
 * rather than rejected. Values are typed with the invariant-culture
 * `NumberStyles.Any` parsers, and the entries carry no source line, so they
 * cannot be written back.
 */
module FilePropertyProvider {
  import opened Wrappers
  import opened Strings
  import opened ValueCoercion
  import opened LineFormat
  import opened PropertyEntry
  import Editable = FileEditablePropertyProvider

  /**
   * The filter in front of the loop body: not blank, not a comment, holding a '='.
   * The blank test is implied by the other two.
   */
  predicate Accepts(line: string, commentSign: string): (r: bool)
    ensures r <==> '=' in Trim(line) && !StartsWith(Trim(line), commentSign)
    ensures r ==> !IsNullOrWhiteSpace(line)
  {
    SeparatorInTrim(line);
    assert IsNullOrWhiteSpace(line) ==> '=' !in line by {
      if IsNullOrWhiteSpace(line) { NoSeparatorInWhiteSpace(line); }
    }
    Trim(line) != [] && !StartsWith(Trim(line), commentSign) && '=' in line
  }

  /** The loop body for one accepted line: the untrimmed line is split at its first '='. */
  function ParseEntry(line: string, rt: Runtime): (r: Entry)
    requires '=' in line
    ensures r.line.None? && r.value.Some?
    ensures '=' !in r.property && WellFormedKey(KeyClause(r.property, r.isStatic, r.isField))
  {
    var strings := SplitFirst(line, '=');
    var key := ParseKeyClause(strings[0]);
    var value := Trim(strings[1]);
    Entry(key.path, Some(Classify(value, rt.tryParseIntAny, rt.tryParseFloatAny, rt.newLine)),
          key.isField, key.isStatic, None)
  }

  /** What one line contributes: an entry when it is accepted, nothing otherwise. */
  function ReadLine(line: string, commentSign: string, rt: Runtime): Option<Entry> {
    if Accepts(line, commentSign) then Some(ParseEntry(line, rt)) else None
  }

  function LineReader(commentSign: string, rt: Runtime): string -> Option<Entry> {
    line => ReadLine(line, commentSign, rt)
  }

  /** The entries of a file, in line order. */
  function ParseFile(lines: seq<string>, commentSign: string, rt: Runtime): (r: seq<Entry>)
    ensures |r| <= |lines|
  {
    Collect(lines, LineReader(commentSign, rt))
  }

  /** `GetPropertyEntries()` over the lines the file holds. */
  method GetPropertyEntries(lines: seq<string>, commentSign: string, rt: Runtime) returns (entries: seq<Entry>)
    ensures entries == ParseFile(lines, commentSign, rt)
  {
    entries := [];
    var i := 0;
    while i < |lines|
      invariant 0 <= i <= |lines|
      invariant entries == Collect(lines[..i], LineReader(commentSign, rt))
    {
      var line := lines[i];
      CollectStep(lines, i, LineReader(commentSign, rt));
      if Trim(line) != [] && !StartsWith(Trim(line), commentSign) && '=' in line {
        var newEntry := ParseEntry(line, rt);
        entries := entries + [newEntry];
      }
      i := i + 1;
    }
    assert lines[..i] == lines;
  }

  // ---------------------------------------------------------------------
  // Properties
  // ---------------------------------------------------------------------

  /** Reading a file is reading its parts one after the other. */
  lemma ParseFileAppend(a: seq<string>, b: seq<string>, commentSign: string, rt: Runtime)
    ensures ParseFile(a + b, commentSign, rt) == ParseFile(a, commentSign, rt) + ParseFile(b, commentSign, rt)
  {
    CollectAppend(a, b, LineReader(commentSign, rt));
  }

  /** Every entry is the reading of an accepted line, and none can be saved as a line. */
  lemma EntriesFromAcceptedLines(lines: seq<string>, commentSign: string, rt: Runtime)
    ensures forall e :: e in ParseFile(lines, commentSign, rt) ==>
              e.line.None? && exists i :: 0 <= i < |lines| && Accepts(lines[i], commentSign) && e == ParseEntry(lines[i], rt)
  {
    var f := LineReader(commentSign, rt);
    CollectSources(lines, f);
    forall e | e in ParseFile(lines, commentSign, rt)
      ensures e.line.None? && exists i :: 0 <= i < |lines| && Accepts(lines[i], commentSign) && e == ParseEntry(lines[i], rt)
    {
      var i :| 0 <= i < |lines| && f(lines[i]) == Some(e);
      assert Accepts(lines[i], commentSign);
    }
  }

  /** A file of bindings only yields one entry per line, in order. */
  lemma AllBindingsRead(lines: seq<string>, commentSign: string, rt: Runtime)
    requires forall i :: 0 <= i < |lines| ==> Accepts(lines[i], commentSign)
    ensures |ParseFile(lines, commentSign, rt)| == |lines|
    ensures forall i :: 0 <= i < |lines| ==>
              Accepts(lines[i], commentSign) && ParseFile(lines, commentSign, rt)[i] == ParseEntry(lines[i], rt)
  {
    var f := LineReader(commentSign, rt);
    assert forall i :: 0 <= i < |lines| ==> f(lines[i]) == Some(ParseEntry(lines[i], rt));
    CollectEvery(lines, f);
  }

  /** '=' is not white space. */
  lemma NoSeparatorInWhiteSpace(w: string)
    requires IsNullOrWhiteSpace(w)
    ensures '=' !in w
  {
    forall i | 0 <= i < |w| ensures w[i] != '=' {
      assert IsWhiteSpace(w[i]);
    }
  }

  /** A line holds a '=' exactly when its trimmed form does. */
  lemma SeparatorInTrim(line: string)
    ensures '=' in line <==> '=' in Trim(line)
  {
    var w1, w2 := TrimParts(line);
    NoSeparatorInWhiteSpace(w1);
    NoSeparatorInWhiteSpace(w2);
  }

  /**
   * The lines this provider reads are exactly the binding lines the editable
   * provider reads: it skips the comments and blank lines the editable provider
   * keeps verbatim, and the '='-less lines it rejects.
   */
  lemma AcceptsExactlyEditableBindings(line: string, commentSign: string, rt: Runtime)
    ensures Accepts(line, commentSign) <==>
              Editable.ParseLine(line, commentSign, rt).Success? && !Editable.IsPassthroughText(Trim(line), commentSign)
  {
    SeparatorInTrim(line);
    TrimmedWhiteSpaceIsEmpty(line);
  }

  /** The untrimmed line splits where its trimmed form does, with white space on the outer sides. */
  lemma SplitOfUntrimmed(line: string) returns (w1: string, w2: string)
    requires '=' in Trim(line)
    ensures IsNullOrWhiteSpace(w1) && IsNullOrWhiteSpace(w2)
    ensures SplitFirst(line, '=') == [w1 + SplitFirst(Trim(line), '=')[0], SplitFirst(Trim(line), '=')[1] + w2]
  {
    w1, w2 := TrimParts(line);
    var t := Trim(line);
    var parts := SplitFirst(t, '=');
    var x, y := parts[0], parts[1];
    NoSeparatorInWhiteSpace(w1);
    assert '=' !in w1 + x;
    assert line == (w1 + x) + ['='] + (y + w2);
    SplitFirstOfConcat(w1 + x, '=', y + w2);
  }

  /** Splitting the untrimmed line yields the key clause and the raw value that the trimmed line does. */
  lemma SidesOfUntrimmed(line: string)
    requires '=' in Trim(line)
    ensures '=' in line
    ensures ParseKeyClause(SplitFirst(line, '=')[0]) == ParseKeyClause(SplitFirst(Trim(line), '=')[0])
    ensures Trim(SplitFirst(line, '=')[1]) == Trim(SplitFirst(Trim(line), '=')[1])
  {
    SeparatorInTrim(line);
    var parts := SplitFirst(Trim(line), '=');
    var w1, w2 := SplitOfUntrimmed(line);
    TrimIgnoresSurroundingWhiteSpace(w1, parts[0], []);
    assert w1 + parts[0] + [] == w1 + parts[0];
    TrimIgnoresSurroundingWhiteSpace([], parts[1], w2);
    assert [] + parts[1] + w2 == parts[1] + w2;
  }

  /** The editable reading of a binding line, spelled out. */
  lemma EditableBinding(line: string, commentSign: string, rt: Runtime)
    requires !Editable.IsPassthroughText(Trim(line), commentSign) && '=' in Trim(line)
    ensures var parts := SplitFirst(Trim(line), '=');
            var key := ParseKeyClause(parts[0]);
            Editable.ParseLine(line, commentSign, rt)
            == Success(Entry(key.path, Some(Classify(Trim(parts[1]), ParseInt32, rt.tryParseFloat, rt.newLine)),
                             key.isField, key.isStatic, Some(Line(false, Trim(line)))))
  {
  }

  /**
   * On an accepted line both providers read the same path and flags from the
   * same raw value text; only the parsers that type that text differ.
   */
  lemma SameReadingAsEditable(line: string, commentSign: string, rt: Runtime) returns (raw: string)
    requires Accepts(line, commentSign)
    ensures Editable.ParseLine(line, commentSign, rt).Success?
    ensures var e := Editable.ParseLine(line, commentSign, rt).value;
            var p := ParseEntry(line, rt);
            !e.IsPassthrough() && p.property == e.property && p.isStatic == e.isStatic && p.isField == e.isField
            && p.value == Some(Classify(raw, rt.tryParseIntAny, rt.tryParseFloatAny, rt.newLine))
            && e.value == Some(Classify(raw, ParseInt32, rt.tryParseFloat, rt.newLine))
  {
    AcceptsExactlyEditableBindings(line, commentSign, rt);
    SeparatorInTrim(line);
    SidesOfUntrimmed(line);
    EditableBinding(line, commentSign, rt);
    raw := Trim(SplitFirst(Trim(line), '=')[1]);
  }
}
