/**
 * The key clause of a binding line, `[static] [field] path`, shared by both file
 * providers: the text before the first '=' is trimmed and split on single spaces;
 * the last token is the path, and the flags are set only when there is more than
 * one token and one of them is exactly `static` or `field`.
 */
module LineFormat {
  import opened Strings

  datatype KeyClause = KeyClause(path: string, isStatic: bool, isField: bool)

  /** Whether some token is exactly `word` (`arguments.Contains(word)`). */
  predicate HasToken(tokens: seq<string>, word: string) {
    exists i :: 0 <= i < |tokens| && tokens[i] == word
  }

  /**
   * What every parsed key clause satisfies: the path holds no space, does not end
   * in white space, is not empty when a flag is set, and a path spelled like a flag
   * sets that flag whenever any flag is set.
   */
  predicate WellFormedKey(k: KeyClause) {
    && ' ' !in k.path
    && (k.path == [] || !IsWhiteSpace(k.path[|k.path| - 1]))
    && (k.isStatic || k.isField ==> k.path != [])
    && (k.path == "static" && k.isField ==> k.isStatic)
    && (k.path == "field" && k.isStatic ==> k.isField)
  }

  /** `strings[0].Trim().Split(' ')`, the flag tests and `arguments[arguments.Length - 1]`. */
  function ParseKeyClause(text: string): (k: KeyClause)
    ensures WellFormedKey(k)
    ensures '=' !in text ==> '=' !in k.path
    ensures forall c :: c in k.path ==> c in text
    ensures ' ' !in Trim(text) ==> k == KeyClause(Trim(text), false, false)
  {
    var properties := Trim(text);
    var arguments := Split(properties, ' ');
    KeyClauseFacts(text, properties, arguments);
    FromTokens(arguments)
  }

  /** The path is the last token; a flag is set only when there are several tokens and one of them names it. */
  function FromTokens(arguments: seq<string>): KeyClause
    requires |arguments| >= 1
  {
    var flagged := |arguments| > 1;
    KeyClause(arguments[|arguments| - 1], flagged && HasToken(arguments, "static"),
              flagged && HasToken(arguments, "field"))
  }

  lemma KeyClauseFacts(text: string, properties: string, arguments: seq<string>)
    requires properties == Trim(text) && arguments == Split(properties, ' ')
    ensures WellFormedKey(FromTokens(arguments))
    ensures '=' !in text ==> '=' !in FromTokens(arguments).path
    ensures forall c :: c in FromTokens(arguments).path ==> c in text
    ensures ' ' !in properties ==> FromTokens(arguments) == KeyClause(properties, false, false)
  {
    var k := FromTokens(arguments);
    assert WellFormedKey(k) && (' ' !in properties ==> k == KeyClause(properties, false, false)) by {
      KeyWellFormed(properties, arguments);
    }
    assert forall c :: c in k.path ==> c in text by {
      LastTokenIsSuffix(properties, arguments);
      SuffixOfTrimIsIn(text, properties, arguments[|arguments| - 1]);
    }
  }

  lemma KeyWellFormed(properties: string, arguments: seq<string>)
    requires IsTrimmed(properties) && arguments == Split(properties, ' ')
    ensures WellFormedKey(FromTokens(arguments))
    ensures ' ' !in properties ==> FromTokens(arguments) == KeyClause(properties, false, false)
  {
    LastToken(properties, arguments);
    KeyFromTokens(properties, arguments, FromTokens(arguments));
  }

  lemma LastTokenIsSuffix(properties: string, arguments: seq<string>)
    requires arguments == Split(properties, ' ')
    ensures EndsWith(properties, arguments[|arguments| - 1])
  {
    SplitPieces(properties, ' ');
    EndsWithLastPiece(arguments, properties);
  }

  lemma EndsWithLastPiece(parts: seq<string>, j: string)
    requires |parts| >= 1 && Join(parts, ' ') == j
    ensures EndsWith(j, parts[|parts| - 1])
  {
    JoinLast(parts, ' ');
  }

  /** The last token of a trimmed text: a suffix without spaces, and the whole text or a non-blank piece. */
  lemma LastToken(properties: string, arguments: seq<string>)
    requires IsTrimmed(properties) && arguments == Split(properties, ' ')
    ensures var last := arguments[|arguments| - 1];
      && ' ' !in last
      && (|arguments| == 1 ==> last == properties)
      && (|arguments| > 1 ==> last != [] && !IsWhiteSpace(last[|last| - 1]))
      && (last == [] || !IsWhiteSpace(last[|last| - 1]))
      && (' ' !in properties ==> |arguments| == 1)
  {
    if |arguments| > 1 {
      LastTokenNotBlank(properties, arguments);
    } else {
      SplitWithoutSeparatorIsSingle(properties, arguments);
    }
    if ' ' !in properties {
      SplitWithoutSeparator(properties, ' ');
    }
  }

  /** The key clause built from the tokens of a trimmed text is well formed. */
  lemma KeyFromTokens(properties: string, arguments: seq<string>, k: KeyClause)
    requires |arguments| >= 1 && k.path == arguments[|arguments| - 1]
    requires k.isStatic == (|arguments| > 1 && HasToken(arguments, "static"))
    requires k.isField == (|arguments| > 1 && HasToken(arguments, "field"))
    requires ' ' !in k.path && (k.path == [] || !IsWhiteSpace(k.path[|k.path| - 1]))
    requires |arguments| > 1 ==> k.path != []
    requires |arguments| == 1 ==> k.path == properties
    requires ' ' !in properties ==> |arguments| == 1
    ensures WellFormedKey(k)
    ensures ' ' !in properties ==> k == KeyClause(properties, false, false)
  {
    FlagsFromTokens(arguments, k);
  }

  /** The flag rules, on the token list alone. */
  lemma FlagsFromTokens(arguments: seq<string>, k: KeyClause)
    requires |arguments| >= 1 && k.path == arguments[|arguments| - 1]
    requires k.isStatic == (|arguments| > 1 && HasToken(arguments, "static"))
    requires k.isField == (|arguments| > 1 && HasToken(arguments, "field"))
    requires |arguments| > 1 ==> k.path != []
    ensures k.isStatic || k.isField ==> |arguments| > 1 && k.path != []
    ensures k.path == "static" && k.isField ==> k.isStatic
    ensures k.path == "field" && k.isStatic ==> k.isField
  {
    if |arguments| > 1 {
      assert arguments[|arguments| - 1] == k.path;
      assert HasToken(arguments, k.path);
    }
  }

  /** With several tokens, the last one ends where the trimmed text does, on a character that is not white space. */
  lemma LastTokenNotBlank(properties: string, arguments: seq<string>)
    requires IsTrimmed(properties) && arguments == Split(properties, ' ') && |arguments| > 1
    ensures var last := arguments[|arguments| - 1]; last != [] && !IsWhiteSpace(last[|last| - 1])
  {
    SplitPieces(properties, ' ');
    LastPieceOfJoin(arguments, properties);
  }

  lemma LastPieceOfJoin(parts: seq<string>, j: string)
    requires |parts| > 1 && Join(parts, ' ') == j && IsTrimmed(j)
    ensures var last := parts[|parts| - 1]; last != [] && !IsWhiteSpace(last[|last| - 1])
  {
    JoinLast(parts, ' ');
    LastPieceNotBlank(j, parts[|parts| - 1]);
  }

  lemma LastPieceNotBlank(j: string, last: string)
    requires IsTrimmed(j) && EndsWith(j, last) && |last| < |j| && j[|j| - |last| - 1] == ' '
    ensures last != [] && !IsWhiteSpace(last[|last| - 1])
  {
    assert |last| > 0;
    assert last[|last| - 1] == j[|j| - 1];
  }

  lemma SuffixOfTrimIsIn(text: string, properties: string, path: string)
    requires properties == Trim(text) && EndsWith(properties, path)
    ensures forall c :: c in path ==> c in text
  {
    var w1, w2 := TrimParts(text);
    SuffixChars(text, w1, properties, w2, path);
  }

  lemma SuffixChars(text: string, w1: string, t: string, w2: string, path: string)
    requires text == w1 + t + w2 && |path| <= |t| && t[|t| - |path|..] == path
    ensures forall c :: c in path ==> c in text
  {
    var n := |t| - |path|;
    forall c | c in path ensures c in text {
      var i :| 0 <= i < |path| && path[i] == c;
      assert path[i] == t[n + i] == text[|w1| + n + i];
    }
  }

  lemma SplitWithoutSeparatorIsSingle(properties: string, arguments: seq<string>)
    requires arguments == Split(properties, ' ') && |arguments| == 1
    ensures arguments[0] == properties
  {
    SplitPieces(properties, ' ');
  }

  /** The flag words a writer puts before the path, in their fixed order. */
  function FlagTokens(isStatic: bool, isField: bool): seq<string> {
    (if isStatic then ["static"] else []) + (if isField then ["field"] else [])
  }

  /**
   * The key clause as `Save` writes it: `static`, then `field` (with a space between
   * them when both are set), then a space when any flag is set, then the path.
   */
  function FormatKeyClause(k: KeyClause): (r: string)
    ensures r == Join(FlagTokens(k.isStatic, k.isField) + [k.path], ' ')
  {
    var outLine := if k.isStatic then "static" else "";
    var outLine := outLine + (if k.isField then (if k.isStatic then " " else "") + "field" else "");
    var r := outLine + (if k.isStatic || k.isField then " " else "") + k.path;
    JoinFlagTokens(k);
    r
  }

  lemma JoinFlagTokens(k: KeyClause)
    ensures Join(FlagTokens(k.isStatic, k.isField) + [k.path], ' ')
         == (if k.isStatic then "static" else "")
            + (if k.isField then (if k.isStatic then " " else "") + "field" else "")
            + (if k.isStatic || k.isField then " " else "") + k.path
  {
    var p := k.path;
    assert Join([p], ' ') == p;
    assert Join(["field", p], ' ') == "field" + [' '] + p;
    assert Join(["static", p], ' ') == "static" + [' '] + p;
    assert Join(["static", "field", p], ' ') == "static" + [' '] + ("field" + [' '] + p);
    if k.isStatic && k.isField {
      assert FlagTokens(true, true) + [p] == ["static", "field", p];
    } else if k.isStatic {
      assert FlagTokens(true, false) + [p] == ["static", p];
    } else if k.isField {
      assert FlagTokens(false, true) + [p] == ["field", p];
    } else {
      assert FlagTokens(false, false) + [p] == [p];
    }
  }

  /** The written key clause has no white space at its ends, unless the bare path does. */
  lemma FormatKeyClauseTrimmed(k: KeyClause)
    requires WellFormedKey(k) && (k.isStatic || k.isField || IsTrimmed(k.path))
    ensures IsTrimmed(FormatKeyClause(k))
  {
    var r := FormatKeyClause(k);
    if k.isStatic || k.isField {
      assert r[0] in "sf";
      assert r[|r| - 1] == k.path[|k.path| - 1];
    }
  }

  /** A written key clause is one line when its path is. */
  lemma FormatKeyClauseSingleLine(k: KeyClause)
    requires IsSingleLine(k.path)
    ensures IsSingleLine(FormatKeyClause(k))
  {
    JoinFlagTokens(k);
  }

  /** A written key clause keeps out every '=' its path does not hold. */
  lemma FormatKeyClauseHasNoSeparator(k: KeyClause)
    requires '=' !in k.path
    ensures '=' !in FormatKeyClause(k)
  {
  }

  /** The tokens a writer emits, read back through the flag rules. */
  lemma FlagTokensRead(k: KeyClause)
    requires WellFormedKey(k)
    ensures var tokens := FlagTokens(k.isStatic, k.isField) + [k.path];
      && tokens[|tokens| - 1] == k.path
      && (|tokens| > 1 <==> k.isStatic || k.isField)
      && (|tokens| > 1 ==> HasToken(tokens, "static") == k.isStatic && HasToken(tokens, "field") == k.isField)
      && (forall i :: 0 <= i < |tokens| ==> ' ' !in tokens[i])
  {
    var p := k.path;
    var tokens := FlagTokens(k.isStatic, k.isField) + [p];
    if k.isStatic && k.isField {
      assert tokens == ["static", "field", p];
      assert HasToken(tokens, "static") by { assert tokens[0] == "static"; }
      assert HasToken(tokens, "field") by { assert tokens[1] == "field"; }
    } else if k.isStatic {
      assert tokens == ["static", p];
      assert HasToken(tokens, "static") by { assert tokens[0] == "static"; }
      assert !HasToken(tokens, "field");
    } else if k.isField {
      assert tokens == ["field", p];
      assert HasToken(tokens, "field") by { assert tokens[0] == "field"; }
      assert !HasToken(tokens, "static");
    } else {
      assert tokens == [p];
    }
  }

  /** Reading back a written key clause gives the same path and flags. */
  lemma KeyClauseRoundTrip(k: KeyClause)
    requires WellFormedKey(k) && (k.isStatic || k.isField || IsTrimmed(k.path))
    ensures ParseKeyClause(FormatKeyClause(k)) == k
  {
    var tokens := FlagTokens(k.isStatic, k.isField) + [k.path];
    var r := FormatKeyClause(k);
    FormatKeyClauseTrimmed(k);
    FlagTokensRead(k);
    SplitJoin(tokens, ' ');
    assert Split(Trim(r), ' ') == tokens;
  }
}
