# PropertyManager in Dafny

This is a model of the core of PropertyManager, a C# library that reads configuration bindings from a provider and pushes them into objects by reflection.

## What it models

**Bindings.** A binding has the form `[static] [field] path = value`. The `path` may be a dotted call chain, such as `Settings.Window.Width`.

**Providers.** Bindings come from one of four providers, each over an in-memory store:

- an ini-style file read-only (`FilePropertyProvider`);
- an ini-style file that can be written back (`FileEditablePropertyProvider`);
- a LiteDB collection read-only (`LiteDbPropertyProvider`);
- a LiteDB collection that can be written back (`LiteDbEditablePropertyProvider`).

A file is the sequence of its lines. A collection is the sequence of its `Configuration` documents.

**The manager.** A `PropertyManager` holds the loaded entries. It answers keyed queries on them, changes values when it is editable, saves the values back through its provider, and applies every entry to an object or a type.

**Modules.** The Dafny modules follow the C# files:

| module | models |
|---|---|
| `Strings` | the .NET string operations the parsers use: `Trim`, `Split`, `Split(..., 2)`, `Replace`, `StartsWith`, `char.IsWhiteSpace` |
| `ValueCoercion` | the four value kinds; `int.TryParse` for the default style; `bool.TryParse` and `Boolean.ToString`; newline normalisation and escaping. The float and `NumberStyles.Any` parsers and the float formatters are parameters (`Runtime`). |
| `Reflection` | an abstract object heap; per-type member tables; the subclass relation; `Type.GetType` as a partial function |
| `PropertyEntry` | `PropertyEntry` and the `ApplyValue` path walk |
| `LineFormat` | the key clause `[static] [field] path` that both file providers read, and the editable provider writes |
| `FileEditablePropertyProvider`, `FilePropertyProvider`, `LiteDbPropertyProvider`, `LiteDbEditablePropertyProvider` | the providers |
| `Manager` | `PropertyManager`; the provider interfaces become the sum type `Provider` |

**Imperative members.** Code the C# runs step by step stays imperative in Dafny. Each such method is proved against a pure specification function:

- `GetPropertyEntries` and `Save` of each provider are loops over a sequence. The file providers' `Save` returns the lines that would be written.
- `ApplyValue` is a loop over a mutable `ObjectGraph`.
- The LiteDB save makes `Update` and `Insert` calls on a mutable `Collection`.
- `PropertyManager` is a class with `properties` and `provider` fields.

**Exceptions.** A thrown exception is the `Failure` or `Fail` case of a `Result` or `Outcome`. Each error constructor says which exception it stands for.

**Behaviour that follows from the code.**

- *Static entries never take effect.* No member lookup in `ApplyValue` includes static members. The final write of a static entry therefore targets an instance member with a null target, and reflection rejects that write. So a static entry never applies through `Apply(object)` or `Apply(Type)`, and `Apply(Type)` never succeeds (`PropertyEntry.ApplyToTypeNeverSucceeds`).
- *Passthrough lines block bulk apply.* Comment and blank lines of an editable file are entries with an empty path. Bulk `Apply` on a manager loaded from such a file stops at the first of them (`Manager.EmptyPathStopsApply`).
- *Floats can change kind across a save.*
  - The editable file provider writes a float with the invariant culture and reads it back under the current one. A float whose rendering is integer text, such as `2`, reloads as an int.
  - A float saved to LiteDB is stored as a BSON double. It no longer matches the `float` case of the reading `switch`, so it reloads as null.
- *A value with a line break splits its line.* `Save` escapes only `Environment.NewLine`. A string set through `SetValue` that holds another line break, such as "a\nb" where the newline is "\r\n", is written with that break inside the line. `File.ReadAllLines` then cuts the line in two, so the next load reads different lines from the ones written (`Manager.SetThenSaveKeepsLines`).

## Model

| member | source | states |
|---|---|---|
| Strings.Trim | PropertyProvider/FileEditablePropertyProvider.cs:60 | the result has no white space at either end, and a string that already has none is unchanged |
| Strings.TrimParts | PropertyProvider/FileEditablePropertyProvider.cs:60 | every line is its trimmed form with white space added on both sides |
| Strings.TrimIdempotent | PropertyProvider/FileEditablePropertyProvider.cs:60 | trimming twice is trimming once |
| Strings.TrimmedWhiteSpaceIsEmpty | PropertyProvider/FilePropertyProvider.cs:61 | after trimming, being white space only and being empty are the same test, so the two providers' blank-line tests agree |
| Strings.TrimIgnoresSurroundingWhiteSpace | PropertyProvider/FilePropertyProvider.cs:66-67 | white space added around a string does not change its trimmed form |
| Strings.TrimBinding | PropertyProvider/FileEditablePropertyProvider.cs:70-72 | a written `key = value` line trims and splits back into the key and the trimmed value |
| Strings.SplitFirst | PropertyProvider/FileEditablePropertyProvider.cs:70 | there are one or two pieces; there is one exactly when the line has no '=', and it is then the whole line; with two, the first piece has no '=' and the pieces joined by '=' give the line back |
| Strings.SplitFirstOfConcat | PropertyProvider/FilePropertyProvider.cs:65 | the split falls at the first '=' |
| Strings.Split | PropertyProvider/FileEditablePropertyProvider.cs:75 | `Split(' ')` keeps empty pieces: there is at least one piece and none holds the separator |
| Strings.SplitPieces | PropertyProvider/FileEditablePropertyProvider.cs:75 | joining the pieces with the separator gives the text back |
| Strings.SplitJoin | PropertyEntry.cs:50 | splitting what was joined from separator-free pieces gives back the pieces |
| Strings.SplitWithoutSeparator | PropertyEntry.cs:50 | a path without '.' is a single segment |
| Strings.IndexOf | PropertyProvider/FileEditablePropertyProvider.cs:70 | the first position of the character, or None exactly when it is absent |
| Strings.StartsWith | PropertyProvider/FileEditablePropertyProvider.cs:63 | the test holds exactly when the string is the prefix followed by some rest |
| Strings.ReplaceAbsent | PropertyProvider/FileEditablePropertyProvider.cs:95 | a string without the pattern's first character is left unchanged |
| Strings.ReplaceInverse | PropertyProvider/FileEditablePropertyProvider.cs:121 | replacing `a` by `b`, then `b` by `a`, restores a string that did not hold `b`'s first character |
| Strings.Replace | PropertyProvider/FileEditablePropertyProvider.cs:121 | every character of the result comes from the input or from the replacement |
| ValueCoercion.ParseFormatInt32 | PropertyProvider/FileEditablePropertyProvider.cs:84 | the decimal rendering of every Int32 parses back to the same Int32 |
| ValueCoercion.FormatInt32Chars | PropertyProvider/FileEditablePropertyProvider.cs:120 | an integer renders as an optional '-' followed by digits |
| ValueCoercion.ParseUnsignedDigits | PropertyProvider/FileEditablePropertyProvider.cs:84 | digits within range parse as their value |
| ValueCoercion.ParseNegatedDigits | PropertyProvider/FileEditablePropertyProvider.cs:84 | '-' followed by digits, down to -2^31, parses as the negated value |
| ValueCoercion.ParseInt32RejectsNonNumeric | PropertyProvider/FileEditablePropertyProvider.cs:84 | text starting with neither white space, a sign nor a digit is not an int |
| ValueCoercion.ParseInt32 | PropertyProvider/FileEditablePropertyProvider.cs:84 | text accepted as an int holds a digit |
| ValueCoercion.ParseBool | PropertyProvider/FileEditablePropertyProvider.cs:90 | text accepted as a bool is `True` or `False`, ignoring case and surrounding white space and NUL characters, and the result is the bool named |
| ValueCoercion.FormatBool | PropertyProvider/FileEditablePropertyProvider.cs:120 | the rendering of a bool parses back to that bool |
| ValueCoercion.FormatBoolIsNotInt32 | PropertyProvider/FileEditablePropertyProvider.cs:84-90 | the bool renderings are not integer text, so int does not take a bool's place ahead of it in the order of checks |
| ValueCoercion.NormalizeNewLines | PropertyProvider/FileEditablePropertyProvider.cs:95 | every character of the result is from the text or the platform newline; text without '\n' and '\\' is unchanged |
| ValueCoercion.EscapeNewLines | PropertyProvider/FileEditablePropertyProvider.cs:121 | every character of the result is from the text or from `\n`; text without the platform newline's first character is unchanged |
| ValueCoercion.FormatInvariant | PropertyProvider/FileEditablePropertyProvider.cs:120 | null renders as empty text; an int and a bool render as text that parses back to them; a string renders as itself; a float renders through the invariant float formatter |
| ValueCoercion.DisplayString | PropertyManager.cs:59 | `Value.ToString()` renders an int, bool or string as `FormatInvariant` does, a negative int with the ASCII '-', and a float through the current-culture float formatter |
| ValueCoercion.EscapeNormalized | PropertyProvider/FileEditablePropertyProvider.cs:121 | on a single line, escaping the platform newline undoes the newline normalisation of the loader |
| ValueCoercion.Classify | PropertyProvider/FileEditablePropertyProvider.cs:84-96 | the value is an int exactly when the int parser accepts the text; a float exactly when the int parser rejects it and the float parser accepts it; a bool exactly when both reject it and `bool.TryParse` accepts it; otherwise a string with newlines normalised; each carries the parsed value |
| Reflection.GetValue | PropertyEntry.cs:92 | a read succeeds exactly when the target is a live object whose type is the lookup type or derives from it |
| Reflection.SetValue | PropertyEntry.cs:108 | a write succeeds exactly when the target is a live object whose type is the lookup type or derives from it; the same slot then reads back the value; no other object and no other slot changes; the set of objects is kept |
| PropertyEntry.Segments | PropertyEntry.cs:50 | the segments joined by '.' give back `Property`, and there is at least one |
| PropertyEntry.Walk | PropertyEntry.cs:82-115 | a successful walk keeps the set of live objects |
| PropertyEntry.Assign | PropertyEntry.cs:104-113 | a successful final write keeps the set of live objects |
| PropertyEntry.ApplyToType | PropertyEntry.cs:46-51 | a non-static entry fails with `ArgumentException`, before the null-context check; a static entry with no context fails with `ArgumentNullException` |
| PropertyEntry.ApplyToObject | PropertyEntry.cs:64-68 | a null context fails with `ArgumentNullException`; there is no `IsStatic` check; success keeps the set of objects |
| PropertyEntry.ApplyValue | PropertyEntry.cs:82-115 | the loop over segments ends in the heap and outcome of the walk specification, and leaves the heap unchanged on failure |
| PropertyEntry.ApplyType | PropertyEntry.cs:46-51 | the method's heap and outcome are those of `ApplyToType` |
| PropertyEntry.ApplyObject | PropertyEntry.cs:64-68 | the method's heap and outcome are those of `ApplyToObject` |
| PropertyEntry.OnlyLastSegmentWritten | PropertyEntry.cs:82-114 | a successful walk changes exactly one slot of one object: the member named by the last segment, of the kind `IsField` selects, now holding the entry's value |
| PropertyEntry.StaticWalkFails | PropertyEntry.cs:105-113 | a static entry's walk always fails, because no lookup finds a static member and reflection rejects a null target for an instance member |
| PropertyEntry.ApplyToTypeNeverSucceeds | PropertyEntry.cs:46-51 | `Apply(Type)` never succeeds |
| PropertyEntry.ApplyToObjectStaticFails | PropertyEntry.cs:64-67 | `Apply(object)` does not check `IsStatic`, but a static entry still never succeeds through it |
| PropertyEntry.PathErrorsNameFullPath | PropertyEntry.cs:100-111 | the missing-element and inaccessible errors carry the entry's full `Property` |
| PropertyEntry.SingleSegmentWritesDirectly | PropertyEntry.cs:83-84 | a path without '.' goes straight to the final write on the context's type |
| PropertyEntry.StaticFirstSegmentIsTypeName | PropertyEntry.cs:85-88 | in static mode segment 0 is only tried as a type name: resolved, the walk continues on that type; unresolved, it continues on the same type and the segment is skipped |
| PropertyEntry.PropertyBeforeField | PropertyEntry.cs:90-98 | at an intermediate segment a declared property is followed in preference to a field of the same name |
| PropertyEntry.InheritedPropertyOnlyAtLastSegment | PropertyEntry.cs:90-112 | in any member table where every instance member of a name is an inherited property, the intermediate lookup (declared-only) misses it and the walk fails as a missing element, while the final lookup finds it and the write is not refused as inaccessible |
| PropertyEntry.StaticMembersInvisible | PropertyEntry.cs:90-112 | in any member table where every member of a name is static, that name is neither walked through (missing element) nor written (inaccessible) |
| PropertyEntry.EmptyPathNeverApplies | PropertyEntry.cs:104-111 | an entry with an empty `Property` (every passthrough line) fails as inaccessible on a type with no member named "" |
| LineFormat.ParseKeyClause | PropertyProvider/FileEditablePropertyProvider.cs:71-81 | the path is the last space-separated token; the flags are set only with more than one token; the result is well formed; a key without spaces is the bare path with no flags; a key clause without '=' gives a path without '=' |
| LineFormat.KeyWellFormed | PropertyProvider/FileEditablePropertyProvider.cs:75-81 | the key read from the tokens of a trimmed clause is well formed, and a clause without spaces is the bare path |
| LineFormat.KeyClauseFacts | PropertyProvider/FileEditablePropertyProvider.cs:75-81 | the same facts for the token list `Split(' ')` of the trimmed key clause |
| LineFormat.LastToken | PropertyProvider/FileEditablePropertyProvider.cs:81 | the last token of a trimmed clause has no space; it is the whole clause when there is one token; it ends on a character that is not white space when there are several |
| LineFormat.FlagsFromTokens | PropertyProvider/FileEditablePropertyProvider.cs:76-79 | a flag implies several tokens and a non-empty path; a path `static` with the field flag also has the static flag, and a path `field` with the static flag also has the field flag |
| LineFormat.FormatKeyClause | PropertyProvider/FileEditablePropertyProvider.cs:117-119 | the written clause is `static`, then `field`, then the path, each present only when set, joined by single spaces |
| LineFormat.FormatKeyClauseTrimmed | PropertyProvider/FileEditablePropertyProvider.cs:117-119 | the written clause has no white space at its ends unless the bare path does |
| LineFormat.FormatKeyClauseHasNoSeparator | PropertyProvider/FileEditablePropertyProvider.cs:117-119 | the written clause holds no '=' unless its path does |
| LineFormat.FormatKeyClauseSingleLine | PropertyProvider/FileEditablePropertyProvider.cs:117-119 | the written clause is a single line when its path is |
| LineFormat.KeyClauseRoundTrip | PropertyProvider/FileEditablePropertyProvider.cs:75-81 | reading back a written well-formed key clause gives the same path and flags |
| FileEditablePropertyProvider.ParseLine | PropertyProvider/FileEditablePropertyProvider.cs:60-97 | a line fails to load exactly when it is neither passthrough nor holds a '='; every entry keeps the trimmed line as its source; a comment or white-space line is a passthrough entry with default fields; a binding has a value, a path without '=' and a well-formed key |
| FileEditablePropertyProvider.ParseFile | PropertyProvider/FileEditablePropertyProvider.cs:55-103 | the load succeeds exactly when every line does; it then gives one entry per line, in order, each that line's reading; a failure is the missing separator |
| FileEditablePropertyProvider.GetPropertyEntries | PropertyProvider/FileEditablePropertyProvider.cs:55-103 | the loop computes `ParseFile` |
| FileEditablePropertyProvider.SaveLine | PropertyProvider/FileEditablePropertyProvider.cs:113-127 | an entry without a line fails with `InvalidCastException`; a passthrough entry is written as its stored source |
| FileEditablePropertyProvider.SaveFile | PropertyProvider/FileEditablePropertyProvider.cs:109-131 | the save succeeds exactly when every entry has a line; it then writes one line per entry, in order; otherwise nothing is written |
| FileEditablePropertyProvider.Save | PropertyProvider/FileEditablePropertyProvider.cs:109-131 | the loop computes `SaveFile` |
| FileEditablePropertyProvider.WriteAllLines | PropertyProvider/FileEditablePropertyProvider.cs:130 | the file text is empty exactly when there are no lines |
| FileEditablePropertyProvider.LineLength | PropertyProvider/FileEditablePropertyProvider.cs:56 | the first line ends at the first '\r' or '\n', or at the end of the text, and holds no terminator |
| FileEditablePropertyProvider.ReadAllLines | PropertyProvider/FileEditablePropertyProvider.cs:56 | no line read holds a line terminator |
| FileEditablePropertyProvider.ReadWrittenLines | PropertyProvider/FileEditablePropertyProvider.cs:130 | with a platform newline, lines without terminators are read back after writing as the same lines |
| FileEditablePropertyProvider.StoredLines | PropertyProvider/FileEditablePropertyProvider.cs:130 | the lines the next load reads are single lines; with a platform newline they are the lines written exactly when each of those is a single line |
| FileEditablePropertyProvider.PassthroughRoundTrip | PropertyProvider/FileEditablePropertyProvider.cs:63-65 | a passthrough line is written back as its trimmed text, which reads back as the same entry |
| FileEditablePropertyProvider.BindingParts | PropertyProvider/FileEditablePropertyProvider.cs:67-96 | a binding line's entry has a well-formed key with no '=' in its path, and a value classified from single-line trimmed text |
| FileEditablePropertyProvider.SeparatorIsNotBlank | PropertyProvider/FileEditablePropertyProvider.cs:63 | a text holding '=' is not white space only, so a binding is never taken for a blank line |
| FileEditablePropertyProvider.PlainText | PropertyProvider/FileEditablePropertyProvider.cs:121 | trimmed text without the platform newline's first character is written unchanged |
| FileEditablePropertyProvider.ReadSavedBinding | PropertyProvider/FileEditablePropertyProvider.cs:117-122 | the line written for a binding reads back with the same path and flags, its value classified from the escaped invariant rendering |
| FileEditablePropertyProvider.IntTextReloads | PropertyProvider/FileEditablePropertyProvider.cs:84-122 | a written int reloads as the same int |
| FileEditablePropertyProvider.BoolTextReloads | PropertyProvider/FileEditablePropertyProvider.cs:84-122 | a written bool reloads as the same bool |
| FileEditablePropertyProvider.ValueReloads | PropertyProvider/FileEditablePropertyProvider.cs:84-122 | an int, bool or string value read from a line reloads unchanged after being written |
| FileEditablePropertyProvider.BindingRoundTrip | PropertyProvider/FileEditablePropertyProvider.cs:67-96 | a binding line written back reloads with the same path, flags and line kind, and the same int, bool or string value |
| FileEditablePropertyProvider.FloatRenderedAsIntegerReloadsAsInt | PropertyProvider/FileEditablePropertyProvider.cs:84-89 | a float whose invariant rendering is integer text reloads as that int |
| FileEditablePropertyProvider.LineRoundTrip | PropertyProvider/FileEditablePropertyProvider.cs:60-122 | every loaded line, passthrough or binding, is written and reloads as its original |
| FileEditablePropertyProvider.SavedBindingLine | PropertyProvider/FileEditablePropertyProvider.cs:117-122 | a binding's saved line is a single line exactly when its key clause and its escaped value text are |
| FileEditablePropertyProvider.RenderingSingleLine | PropertyProvider/FileEditablePropertyProvider.cs:120 | the invariant rendering of an int, bool or float is a single line, given a single-line float formatter |
| FileEditablePropertyProvider.WrittenValueSingleLine | PropertyProvider/FileEditablePropertyProvider.cs:120-121 | the written value text of a value typed from a single line is a single line |
| FileEditablePropertyProvider.SavedLineIsSingleLine | PropertyProvider/FileEditablePropertyProvider.cs:113-125 | the saved line of any entry loaded from a single line is a single line |
| FileEditablePropertyProvider.LoadSaveLoad | PropertyProvider/FileEditablePropertyProvider.cs:55-131 | loading, saving and loading again succeeds and gives one entry per original line; each reloads as its original, with the same path, flags and line kind, a passthrough entry unchanged, and an int, bool or string value unchanged |
| FilePropertyProvider.ParseEntry | PropertyProvider/FilePropertyProvider.cs:62-91 | an accepted line gives an entry with a value and without a line, so it can never be saved; its path has no '=' and its key is well formed |
| FilePropertyProvider.Accepts | PropertyProvider/FilePropertyProvider.cs:61 | a line is read exactly when its trimmed form holds '=' and does not start with the comment sign; an accepted line is never blank |
| FilePropertyProvider.ParseFile | PropertyProvider/FilePropertyProvider.cs:55-97 | there are never more entries than lines |
| FilePropertyProvider.GetPropertyEntries | PropertyProvider/FilePropertyProvider.cs:55-97 | the loop computes `ParseFile` |
| FilePropertyProvider.ParseFileAppend | PropertyProvider/FilePropertyProvider.cs:60-94 | reading two parts of a file one after the other gives the entries of the whole, in order |
| FilePropertyProvider.EntriesFromAcceptedLines | PropertyProvider/FilePropertyProvider.cs:61 | every entry is the reading of a line that is non-blank, not a comment, and holds '='; none carries a line |
| FilePropertyProvider.AllBindingsRead | PropertyProvider/FilePropertyProvider.cs:60-94 | a file of accepted lines gives one entry per line, in order |
| FilePropertyProvider.SeparatorInTrim | PropertyProvider/FilePropertyProvider.cs:61 | `line.Contains("=")` and the same test on the trimmed line agree |
| FilePropertyProvider.AcceptsExactlyEditableBindings | PropertyProvider/FilePropertyProvider.cs:61 | the lines this provider reads are exactly the binding lines the editable provider reads; it skips the passthrough and '='-less lines that the editable provider keeps or rejects |
| FilePropertyProvider.SidesOfUntrimmed | PropertyProvider/FilePropertyProvider.cs:65-67 | splitting the untrimmed line gives the same key clause and trimmed value as splitting the trimmed line |
| FilePropertyProvider.SameReadingAsEditable | PropertyProvider/FilePropertyProvider.cs:65-91 | on an accepted line both file providers read the same path, flags and raw value text; only the int and float parsers differ |
| LiteDbPropertyProvider.ToEntry | PropertyProvider/LiteDbPropertyProvider.cs:38-62 | name and flags are copied; the entry has a type exactly when the stored value is an int, float, bool or string, and then carries that value; any other value leaves type and value null |
| LiteDbPropertyProvider.EntriesOf | PropertyProvider/LiteDbPropertyProvider.cs:37-64 | one entry per document, in order, each that document's mapping |
| LiteDbPropertyProvider.GetPropertyEntries | PropertyProvider/LiteDbPropertyProvider.cs:31-69 | the loop computes `EntriesOf`; the editable LiteDB provider loads with the same loop |
| LiteDbEditablePropertyProvider.Serialize | PropertyProvider/LiteDbEditablePropertyProvider.cs:82 | null is stored as null; an int, bool or string is stored boxed as itself; a float is stored as something else |
| LiteDbEditablePropertyProvider.SerializeReadsBack | PropertyProvider/LiteDbEditablePropertyProvider.cs:82 | a stored value reads back as itself, except a float, which reads back as null |
| LiteDbEditablePropertyProvider.Matching | PropertyProvider/LiteDbEditablePropertyProvider.cs:77 | the positions of exactly the documents with the name, in increasing order |
| LiteDbEditablePropertyProvider.FreshId | PropertyProvider/LiteDbEditablePropertyProvider.cs:91 | the id for an inserted document exceeds every id in the collection |
| LiteDbEditablePropertyProvider.Upsert | PropertyProvider/LiteDbEditablePropertyProvider.cs:77-95 | a failure writes nothing; a null find result fails, and only it; more than one match fails as not distinct, and only it; success exactly when the find succeeds, there is at most one match, and the write is acknowledged; the collection grows by at most one document |
| LiteDbEditablePropertyProvider.SaveFrom | PropertyProvider/LiteDbEditablePropertyProvider.cs:76-96 | the loop from a position on adds at most one document per remaining entry and deletes none |
| LiteDbEditablePropertyProvider.SaveAll | PropertyProvider/LiteDbEditablePropertyProvider.cs:72-98 | a save adds at most one document per entry and deletes none; saving no entries changes nothing and succeeds |
| LiteDbEditablePropertyProvider.UpsertKeepsDocuments | PropertyProvider/LiteDbEditablePropertyProvider.cs:77-91 | no document is deleted; ids and names are kept; a document of another name is untouched |
| LiteDbEditablePropertyProvider.UpsertStores | PropertyProvider/LiteDbEditablePropertyProvider.cs:79-91 | after success exactly one document has the name, carrying the entry's flags and value; an update keeps the count; an insert adds one document under a fresh id |
| LiteDbEditablePropertyProvider.UpsertKeepsHolds | PropertyProvider/LiteDbEditablePropertyProvider.cs:77-91 | an upsert of one name leaves what is stored under every other name |
| LiteDbEditablePropertyProvider.UpsertKeepsDistinctNames | PropertyProvider/LiteDbEditablePropertyProvider.cs:92-93 | on a collection with distinct names an upsert keeps them distinct and never fails as not distinct |
| LiteDbEditablePropertyProvider.SaveKeepsDocuments | PropertyProvider/LiteDbEditablePropertyProvider.cs:76-96 | however the save ends, no document is deleted, ids and names are kept, and a document that no saved entry names is untouched |
| LiteDbEditablePropertyProvider.SaveKeepsDistinctNames | PropertyProvider/LiteDbEditablePropertyProvider.cs:76-96 | a save keeps names distinct and never fails as not distinct on such a collection |
| LiteDbEditablePropertyProvider.SaveLastWriteWins | PropertyProvider/LiteDbEditablePropertyProvider.cs:77-91 | after success every name saved is held by exactly one document, with the flags and value of its last entry |
| LiteDbEditablePropertyProvider.SaveFailureKeepsEarlierWrites | PropertyProvider/LiteDbEditablePropertyProvider.cs:76-96 | a failed save is not rolled back: the collection is what the entries before the failing one left, and the failing upsert wrote nothing |
| LiteDbEditablePropertyProvider.SaveThenLoad | PropertyProvider/LiteDbEditablePropertyProvider.cs:28-98 | after a successful save, loading gives exactly one entry per saved name, with the last entry's flags and value, a float coming back null |
| LiteDbEditablePropertyProvider.Collection.Update | PropertyProvider/LiteDbEditablePropertyProvider.cs:83 | an acknowledged update replaces the one document and counts 1; otherwise nothing changes and the count is 0 |
| LiteDbEditablePropertyProvider.Collection.Insert | PropertyProvider/LiteDbEditablePropertyProvider.cs:91 | an acknowledged insert appends the document under a fresh id; otherwise nothing changes |
| LiteDbEditablePropertyProvider.Save | PropertyProvider/LiteDbEditablePropertyProvider.cs:72-98 | the loop of finds, updates and inserts leaves the collection and outcome `SaveAll` specifies |
| Manager.Load | PropertyManager.cs:32 | only an editable file can fail to load, exactly when one of its lines does, with the missing-separator error; an editable file gives one entry per line and a collection one per document |
| Manager.SaveTo | PropertyManager.cs:192-193 | the provider stays editable and of the same kind; a file is rewritten exactly when every entry has a line, and is left untouched otherwise; the file then holds the lines the next load reads, all single lines, and with a platform newline these are the lines written exactly when each of those is a single line |
| Manager.Lookup | PropertyManager.cs:58 | `SingleOrDefault`: nothing found exactly when no entry has the key; a position found has the key and is the only one; a failure is not-unique |
| Manager.LookupFailsOnDuplicates | PropertyManager.cs:58 | a lookup fails exactly when two entries have the key |
| Manager.Fetch | PropertyManager.cs:160-165 | a missing key fails with `ArgumentException`, and so does a key whose entry has a different kind; a duplicate key fails as not unique; a value returned is of the requested kind and is the value stored under the key |
| Manager.GetValueFrom | PropertyManager.cs:105-110 | the static variant is the same query over a freshly loaded list, and fails when the load does |
| Manager.SetValueResult | PropertyManager.cs:177-183 | a failure leaves the entries unchanged; a manager that is not editable fails first, then a duplicate key, then a missing key; success exactly when the manager is editable and `GetValue` of the key and the new value's kind would succeed |
| Manager.SetValueChangesOnlyThatValue | PropertyManager.cs:182 | a successful set keeps the length and order; it changes only the entry of the key, and only its value; the kind is kept |
| Manager.GetAfterSet | PropertyManager.cs:160-183 | after a successful set the key reads back the value set, and every other key reads as before |
| Manager.SameKeysSameLookup | PropertyManager.cs:58 | a lookup depends only on the keys of the entries |
| Manager.EditedFileStillSaves | PropertyManager.cs:182-193 | after a set on entries loaded from an editable file, saving still succeeds and produces one written line per original line |
| Manager.FileSaveThenReload | PropertyManager.cs:190-203 | saving what an editable file of single lines loaded and then reloading gives one entry per line, each reloading as its original |
| Manager.SetThenSaveKeepsLines | PropertyManager.cs:177-193 | after a set on a loaded editable file, saving succeeds, and the next load reads exactly the lines written when the new value's written text is a single line, and different lines when it holds a line break |
| Manager.EditKeepsLines | PropertyManager.cs:182-193 | every line written after editing one entry is a single line exactly when that entry's escaped new value is |
| Manager.OtherLinesStaySingle | PropertyManager.cs:182-193 | the lines written for the entries a set did not touch are single lines |
| Manager.SetLineSingleLine | PropertyManager.cs:182-193 | the line written for the entry a set changed is a single line exactly when its escaped new value is |
| Manager.ApplyAllToObject | PropertyManager.cs:131-133 | bulk apply keeps the set of live objects |
| Manager.ApplyAllToType | PropertyManager.cs:146-148 | bulk apply to a type keeps the set of objects; an entry that is not static, or a null context, stops it at that entry with the matching error and no write |
| Manager.ApplyAllToTypeStopsAtFirst | PropertyManager.cs:146-148 | `Apply(Type)` on a non-empty list fails at the first entry and writes nothing |
| Manager.ApplyKeepsTypes | PropertyManager.cs:132 | applying an entry never changes the runtime type of an object |
| Manager.ApplyAllStep | PropertyManager.cs:132 | a successful entry lets the bulk apply continue from the new heap, with the context's type unchanged |
| Manager.FailureStopsApply | PropertyManager.cs:132 | a failing entry ends the bulk apply with its error, leaving the heap as the earlier entries left it |
| Manager.EmptyPathStopsApply | PropertyManager.cs:131-133 | an entry with an empty path, anywhere in the list, makes the bulk apply to an object fail |
| Manager.PropertyManager.Create | PropertyManager.cs:28-33 | a null provider fails with `ArgumentNullException`; a failed load fails; otherwise a new manager, not editable, holding the loaded entries |
| Manager.PropertyManager.CreateEditable | PropertyManager.cs:40-45 | as `Create`, but the manager is editable |
| Manager.PropertyManager.Get | PropertyManager.cs:56-61 | a key that no entry has reads as itself; a duplicate key fails; a null value fails with `NullReferenceException`; otherwise the read is the display string of the value under the key |
| Manager.PropertyManager.GetValue | PropertyManager.cs:160-165 | a value returned has the requested kind and is stored under the key; a key no entry has fails with `ArgumentException`, and so does a key whose entry has another kind; a duplicate key fails as not unique; a unique key of the requested kind succeeds |
| Manager.PropertyManager.ContainsKey | PropertyManager.cs:117-119 | true exactly when the lookup finds at least one entry, even where `SingleOrDefault` would throw |
| Manager.PropertyManager.SetValue | PropertyManager.cs:177-183 | the new entries and the outcome are those of `SetValueResult` over the old entries |
| Manager.PropertyManager.Save | PropertyManager.cs:190-196 | a manager that is not editable fails with `InvalidOperationException` and one with a provider that is not editable fails with `AmbiguousMatchException`, neither saving; otherwise the provider's store becomes what `SaveTo` writes |
| Manager.PropertyManager.ReloadProperties | PropertyManager.cs:201-203 | the entries are replaced wholesale by what the provider loads; a failed load keeps them |
| Manager.PropertyManager.ReloadPropertiesFrom | PropertyManager.cs:209-212 | the provider is replaced first, even when the load then fails; `Editable` is a constant and stays |
| Manager.PropertyManager.Apply | PropertyManager.cs:131-133 | the heap and outcome are those of `ApplyAllToObject` over the entries |
| Manager.PropertyManager.ApplyType | PropertyManager.cs:146-148 | the heap and outcome are those of `ApplyAllToType` over the entries |
| Manager.ApplyEach | PropertyManager.cs:132 | the `foreach` over entries computes `ApplyAllToObject` |
| Manager.ApplyEachToType | PropertyManager.cs:147 | the `foreach` over entries computes `ApplyAllToType` |
| Manager.ApplyFrom | PropertyManager.cs:74-76 | the static variant loads, then applies; a failed load writes nothing |
| Manager.ApplyTypeFrom | PropertyManager.cs:90-92 | the static variant loads, then applies to the type; a failed load writes nothing |

## Left out

- The file system and the file encoding are out. A file is the sequence of lines `File.ReadAllLines` gives. The editable file provider's `Save` returns the lines it writes, and `Manager.SaveTo` stores what `File.ReadAllLines` reads back from the text `File.WriteAllLines` makes of them.
- The `_allLines` field of the file providers and the `_configs` field of the LiteDB editable provider, because nothing reads them back.
- The LiteDB connection, `GetCollection` and its scoping, because a collection is modelled as a sequence of documents.
  - Whether `Find` returns null, and whether an `Update` or `Insert` is acknowledged, are parameter functions indexed by entry position.
  - An unacknowledged write is modelled as having no effect.
  - The query behind `Find` is modelled as exact name equality.
- BSON mapping of .NET values is reduced to one rule: a `float` is stored as a double. No other value changes type.
- `float.TryParse` (current culture, and `NumberStyles.Any` with the invariant culture), `int.TryParse` with `NumberStyles.Any`, and float formatting are uninterpreted parameters of `Runtime`. Floating-point arithmetic is not modelled.
- `int.TryParse` in the current culture is modelled with invariant signs and ASCII digits.
- `ValueCoercion.DisplayString`: a negative int is rendered with the invariant minus sign '-'. `int.ToString()` uses the current culture's `NegativeSign`, which is U+2212 for some cultures (such as sv-SE under ICU), so `this[key]` may differ there.
- Culture-specific case folding is out: `bool.TryParse` compares ASCII letters case-insensitively.
- `Strings.StartsWith`: the comment test `StartsWith(CommentSign)` is culture-sensitive in .NET, and the current culture ignores zero-weight characters. The model compares code points, as an ordinal prefix test. So a line that starts with an ignorable character before the comment sign, such as a soft hyphen (U+00AD) followed by "# a = 1", is a comment for .NET but is read here as a binding.
- A null `CommentSign`, for which `StartsWith` throws `ArgumentNullException`, is not modelled.
- `Environment.NewLine` is a parameter. The round-trip lemmas require it to be "\n" or "\r\n".
- Real reflection is out: assembly-qualified type names, `GetValue`/`SetValue` type conversions, and hidden or overloaded members. Each type has an abstract member table; `Type.GetType` is the partial function `resolveType`.
  - A member whose type differs from the value's is written anyway.
  - `Reflection.AcceptsTarget` accepts a target whose type is the lookup type or derives from it (`derivesFrom`). .NET tests against the member's declaring type, so it also accepts a target of the base type that declares an inherited member; the model rejects that target.
  - An exception raised inside reflection other than a rejected target is out.
  - A read of an intermediate member that holds a null or a boxed value is modelled as an error of its own.
- `AmbiguousMatchException` from a type that declares the same member name twice is out, because the member table has one row per name and kind.
- Exception messages are out. The path errors carry the entry's `Property`.
- `Manager.PropertyManager.ReloadPropertiesFrom`: a null provider is not modelled. It would throw `NullReferenceException` after replacing the provider.
- Null providers passed to the static `Apply` and `GetValue` are not modelled.
- `SetValue` on a value of a type outside int, float, bool and string is not modelled, and neither is `SetValue<string>(null)`. `T` ranges over the four kinds.
- `Manager.PropertyManager.SetValue`: the C# updates the entry object that the list shares. The model replaces element `i` of an immutable sequence; no other reference to the entry exists.
- `FileEditablePropertyProvider.LoadSaveLoad` and `Manager.FileSaveThenReload`:
  - They require every binding entry to be `SavesSafely`.
  - `Manager.FileSaveThenReload` also requires the file's lines to hold no line terminator, as every line `File.ReadAllLines` returns does.
  - A bare path starting with white space would be trimmed away.
  - A saved line starting with the comment sign would read back as a comment.
  - A float value is only promised to keep its path, flags and line kind; its text depends on the culture.
- `Manager.FileSaveThenReload`, `Manager.SetThenSaveKeepsLines` and `FileEditablePropertyProvider.SavedLineIsSingleLine` require the invariant float formatter, a parameter, never to produce a line break (`FloatRendersOnOneLine`).
- `Manager.EditedFileStillSaves` counts the lines written, not the lines the next load reads. These differ when the new value holds a line break (`Manager.SetThenSaveKeepsLines`).
- `LiteDbEditablePropertyProvider.SaveThenLoad` states that a saved float reloads as null. This follows from the BSON mapping rule above.
- `Manager.EmptyPathStopsApply` requires that the context type has no member named "", which holds for every C# type.
