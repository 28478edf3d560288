/**
 * `PropertyManager`: holds the entries a provider loaded, answers keyed
 * queries over them, lets an editable manager change values and save them
 * back, and applies every entry to an object or a type.
 *
 * Keyed lookups use `SingleOrDefault`: no entry of the key gives the default,
 * one gives that entry, and two or more throw. The underlying stores are
 * values the providers carry: the lines of a file or the documents of a
 * LiteDB collection.
 */
module Manager {
  import opened Wrappers
  import opened Strings
  import opened ValueCoercion
  import opened Reflection
  import opened PropertyEntry
  import opened LiteDbPropertyProvider
  import Plain = FilePropertyProvider
  import Editable = FileEditablePropertyProvider
  import LiteEditable = LiteDbEditablePropertyProvider

  /** The four `IPropertyProvider` implementations, each with the store it reads. */
  datatype Provider =
    | FileProvider(lines: seq<string>, commentSign: string)
    | FileEditableProvider(lines: seq<string>, commentSign: string)
    | LiteDbProvider(docs: seq<Configuration>)
    | LiteDbEditableProvider(docs: seq<Configuration>)
  {
    /** Whether the provider implements `IEditablePropertyProvider`. */
    predicate IsEditable() {
      FileEditableProvider? || LiteDbEditableProvider?
    }
  }

  /** The exceptions the manager throws or lets through. */
  datatype ManagerError =
    | NullProvider                               // ArgumentNullException: no provider given
    | LoadFailed(cause: Editable.LoadError)      // a binding line without '=' in an editable file
    | NotUnique                                  // InvalidOperationException from SingleOrDefault
    | KeyNotFound                                // ArgumentException: no entry of the key
    | TypeMismatch                               // ArgumentException: PropertyType is not typeof(T)
    | NullValue                                  // NullReferenceException: ToString() of a null value
    | NotEditable                                // InvalidOperationException: manager not editable
    | ProviderNotEditable                        // AmbiguousMatchException: provider not editable
    | LineSaveFailed(lineError: Editable.SaveError)        // InvalidCastException in the file provider
    | StoreFailed(storeError: LiteEditable.StoreError)     // InvalidOperationException in the LiteDB provider
    | ApplyFailed(applyError: ApplyError)        // an exception raised while applying an entry

  /** `provider.GetPropertyEntries()`: only an editable file can fail to load. */
  function Load(p: Provider, rt: Runtime): (r: Result<seq<Entry>, ManagerError>)
    ensures r.Failure? <==> p.FileEditableProvider? && Editable.ParseFile(p.lines, p.commentSign, rt).Failure?
    ensures r.Failure? ==> r.error == LoadFailed(Editable.MissingSeparator)
    ensures r.Success? && p.FileEditableProvider? ==> |r.value| == |p.lines|
    ensures r.Success? && (p.LiteDbProvider? || p.LiteDbEditableProvider?) ==> |r.value| == |p.docs|
  {
    match p
    case FileProvider(lines, commentSign) => Success(Plain.ParseFile(lines, commentSign, rt))
    case FileEditableProvider(lines, commentSign) =>
      (match Editable.ParseFile(lines, commentSign, rt)
       case Success(entries) => Success(entries)
       case Failure(err) => Failure(LoadFailed(err)))
    case LiteDbProvider(docs) => Success(EntriesOf(docs))
    case LiteDbEditableProvider(docs) => Success(EntriesOf(docs))
  }

  /**
   * `provider.Save(entries)` for an editable provider: the provider afterwards
   * carries the store as written. A file is written whole or not at all, and
   * holds afterwards the lines `File.ReadAllLines` will cut its text into; a
   * collection keeps the writes made before a failure.
   */
  function SaveTo(p: Provider, entries: seq<Entry>, rt: Runtime, o: LiteEditable.StoreOutcomes): (r: (Provider, Outcome<ManagerError>))
    requires p.IsEditable()
    ensures r.0.IsEditable() && r.0.FileEditableProvider? == p.FileEditableProvider?
    ensures p.FileEditableProvider? ==> r.0.commentSign == p.commentSign
    ensures p.FileEditableProvider? && r.1.Fail? ==> r.0 == p
    ensures p.FileEditableProvider? ==> (r.1.Pass? <==> forall i :: 0 <= i < |entries| ==> entries[i].line.Some?)
    ensures p.FileEditableProvider? && r.1.Pass? ==> forall i :: 0 <= i < |r.0.lines| ==> IsSingleLine(r.0.lines[i])
    ensures p.FileEditableProvider? && r.1.Pass? && rt.HasPlatformNewLine() ==>
              (r.0.lines == Editable.SaveFile(entries, rt).value
               <==> forall i :: 0 <= i < |entries| ==> IsSingleLine(Editable.SaveFile(entries, rt).value[i]))
  {
    match p
    case FileEditableProvider(lines, commentSign) =>
      (match Editable.SaveFile(entries, rt)
       case Success(written) => (FileEditableProvider(Editable.StoredLines(written, rt.newLine), commentSign), Pass)
       case Failure(err) => (p, Fail(LineSaveFailed(err))))
    case LiteDbEditableProvider(docs) =>
      var saved := LiteEditable.SaveAll(docs, entries, o);
      (LiteDbEditableProvider(saved.0), if saved.1.Pass? then Pass else Fail(StoreFailed(saved.1.error)))
  }

  // ---------------------------------------------------------------------
  // Keyed queries
  // ---------------------------------------------------------------------

  /** `SingleOrDefault(p => p.Property == key)`, as the position of the entry found. */
  function Lookup(entries: seq<Entry>, key: string): (r: Result<Option<nat>, ManagerError>)
    ensures r.Failure? ==> r.error == NotUnique
    ensures r == Success(None) <==> forall i :: 0 <= i < |entries| ==> entries[i].property != key
    ensures r.Success? && r.value.Some? ==>
              r.value.value < |entries| && entries[r.value.value].property == key
              && forall i :: 0 <= i < |entries| && entries[i].property == key ==> i == r.value.value
  {
    if entries == [] then Success(None)
    else
      var rest := entries[1..];
      assert forall i :: 1 <= i < |entries| ==> entries[i] == rest[i - 1];
      match Lookup(rest, key)
      case Failure(err) => Failure(err)
      case Success(None) => if entries[0].property == key then Success(Some(0)) else Success(None)
      case Success(Some(j)) => if entries[0].property == key then Failure(NotUnique) else Success(Some(j + 1))
  }

  /** `SingleOrDefault` throws exactly when two entries have the key. */
  lemma {:induction false} LookupFailsOnDuplicates(entries: seq<Entry>, key: string)
    ensures Lookup(entries, key).Failure? <==>
              exists i, j :: 0 <= i < j < |entries| && entries[i].property == key && entries[j].property == key
  {
    if entries != [] {
      var rest := entries[1..];
      assert forall i :: 1 <= i < |entries| ==> entries[i] == rest[i - 1];
      LookupFailsOnDuplicates(rest, key);
      if Lookup(rest, key).Failure? {
        var i, j :| 0 <= i < j < |rest| && rest[i].property == key && rest[j].property == key;
        assert entries[i + 1].property == key && entries[j + 1].property == key;
      } else if Lookup(entries, key).Failure? {
        assert entries[0].property == key && entries[Lookup(rest, key).value.value + 1].property == key;
      }
    }
  }

  /** `GetValue<T>(key)` over a list of entries, with `T` given as its kind. */
  function Fetch(entries: seq<Entry>, key: string, kind: Kind): (r: Result<Value, ManagerError>)
    ensures (forall i :: 0 <= i < |entries| ==> entries[i].property != key) ==> r == Failure(KeyNotFound)
    ensures r.Success? ==> r.value.Kind() == kind
                           && exists i :: 0 <= i < |entries| && entries[i].property == key && entries[i].value == Some(r.value)
    ensures r == Failure(TypeMismatch) ==>
              exists i :: 0 <= i < |entries| && entries[i].property == key && entries[i].PropertyType() != Some(kind)
    ensures r.Failure? ==> r.error in {NotUnique, KeyNotFound, TypeMismatch}
    ensures Lookup(entries, key).Failure? ==> r == Failure(NotUnique)
    ensures (Lookup(entries, key).Success? && Lookup(entries, key).value.Some?
             && entries[Lookup(entries, key).value.value].PropertyType() == Some(kind)) ==> r.Success?
  {
    match Lookup(entries, key)
    case Failure(err) => Failure(err)
    case Success(None) => Failure(KeyNotFound)
    case Success(Some(i)) =>
      if entries[i].PropertyType() != Some(kind) then Failure(TypeMismatch)
      else Success(entries[i].value.value)
  }

  /** The static `GetValue<T>(key, provider)`: the same query over a freshly loaded list. */
  function GetValueFrom(key: string, kind: Kind, p: Provider, rt: Runtime): (r: Result<Value, ManagerError>)
    ensures Load(p, rt).Failure? ==> r == Failure(Load(p, rt).error)
    ensures Load(p, rt).Success? ==> r == Fetch(Load(p, rt).value, key, kind)
  {
    match Load(p, rt)
    case Failure(err) => Failure(err)
    case Success(entries) => Fetch(entries, key, kind)
  }

  /** `SetValue<T>(key, value)` on a list: the list afterwards and whether it threw. */
  function SetValueResult(entries: seq<Entry>, editable: bool, key: string, value: Value): (r: (seq<Entry>, Outcome<ManagerError>))
    ensures r.1.Fail? ==> r.0 == entries
    ensures !editable ==> r.1 == Fail(NotEditable)
    ensures editable && Lookup(entries, key).Failure? ==> r.1 == Fail(NotUnique)
    ensures editable && (forall i :: 0 <= i < |entries| ==> entries[i].property != key) ==> r.1 == Fail(KeyNotFound)
    ensures r.1.Pass? <==> editable && Fetch(entries, key, value.Kind()).Success?
  {
    if !editable then (entries, Fail(NotEditable))
    else
      match Lookup(entries, key)
      case Failure(err) => (entries, Fail(err))
      case Success(None) => (entries, Fail(KeyNotFound))
      case Success(Some(i)) =>
        if entries[i].PropertyType() != Some(value.Kind()) then (entries, Fail(TypeMismatch))
        else (entries[i := entries[i].(value := Some(value))], Pass)
  }

  /** A successful `SetValue` changes only the value of the entry of the key; its type, path, flags and line stay. */
  lemma SetValueChangesOnlyThatValue(entries: seq<Entry>, editable: bool, key: string, value: Value)
    requires SetValueResult(entries, editable, key, value).1.Pass?
    ensures var after := SetValueResult(entries, editable, key, value).0;
            |after| == |entries|
            && forall j :: 0 <= j < |entries| ==>
                 if entries[j].property == key then after[j] == entries[j].(value := Some(value))
                                                    && after[j].PropertyType() == entries[j].PropertyType()
                 else after[j] == entries[j]
  {
  }

  /** Reading a key after setting it gives the value set; every other key reads as before. */
  lemma GetAfterSet(entries: seq<Entry>, editable: bool, key: string, value: Value, other: string, kind: Kind)
    requires SetValueResult(entries, editable, key, value).1.Pass?
    ensures Fetch(SetValueResult(entries, editable, key, value).0, key, value.Kind()) == Success(value)
    ensures other != key ==> Fetch(SetValueResult(entries, editable, key, value).0, other, kind) == Fetch(entries, other, kind)
  {
    var after := SetValueResult(entries, editable, key, value).0;
    var i := Lookup(entries, key).value.value;
    SameKeysSameLookup(entries, after, key);
    SameKeysSameLookup(entries, after, other);
  }

  /** Lookups look only at the keys. */
  lemma {:induction false} SameKeysSameLookup(a: seq<Entry>, b: seq<Entry>, key: string)
    requires |a| == |b| && forall i :: 0 <= i < |a| ==> a[i].property == b[i].property
    ensures Lookup(a, key) == Lookup(b, key)
  {
    if a != [] {
      SameKeysSameLookup(a[1..], b[1..], key);
    }
  }

  /** Every entry an editable file yields keeps its line through `SetValue`, so the file can still be saved, one line per entry. */
  lemma EditedFileStillSaves(lines: seq<string>, commentSign: string, rt: Runtime, key: string, value: Value, o: LiteEditable.StoreOutcomes)
    requires Load(FileEditableProvider(lines, commentSign), rt).Success?
    ensures var p := FileEditableProvider(lines, commentSign);
            var edited := SetValueResult(Load(p, rt).value, true, key, value).0;
            SaveTo(p, edited, rt, o).1.Pass? && |Editable.SaveFile(edited, rt).value| == |lines|
  {
    var p := FileEditableProvider(lines, commentSign);
    var loaded := Load(p, rt).value;
    forall i | 0 <= i < |loaded| ensures loaded[i].line.Some? {
      assert Editable.ParseLine(lines[i], commentSign, rt) == Success(loaded[i]);
    }
    var edited := SetValueResult(loaded, true, key, value).0;
    if SetValueResult(loaded, true, key, value).1.Pass? {
      SetValueChangesOnlyThatValue(loaded, true, key, value);
    }
    assert |edited| == |loaded| && forall i :: 0 <= i < |edited| ==> edited[i].line.Some?;
  }

  /**
   * Saving what an editable file loaded and loading it again gives back every
   * entry, up to the text of float values.
   */
  lemma FileSaveThenReload(lines: seq<string>, commentSign: string, rt: Runtime, o: LiteEditable.StoreOutcomes)
    requires rt.HasPlatformNewLine() && rt.FloatRejectsBooleans() && rt.FloatRendersOnOneLine()
    requires forall i :: 0 <= i < |lines| ==> IsSingleLine(lines[i])
    requires Load(FileEditableProvider(lines, commentSign), rt).Success?
    requires forall i :: 0 <= i < |lines| ==>
               Editable.SavesSafely(Load(FileEditableProvider(lines, commentSign), rt).value[i], commentSign, rt)
    ensures var p := FileEditableProvider(lines, commentSign);
            var saved := SaveTo(p, Load(p, rt).value, rt, o);
            saved.1.Pass? && Load(saved.0, rt).Success? && |Load(saved.0, rt).value| == |lines|
            && forall i :: 0 <= i < |lines| ==> Editable.ReloadsAs(Load(p, rt).value[i], Load(saved.0, rt).value[i])
  {
    var p := FileEditableProvider(lines, commentSign);
    var loaded := Load(p, rt).value;
    Editable.LoadSaveLoad(lines, commentSign, rt);
    var written := Editable.SaveFile(loaded, rt).value;
    forall i | 0 <= i < |written| ensures IsSingleLine(written[i]) {
      Editable.SavedLineIsSingleLine(lines[i], loaded[i], commentSign, rt);
    }
  }

  /**
   * After a `SetValue` on the entries of an editable file, the saved file reads
   * back as the lines written exactly when the new value is written on one line.
   * A string value holding a line break the escaping leaves in place (a '\n' where
   * `Environment.NewLine` is "\r\n", a '\r' where it is "\n") breaks its line in two.
   */
  lemma SetThenSaveKeepsLines(lines: seq<string>, commentSign: string, rt: Runtime, key: string, value: Value,
                              o: LiteEditable.StoreOutcomes)
    requires rt.HasPlatformNewLine() && rt.FloatRendersOnOneLine()
    requires forall i :: 0 <= i < |lines| ==> IsSingleLine(lines[i])
    requires Load(FileEditableProvider(lines, commentSign), rt).Success?
    requires SetValueResult(Load(FileEditableProvider(lines, commentSign), rt).value, true, key, value).1.Pass?
    ensures var p := FileEditableProvider(lines, commentSign);
            var edited := SetValueResult(Load(p, rt).value, true, key, value).0;
            SaveTo(p, edited, rt, o).1.Pass?
            && (SaveTo(p, edited, rt, o).0.lines == Editable.SaveFile(edited, rt).value
                <==> IsSingleLine(EscapeNewLines(FormatInvariant(Some(value), rt), rt.newLine)))
  {
    var p := FileEditableProvider(lines, commentSign);
    var loaded := Load(p, rt).value;
    EditedFileStillSaves(lines, commentSign, rt, key, value, o);
    var edited := SetValueResult(loaded, true, key, value).0;
    SetValueChangesOnlyThatValue(loaded, true, key, value);
    var j := Lookup(loaded, key).value.value;
    EditKeepsLines(lines, commentSign, rt, loaded, edited, j, value);
  }

  /** `SetThenSaveKeepsLines` over the entries before and after the edit of entry `j`. */
  lemma EditKeepsLines(lines: seq<string>, commentSign: string, rt: Runtime, loaded: seq<Entry>, edited: seq<Entry>,
                       j: nat, value: Value)
    requires rt.HasPlatformNewLine() && rt.FloatRendersOnOneLine()
    requires forall i :: 0 <= i < |lines| ==> IsSingleLine(lines[i])
    requires Editable.ParseFile(lines, commentSign, rt) == Success(loaded)
    requires j < |loaded| && loaded[j].value.Some? && |edited| == |loaded| && edited[j] == loaded[j].(value := Some(value))
    requires forall i :: 0 <= i < |loaded| && i != j ==> edited[i] == loaded[i]
    ensures Editable.SaveFile(edited, rt).Success?
    ensures (forall i :: 0 <= i < |edited| ==> IsSingleLine(Editable.SaveFile(edited, rt).value[i]))
            <==> IsSingleLine(EscapeNewLines(FormatInvariant(Some(value), rt), rt.newLine))
  {
    OtherLinesStaySingle(lines, commentSign, rt, loaded, edited, j);
    SetLineSingleLine(lines[j], loaded[j], edited[j], commentSign, rt, value);
    var written := Editable.SaveFile(edited, rt).value;
    AllSingleButOne(written, j, IsSingleLine(EscapeNewLines(FormatInvariant(Some(value), rt), rt.newLine)));
  }

  /** All lines are single lines exactly when line `j` is, if all others are. */
  lemma AllSingleButOne(ws: seq<string>, j: nat, b: bool)
    requires j < |ws| && forall i :: 0 <= i < |ws| && i != j ==> IsSingleLine(ws[i])
    requires IsSingleLine(ws[j]) <==> b
    ensures (forall i :: 0 <= i < |ws| ==> IsSingleLine(ws[i])) <==> b
  {
  }

  /** The saved lines of the entries a `SetValue` left alone are single lines. */
  lemma OtherLinesStaySingle(lines: seq<string>, commentSign: string, rt: Runtime, loaded: seq<Entry>, edited: seq<Entry>, j: nat)
    requires rt.HasPlatformNewLine() && rt.FloatRendersOnOneLine()
    requires forall i :: 0 <= i < |lines| ==> IsSingleLine(lines[i])
    requires Editable.ParseFile(lines, commentSign, rt) == Success(loaded)
    requires |edited| == |loaded| && forall i :: 0 <= i < |loaded| && i != j ==> edited[i] == loaded[i]
    ensures forall i :: 0 <= i < |edited| && i != j ==>
              Editable.SaveLine(edited[i], rt).Success? && IsSingleLine(Editable.SaveLine(edited[i], rt).value)
  {
    forall i | 0 <= i < |edited| && i != j
      ensures Editable.SaveLine(edited[i], rt).Success? && IsSingleLine(Editable.SaveLine(edited[i], rt).value)
    {
      Editable.SavedLineIsSingleLine(lines[i], loaded[i], commentSign, rt);
    }
  }

  /** The saved line of the entry a `SetValue` changed is one line exactly when the new value's text is. */
  lemma SetLineSingleLine(line: string, e: Entry, e2: Entry, commentSign: string, rt: Runtime, value: Value)
    requires IsSingleLine(line) && rt.HasPlatformNewLine() && rt.FloatRendersOnOneLine()
    requires Editable.ParseLine(line, commentSign, rt) == Success(e) && e.value.Some?
    requires e2 == e.(value := Some(value))
    ensures Editable.SaveLine(e2, rt).Success?
    ensures IsSingleLine(Editable.SaveLine(e2, rt).value) <==> IsSingleLine(EscapeNewLines(FormatInvariant(Some(value), rt), rt.newLine))
  {
    Editable.SavedLineIsSingleLine(line, e, commentSign, rt);
    Editable.SavedBindingLine(e, rt);
    Editable.SavedBindingLine(e2, rt);
  }

  // ---------------------------------------------------------------------
  // Bulk apply
  // ---------------------------------------------------------------------

  /** `foreach (entry in entries) entry.Apply(context)` from position `i`: no rollback of earlier writes. */
  function ApplyAllToObject(entries: seq<Entry>, ts: TypeSystem, heap: Heap, context: Option<Ref>, i: nat): (r: (Heap, Outcome<ApplyError>))
    requires i <= |entries| && (context.Some? ==> context.value in heap)
    ensures r.0.Keys == heap.Keys
    decreases |entries| - i
  {
    if i == |entries| then (heap, Pass)
    else
      match ApplyToObject(entries[i], ts, heap, context)
      case Failure(err) => (heap, Fail(err))
      case Success(h) => ApplyAllToObject(entries, ts, h, context, i + 1)
  }

  /** `foreach (entry in entries) entry.Apply(type)` from position `i`. */
  function ApplyAllToType(entries: seq<Entry>, ts: TypeSystem, heap: Heap, context: Option<TypeName>, i: nat): (r: (Heap, Outcome<ApplyError>))
    requires i <= |entries|
    ensures r.0.Keys == heap.Keys
    ensures i < |entries| && !entries[i].isStatic ==> r == (heap, Fail(NotStatic))
    ensures i < |entries| && entries[i].isStatic && context.None? ==> r == (heap, Fail(NullContext))
    decreases |entries| - i
  {
    if i == |entries| then (heap, Pass)
    else
      match ApplyToType(entries[i], ts, heap, context)
      case Failure(err) => (heap, Fail(err))
      case Success(h) => ApplyAllToType(entries, ts, h, context, i + 1)
  }

  /** Applying to a type stops at the first entry, whatever it is, and writes nothing. */
  lemma ApplyAllToTypeStopsAtFirst(entries: seq<Entry>, ts: TypeSystem, heap: Heap, context: Option<TypeName>)
    requires |entries| > 0
    ensures ApplyToType(entries[0], ts, heap, context).Failure?
    ensures ApplyAllToType(entries, ts, heap, context, 0) == (heap, Fail(ApplyToType(entries[0], ts, heap, context).error))
  {
    ApplyToTypeNeverSucceeds(entries[0], ts, heap, context);
  }

  /** A successful apply keeps the runtime type of every object. */
  lemma ApplyKeepsTypes(e: Entry, ts: TypeSystem, heap: Heap, context: Ref)
    requires context in heap && ApplyToObject(e, ts, heap, Some(context)).Success?
    ensures forall p :: p in heap ==> ApplyToObject(e, ts, heap, Some(context)).value[p].typ == heap[p].typ
  {
    var elements := Segments(e);
    var c := Cursor(heap[context].typ, Some(context));
    var h := Walk(e, ts, heap, elements, 0, c).value;
    assert h == ApplyToObject(e, ts, heap, Some(context)).value;
    OnlyLastSegmentWritten(e, ts, heap, elements, 0, c);
    var key := SlotKey(if e.isField then Field else Property, elements[|elements| - 1]);
    var q :| q in heap && h == heap[q := heap[q].(slots := heap[q].slots[key := ToVal(e.value)])];
  }

  /** One successful entry: the bulk apply continues from the new heap, with every object's type kept. */
  lemma ApplyAllStep(entries: seq<Entry>, ts: TypeSystem, heap: Heap, context: Ref, i: nat)
    requires context in heap && i < |entries| && ApplyToObject(entries[i], ts, heap, Some(context)).Success?
    ensures var h := ApplyToObject(entries[i], ts, heap, Some(context)).value;
            context in h && h[context].typ == heap[context].typ
            && ApplyAllToObject(entries, ts, heap, Some(context), i) == ApplyAllToObject(entries, ts, h, Some(context), i + 1)
  {
    ApplyKeepsTypes(entries[i], ts, heap, context);
  }

  /** A failing entry ends the bulk apply with its error. */
  lemma FailureStopsApply(entries: seq<Entry>, ts: TypeSystem, heap: Heap, context: Ref, i: nat)
    requires context in heap && i < |entries| && ApplyToObject(entries[i], ts, heap, Some(context)).Failure?
    ensures ApplyAllToObject(entries, ts, heap, Some(context), i) == (heap, Fail(ApplyToObject(entries[i], ts, heap, Some(context)).error))
  {
  }

  /** The type has no member named "", which is the case for every type C# declares. */
  predicate NoEmptyMember(ts: TypeSystem, t: TypeName) {
    forall m :: 0 <= m < |ts.members(t)| ==> ts.members(t)[m].name != ""
  }

  /**
   * An entry with an empty `Property`, such as a comment line of an editable
   * file, stops the bulk apply when the context's type has no member named "".
   */
  lemma {:induction false} EmptyPathStopsApply(entries: seq<Entry>, ts: TypeSystem, heap: Heap, context: Ref, i: nat, k: nat)
    requires context in heap && i <= k < |entries| && entries[k].property == ""
    requires NoEmptyMember(ts, heap[context].typ)
    ensures ApplyAllToObject(entries, ts, heap, Some(context), i).1.Fail?
    decreases |entries| - i, 1
  {
    if i == k {
      EmptyPathNeverApplies(entries[k], ts, heap, context);
      FailureStopsApply(entries, ts, heap, context, k);
    } else if ApplyToObject(entries[i], ts, heap, Some(context)).Success? {
      EmptyPathStopsLater(entries, ts, heap, context, i, k);
    } else {
      FailureStopsApply(entries, ts, heap, context, i);
    }
  }

  /** The inductive step of `EmptyPathStopsApply`: an entry before the empty one succeeds. */
  lemma {:induction false} EmptyPathStopsLater(entries: seq<Entry>, ts: TypeSystem, heap: Heap, context: Ref, i: nat, k: nat)
    requires context in heap && i < k < |entries| && entries[k].property == ""
    requires NoEmptyMember(ts, heap[context].typ)
    requires ApplyToObject(entries[i], ts, heap, Some(context)).Success?
    ensures ApplyAllToObject(entries, ts, heap, Some(context), i).1.Fail?
    decreases |entries| - i, 0
  {
    var h := ApplyToObject(entries[i], ts, heap, Some(context)).value;
    ApplyAllStep(entries, ts, heap, context, i);
    EmptyPathStopsApply(entries, ts, h, context, i + 1, k);
  }

  // ---------------------------------------------------------------------
  // The manager
  // ---------------------------------------------------------------------

  class PropertyManager {
    var properties: seq<Entry>
    var provider: Provider
    const editable: bool
    const rt: Runtime

    constructor (provider: Provider, editable: bool, properties: seq<Entry>, rt: Runtime)
      ensures this.provider == provider && this.editable == editable && this.properties == properties && this.rt == rt
    {
      this.provider := provider;
      this.editable := editable;
      this.properties := properties;
      this.rt := rt;
    }

    /** `new PropertyManager(IPropertyProvider)`: never editable, whatever the provider. */
    static method Create(provider: Option<Provider>, rt: Runtime) returns (r: Result<PropertyManager, ManagerError>)
      ensures provider.None? ==> r == Failure(NullProvider)
      ensures provider.Some? && Load(provider.value, rt).Failure? ==> r == Failure(Load(provider.value, rt).error)
      ensures r.Success? ==> fresh(r.value) && !r.value.editable && r.value.rt == rt && provider.Some?
                             && r.value.provider == provider.value && Load(provider.value, rt) == Success(r.value.properties)
    {
      if provider.None? {
        return Failure(NullProvider);
      }
      var loaded := Load(provider.value, rt);
      if loaded.Failure? {
        return Failure(loaded.error);
      }
      var m := new PropertyManager(provider.value, false, loaded.value, rt);
      r := Success(m);
    }

    /** `new PropertyManager(IEditablePropertyProvider)`: the only way to an editable manager. */
    static method CreateEditable(provider: Option<Provider>, rt: Runtime) returns (r: Result<PropertyManager, ManagerError>)
      requires provider.Some? ==> provider.value.IsEditable()
      ensures provider.None? ==> r == Failure(NullProvider)
      ensures provider.Some? && Load(provider.value, rt).Failure? ==> r == Failure(Load(provider.value, rt).error)
      ensures r.Success? ==> fresh(r.value) && r.value.editable && r.value.rt == rt && provider.Some?
                             && r.value.provider == provider.value && Load(provider.value, rt) == Success(r.value.properties)
    {
      if provider.None? {
        return Failure(NullProvider);
      }
      var loaded := Load(provider.value, rt);
      if loaded.Failure? {
        return Failure(loaded.error);
      }
      var m := new PropertyManager(provider.value, true, loaded.value, rt);
      r := Success(m);
    }

    /** `this[key]`: a missing key reads as itself; otherwise the value's `ToString()`. */
    function Get(key: string): (r: Result<string, ManagerError>)
      reads this
      ensures !ContainsKey(key) ==> r == Success(key)
      ensures r == Failure(NotUnique) <==> Lookup(properties, key).Failure?
      ensures r == Failure(NullValue) <==>
                Lookup(properties, key).Success? && Lookup(properties, key).value.Some?
                && properties[Lookup(properties, key).value.value].value.None?
      ensures r.Failure? ==> r.error == NotUnique || r.error == NullValue
      ensures r.Success? && ContainsKey(key) ==>
                exists i :: 0 <= i < |properties| && properties[i].property == key && properties[i].value.Some?
                            && r.value == DisplayString(properties[i].value.value, rt)
    {
      match Lookup(properties, key)
      case Failure(err) => Failure(err)
      case Success(None) => Success(key)
      case Success(Some(i)) =>
        if properties[i].value.None? then Failure(NullValue)
        else Success(DisplayString(properties[i].value.value, rt))
    }

    /** `ContainsKey(key)`: some entry has the key (even when several do and lookups throw). */
    function ContainsKey(key: string): (r: bool)
      reads this
      ensures r <==> Lookup(properties, key) != Success(None)
    {
      exists i :: 0 <= i < |properties| && properties[i].property == key
    }

    /** `GetValue<T>(key)`. */
    function GetValue(key: string, kind: Kind): (r: Result<Value, ManagerError>)
      reads this
      ensures r.Success? ==> r.value.Kind() == kind
                             && exists i :: 0 <= i < |properties| && properties[i].property == key && properties[i].value == Some(r.value)
      ensures !ContainsKey(key) ==> r == Failure(KeyNotFound)
      ensures Lookup(properties, key).Failure? ==> r == Failure(NotUnique)
      ensures r == Failure(TypeMismatch) ==>
                exists i :: 0 <= i < |properties| && properties[i].property == key && properties[i].PropertyType() != Some(kind)
      ensures (Lookup(properties, key).Success? && Lookup(properties, key).value.Some?
               && properties[Lookup(properties, key).value.value].PropertyType() == Some(kind)) ==> r.Success?
    {
      Fetch(properties, key, kind)
    }

    /** `SetValue<T>(key, value)`, with `T` the kind of `value`. */
    method SetValue(key: string, value: Value) returns (r: Outcome<ManagerError>)
      modifies this`properties
      ensures (properties, r) == SetValueResult(old(properties), editable, key, value)
    {
      if !editable {
        return Fail(NotEditable);
      }
      var property := Lookup(properties, key);
      if property.Failure? {
        return Fail(property.error);
      }
      if property.value.None? {
        return Fail(KeyNotFound);
      }
      var i := property.value.value;
      if properties[i].PropertyType() != Some(value.Kind()) {
        return Fail(TypeMismatch);
      }
      properties := properties[i := properties[i].(value := Some(value))];
      r := Pass;
    }

    /** `Save()`: refused unless the manager is editable and its current provider is too. */
    method Save(o: LiteEditable.StoreOutcomes) returns (r: Outcome<ManagerError>)
      modifies this`provider
      ensures !editable ==> r == Fail(NotEditable) && provider == old(provider)
      ensures editable && !old(provider).IsEditable() ==> r == Fail(ProviderNotEditable) && provider == old(provider)
      ensures editable && old(provider).IsEditable() ==> (provider, r) == SaveTo(old(provider), properties, rt, o)
    {
      if !editable {
        return Fail(NotEditable);
      }
      if !provider.IsEditable() {
        return Fail(ProviderNotEditable);
      }
      var saved := SaveTo(provider, properties, rt, o);
      provider := saved.0;
      r := saved.1;
    }

    /** `ReloadProperties()`: the list is replaced wholesale, or kept when loading throws. */
    method ReloadProperties() returns (r: Outcome<ManagerError>)
      modifies this`properties
      ensures Load(provider, rt).Success? ==> r == Pass && properties == Load(provider, rt).value
      ensures Load(provider, rt).Failure? ==> r == Fail(Load(provider, rt).error) && properties == old(properties)
    {
      var loaded := Load(provider, rt);
      if loaded.Failure? {
        return Fail(loaded.error);
      }
      properties := loaded.value;
      r := Pass;
    }

    /** `ReloadProperties(provider)`: the provider is replaced first; `Editable` stays as it was. */
    method ReloadPropertiesFrom(p: Provider) returns (r: Outcome<ManagerError>)
      modifies this`provider, this`properties
      ensures provider == p
      ensures Load(p, rt).Success? ==> r == Pass && properties == Load(p, rt).value
      ensures Load(p, rt).Failure? ==> r == Fail(Load(p, rt).error) && properties == old(properties)
    {
      provider := p;
      r := ReloadProperties();
    }

    /** `Apply(object context)`: every entry in list order, stopping at the first that throws. */
    method Apply(ts: TypeSystem, g: ObjectGraph, context: Option<Ref>) returns (r: Outcome<ApplyError>)
      requires context.Some? ==> context.value in g.heap
      modifies g
      ensures (g.heap, r) == ApplyAllToObject(properties, ts, old(g.heap), context, 0)
    {
      r := ApplyEach(properties, ts, g, context);
    }

    /** `Apply(Type context)`. */
    method ApplyType(ts: TypeSystem, g: ObjectGraph, context: Option<TypeName>) returns (r: Outcome<ApplyError>)
      modifies g
      ensures (g.heap, r) == ApplyAllToType(properties, ts, old(g.heap), context, 0)
    {
      r := ApplyEachToType(properties, ts, g, context);
    }
  }

  /** The `foreach` over entries shared by the instance and static `Apply(object)`. */
  method ApplyEach(entries: seq<Entry>, ts: TypeSystem, g: ObjectGraph, context: Option<Ref>) returns (r: Outcome<ApplyError>)
    requires context.Some? ==> context.value in g.heap
    modifies g
    ensures (g.heap, r) == ApplyAllToObject(entries, ts, old(g.heap), context, 0)
  {
    for i := 0 to |entries|
      invariant context.Some? ==> context.value in g.heap
      invariant ApplyAllToObject(entries, ts, g.heap, context, i) == ApplyAllToObject(entries, ts, old(g.heap), context, 0)
    {
      var applied := ApplyObject(entries[i], ts, g, context);
      if applied.Fail? {
        return applied;
      }
    }
    r := Pass;
  }

  /** The `foreach` over entries shared by the instance and static `Apply(Type)`. */
  method ApplyEachToType(entries: seq<Entry>, ts: TypeSystem, g: ObjectGraph, context: Option<TypeName>) returns (r: Outcome<ApplyError>)
    modifies g
    ensures (g.heap, r) == ApplyAllToType(entries, ts, old(g.heap), context, 0)
  {
    for i := 0 to |entries|
      invariant ApplyAllToType(entries, ts, g.heap, context, i) == ApplyAllToType(entries, ts, old(g.heap), context, 0)
    {
      var applied := ApplyType(entries[i], ts, g, context);
      if applied.Fail? {
        return applied;
      }
    }
    r := Pass;
  }

  /** The static `Apply(object context, provider)`: load, then apply every entry. */
  method ApplyFrom(p: Provider, rt: Runtime, ts: TypeSystem, g: ObjectGraph, context: Option<Ref>) returns (r: Outcome<ManagerError>)
    requires context.Some? ==> context.value in g.heap
    modifies g
    ensures Load(p, rt).Failure? ==> r == Fail(Load(p, rt).error) && g.heap == old(g.heap)
    ensures Load(p, rt).Success? ==>
              var spec := ApplyAllToObject(Load(p, rt).value, ts, old(g.heap), context, 0);
              g.heap == spec.0 && (r.Pass? <==> spec.1.Pass?) && (r.Fail? ==> r == Fail(ApplyFailed(spec.1.error)))
  {
    var loaded := Load(p, rt);
    if loaded.Failure? {
      return Fail(loaded.error);
    }
    var applied := ApplyEach(loaded.value, ts, g, context);
    r := if applied.Pass? then Pass else Fail(ApplyFailed(applied.error));
  }

  /** The static `Apply(Type context, provider)`. */
  method ApplyTypeFrom(p: Provider, rt: Runtime, ts: TypeSystem, g: ObjectGraph, context: Option<TypeName>) returns (r: Outcome<ManagerError>)
    modifies g
    ensures Load(p, rt).Failure? ==> r == Fail(Load(p, rt).error) && g.heap == old(g.heap)
    ensures Load(p, rt).Success? ==>
              var spec := ApplyAllToType(Load(p, rt).value, ts, old(g.heap), context, 0);
              g.heap == spec.0 && (r.Pass? <==> spec.1.Pass?) && (r.Fail? ==> r == Fail(ApplyFailed(spec.1.error)))
  {
    var loaded := Load(p, rt);
    if loaded.Failure? {
      return Fail(loaded.error);
    }
    var applied := ApplyEachToType(loaded.value, ts, g, context);
    r := if applied.Pass? then Pass else Fail(ApplyFailed(applied.error));
  }
}
