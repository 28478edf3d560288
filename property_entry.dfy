/**
 * `PropertyEntry`: one configuration binding, and the path resolver that
 * applies it to an object or to a type context through reflection.
 *
 * The path is `Property` split at every '.'. Every segment but the last is
 * read-only: the current target is replaced by the value of the property (or,
 * failing that, the field) of that name. The last segment is written: a field
 * when `IsField` is set, a property otherwise. In static mode the first
 * segment (unless it is also the last) names a type to continue from.
 */
module PropertyEntry {
  import opened Wrappers
  import opened Strings
  import opened ValueCoercion
  import opened Reflection

  /** What `PropertyLine` adds to an entry read from an editable file. */
  datatype Line = Line(isCommentOrEmpty: bool, source: string)

  /**
   * A `PropertyEntry`: `value` holds the boxed `Value` together with its
   * `PropertyType` (None when both are null), and `line` is present exactly when
   * the entry is a `PropertyLine`.
   */
  datatype Entry = Entry(property: string, value: Option<Value>, isField: bool, isStatic: bool, line: Option<Line>)
  {
    /** `PropertyType`, None for null. */
    function PropertyType(): Option<Kind> {
      if value.Some? then Some(value.value.Kind()) else None
    }

    /** A passthrough (comment or blank) line of an editable file. */
    predicate IsPassthrough() {
      line.Some? && line.value.isCommentOrEmpty
    }
  }

  /** `new PropertyEntry()`: empty path, null type and value, no flags. */
  const DefaultEntry := Entry("", None, false, false, None)

  /** The exceptions applying an entry can raise. */
  datatype ApplyError =
    | NotStatic                    // ArgumentException: Apply(Type) on an entry not marked static
    | NullContext                  // ArgumentNullException: no context supplied
    | MissingElement(path: string) // ApplicationException: an intermediate segment is neither property nor field
    | Inaccessible(path: string)   // InvalidOperationException: the last segment is not a member of the required kind
    | TargetRejected               // TargetException: reflection given a null target, or one of another type
    | NullIntermediate             // NullReferenceException: an intermediate member holds null
    | ValueIntermediate            // an intermediate member holds a boxed value rather than an object

  /** Where the walk stands: the current `targetType` and `target` (None is null). */
  datatype Cursor = Cursor(targetType: TypeName, target: Option<Ref>)

  function ToVal(v: Option<Value>): Val {
    if v.Some? then Prim(v.value) else Null
  }

  /** The path segments, `Property.Split('.')`. */
  function Segments(e: Entry): (r: seq<string>)
    ensures |r| >= 1 && Join(r, '.') == e.property
  {
    SplitPieces(e.property, '.');
    Split(e.property, '.')
  }

  /** Continue from the value a member holds; it must be an object. */
  function Follow(ts: TypeSystem, heap: Heap, c: Cursor, key: SlotKey): Result<Cursor, ApplyError> {
    match GetValue(ts, heap, c.target, c.targetType, key)
    case None => Failure(TargetRejected)
    case Some(Null) => Failure(NullIntermediate)
    case Some(Prim(_)) => Failure(ValueIntermediate)
    case Some(Ref(r)) => if r in heap then Success(Cursor(heap[r].typ, Some(r))) else Failure(NullIntermediate)
  }

  /**
   * One read-only hop: a property declared on the current type first (the
   * lookup carries `DeclaredOnly`), then a field, declared or inherited.
   */
  function Traverse(e: Entry, ts: TypeSystem, heap: Heap, c: Cursor, name: string): Result<Cursor, ApplyError> {
    var members := ts.members(c.targetType);
    if Finds(members, name, Property, true) then Follow(ts, heap, c, SlotKey(Property, name))
    else if Finds(members, name, Field, false) then Follow(ts, heap, c, SlotKey(Field, name))
    else Failure(MissingElement(e.property))
  }

  /** The step taken at segment `i`, when `i` is not the last segment. */
  function Advance(e: Entry, ts: TypeSystem, heap: Heap, elements: seq<string>, i: nat, c: Cursor): Result<Cursor, ApplyError>
    requires i < |elements|
  {
    if e.isStatic && i == 0 then
      match ts.resolveType(c.targetType, elements[0])
      case Some(t) => Success(c.(targetType := t))
      case None => Success(c)
    else Traverse(e, ts, heap, c, elements[i])
  }

  /** The write at the last segment; static entries pass a null target. */
  function Assign(e: Entry, ts: TypeSystem, heap: Heap, c: Cursor, name: string): (r: Result<Heap, ApplyError>)
    ensures r.Success? ==> r.value.Keys == heap.Keys
  {
    var kind := if e.isField then Field else Property;
    if !Finds(ts.members(c.targetType), name, kind, false) then Failure(Inaccessible(e.property))
    else
      match SetValue(ts, heap, if e.isStatic then None else c.target, c.targetType, SlotKey(kind, name), ToVal(e.value))
      case None => Failure(TargetRejected)
      case Some(h) => Success(h)
  }

  /** `ApplyValue` from segment `i` on: the heap after the final write, or the exception. */
  function Walk(e: Entry, ts: TypeSystem, heap: Heap, elements: seq<string>, i: nat, c: Cursor): (r: Result<Heap, ApplyError>)
    requires i < |elements|
    ensures r.Success? ==> r.value.Keys == heap.Keys
    decreases |elements| - i
  {
    if i < |elements| - 1 then
      match Advance(e, ts, heap, elements, i, c)
      case Failure(err) => Failure(err)
      case Success(next) => Walk(e, ts, heap, elements, i + 1, next)
    else Assign(e, ts, heap, c, elements[i])
  }

  /** `Apply(Type context)`: the mode check comes before the null check. */
  function ApplyToType(e: Entry, ts: TypeSystem, heap: Heap, context: Option<TypeName>): (r: Result<Heap, ApplyError>)
    ensures !e.isStatic ==> r == Failure(NotStatic)
    ensures e.isStatic && context.None? ==> r == Failure(NullContext)
    ensures r.Success? ==> r.value.Keys == heap.Keys
  {
    if !e.isStatic then Failure(NotStatic)
    else if context.None? then Failure(NullContext)
    else Walk(e, ts, heap, Segments(e), 0, Cursor(context.value, None))
  }

  /** `Apply(object context)`: starts from `context.GetType()`; there is no check of `IsStatic`. */
  function ApplyToObject(e: Entry, ts: TypeSystem, heap: Heap, context: Option<Ref>): (r: Result<Heap, ApplyError>)
    requires context.Some? ==> context.value in heap
    ensures context.None? ==> r == Failure(NullContext)
    ensures r.Success? ==> r.value.Keys == heap.Keys
  {
    if context.None? then Failure(NullContext)
    else Walk(e, ts, heap, Segments(e), 0, Cursor(heap[context.value].typ, context))
  }

  /** A method's outcome and new heap agree with a specification result. */
  predicate Realizes(spec: Result<Heap, ApplyError>, r: Outcome<ApplyError>, before: Heap, after: Heap) {
    match spec
    case Success(h) => r == Pass && after == h
    case Failure(err) => r == Fail(err) && after == before
  }

  // ---------------------------------------------------------------------
  // The imperative resolver
  // ---------------------------------------------------------------------

  /** `ApplyValue(elements, targetType, target)`: walk the segments, then write. */
  method ApplyValue(e: Entry, ts: TypeSystem, g: ObjectGraph, elements: seq<string>, startType: TypeName, start: Option<Ref>)
    returns (r: Outcome<ApplyError>)
    requires |elements| >= 1
    modifies g
    ensures Realizes(Walk(e, ts, old(g.heap), elements, 0, Cursor(startType, start)), r, old(g.heap), g.heap)
  {
    var targetType, target := startType, start;
    var i := 0;
    while i < |elements| - 1
      invariant 0 <= i <= |elements| - 1
      invariant g.heap == old(g.heap)
      invariant Walk(e, ts, g.heap, elements, 0, Cursor(startType, start))
             == Walk(e, ts, g.heap, elements, i, Cursor(targetType, target))
    {
      if e.isStatic && i == 0 {
        var staticType := ts.resolveType(targetType, elements[0]);
        if staticType.Some? {
          targetType := staticType.value;
        }
      } else {
        var members := ts.members(targetType);
        var key;
        if Finds(members, elements[i], Property, true) {
          key := SlotKey(Property, elements[i]);
        } else if Finds(members, elements[i], Field, false) {
          key := SlotKey(Field, elements[i]);
        } else {
          return Fail(MissingElement(e.property));
        }
        var read := GetValue(ts, g.heap, target, targetType, key);
        if read.None? {
          return Fail(TargetRejected);
        }
        match read.value {
          case Null =>
            return Fail(NullIntermediate);
          case Prim(_) =>
            return Fail(ValueIntermediate);
          case Ref(next) =>
            if next !in g.heap {
              return Fail(NullIntermediate);
            }
            target := Some(next);
            targetType := g.heap[next].typ;
        }
      }
      i := i + 1;
    }
    var name := elements[i];
    var kind := if e.isField then Field else Property;
    if !Finds(ts.members(targetType), name, kind, false) {
      return Fail(Inaccessible(e.property));
    }
    var written := SetValue(ts, g.heap, if e.isStatic then None else target, targetType, SlotKey(kind, name), ToVal(e.value));
    if written.None? {
      return Fail(TargetRejected);
    }
    g.heap := written.value;
    r := Pass;
  }

  /** `Apply(Type context)`. */
  method ApplyType(e: Entry, ts: TypeSystem, g: ObjectGraph, context: Option<TypeName>) returns (r: Outcome<ApplyError>)
    modifies g
    ensures Realizes(ApplyToType(e, ts, old(g.heap), context), r, old(g.heap), g.heap)
  {
    if !e.isStatic {
      return Fail(NotStatic);
    }
    if context.None? {
      return Fail(NullContext);
    }
    r := ApplyValue(e, ts, g, Split(e.property, '.'), context.value, None);
  }

  /** `Apply(object context)`. */
  method ApplyObject(e: Entry, ts: TypeSystem, g: ObjectGraph, context: Option<Ref>) returns (r: Outcome<ApplyError>)
    requires context.Some? ==> context.value in g.heap
    modifies g
    ensures Realizes(ApplyToObject(e, ts, old(g.heap), context), r, old(g.heap), g.heap)
  {
    if context.None? {
      return Fail(NullContext);
    }
    r := ApplyValue(e, ts, g, Split(e.property, '.'), g.heap[context.value].typ, context);
  }

  // ---------------------------------------------------------------------
  // Properties of the resolver
  // ---------------------------------------------------------------------

  /** `h` is `heap` with one slot of one object overwritten by `v`. */
  ghost predicate WritesOneSlot(heap: Heap, h: Heap, key: SlotKey, v: Val) {
    exists p :: p in heap && h == heap[p := heap[p].(slots := heap[p].slots[key := v])]
  }

  /**
   * Only the last segment is written: a successful walk changes exactly one
   * slot of one object, the member named by the last segment, of the kind
   * `IsField` selects, and stores the entry's value there.
   */
  lemma {:induction false} OnlyLastSegmentWritten(e: Entry, ts: TypeSystem, heap: Heap, elements: seq<string>, i: nat, c: Cursor)
    requires i < |elements|
    requires Walk(e, ts, heap, elements, i, c).Success?
    ensures WritesOneSlot(heap, Walk(e, ts, heap, elements, i, c).value,
                          SlotKey(if e.isField then Field else Property, elements[|elements| - 1]), ToVal(e.value))
    decreases |elements| - i
  {
    if i < |elements| - 1 {
      var next := Advance(e, ts, heap, elements, i, c);
      OnlyLastSegmentWritten(e, ts, heap, elements, i + 1, next.value);
    } else {
      var kind := if e.isField then Field else Property;
      var target := if e.isStatic then None else c.target;
      var p := target.value;
      assert Walk(e, ts, heap, elements, i, c).value == heap[p := heap[p].(slots := heap[p].slots[SlotKey(kind, elements[i]) := ToVal(e.value)])];
    }
  }

  /**
   * Static entries never take effect: no lookup includes static members, so the
   * member found at the last segment is an instance member, and static entries
   * write to it with a null target, which reflection rejects.
   */
  lemma {:induction false} StaticWalkFails(e: Entry, ts: TypeSystem, heap: Heap, elements: seq<string>, i: nat, c: Cursor)
    requires e.isStatic && i < |elements|
    ensures Walk(e, ts, heap, elements, i, c).Failure?
    decreases |elements| - i
  {
    if i < |elements| - 1 {
      var next := Advance(e, ts, heap, elements, i, c);
      if next.Success? {
        StaticWalkFails(e, ts, heap, elements, i + 1, next.value);
      }
    }
  }

  /** Hence `Apply(Type)` never succeeds: non-static entries are refused, static ones fail in the walk. */
  lemma ApplyToTypeNeverSucceeds(e: Entry, ts: TypeSystem, heap: Heap, context: Option<TypeName>)
    ensures ApplyToType(e, ts, heap, context).Failure?
  {
    if e.isStatic && context.Some? {
      StaticWalkFails(e, ts, heap, Segments(e), 0, Cursor(context.value, None));
    }
  }

  /** `Apply(object)` does not check `IsStatic`, but a static entry still never succeeds through it. */
  lemma ApplyToObjectStaticFails(e: Entry, ts: TypeSystem, heap: Heap, context: Option<Ref>)
    requires context.Some? ==> context.value in heap
    requires e.isStatic
    ensures ApplyToObject(e, ts, heap, context).Failure?
  {
    if context.Some? {
      StaticWalkFails(e, ts, heap, Segments(e), 0, Cursor(heap[context.value].typ, context));
    }
  }

  /** The two path errors name the entry's full `Property`, not the segment that failed. */
  lemma {:induction false} PathErrorsNameFullPath(e: Entry, ts: TypeSystem, heap: Heap, elements: seq<string>, i: nat, c: Cursor)
    requires i < |elements|
    ensures Walk(e, ts, heap, elements, i, c).Failure? ==>
              match Walk(e, ts, heap, elements, i, c).error
              case MissingElement(p) => p == e.property
              case Inaccessible(p) => p == e.property
              case _ => true
    decreases |elements| - i
  {
    if i < |elements| - 1 {
      var next := Advance(e, ts, heap, elements, i, c);
      if next.Success? {
        PathErrorsNameFullPath(e, ts, heap, elements, i + 1, next.value);
      }
    }
  }

  /** A path without a '.' skips type resolution and goes straight to the write on the starting type. */
  lemma SingleSegmentWritesDirectly(e: Entry, ts: TypeSystem, heap: Heap, context: Ref)
    requires context in heap && '.' !in e.property
    ensures ApplyToObject(e, ts, heap, Some(context))
         == Assign(e, ts, heap, Cursor(heap[context].typ, Some(context)), e.property)
  {
    SplitWithoutSeparator(e.property, '.');
  }

  /**
   * In static mode the first segment is only ever tried as a type name: when it
   * does not resolve, the walk continues from segment 1 on the same type, without
   * looking the segment up as a member.
   */
  lemma StaticFirstSegmentIsTypeName(e: Entry, ts: TypeSystem, heap: Heap, elements: seq<string>, c: Cursor)
    requires e.isStatic && |elements| >= 2
    ensures ts.resolveType(c.targetType, elements[0]).None? ==>
              Walk(e, ts, heap, elements, 0, c) == Walk(e, ts, heap, elements, 1, c)
    ensures ts.resolveType(c.targetType, elements[0]).Some? ==>
              Walk(e, ts, heap, elements, 0, c)
              == Walk(e, ts, heap, elements, 1, c.(targetType := ts.resolveType(c.targetType, elements[0]).value))
  {
  }

  /** At an intermediate segment a declared property wins over a field of the same name. */
  lemma PropertyBeforeField(e: Entry, ts: TypeSystem, heap: Heap, c: Cursor, name: string)
    requires Finds(ts.members(c.targetType), name, Property, true)
    ensures Traverse(e, ts, heap, c, name) == Follow(ts, heap, c, SlotKey(Property, name))
  {
  }

  /**
   * `DeclaredOnly` applies to the intermediate property lookup alone: when every
   * instance member of that name is an inherited property, the segment cannot be
   * walked through, although the same property can be written as the last segment.
   */
  lemma InheritedPropertyOnlyAtLastSegment(e: Entry, ts: TypeSystem, heap: Heap, c: Cursor, name: string, j: nat)
    requires j < |ts.members(c.targetType)| && ts.members(c.targetType)[j] == Member(name, Property, false, false)
    requires forall i :: 0 <= i < |ts.members(c.targetType)| && ts.members(c.targetType)[i].name == name ==>
               ts.members(c.targetType)[i].isStatic
               || (ts.members(c.targetType)[i].kind == Property && !ts.members(c.targetType)[i].declaredHere)
    requires !e.isField
    ensures Traverse(e, ts, heap, c, name) == Failure(MissingElement(e.property))
    ensures Finds(ts.members(c.targetType), name, Property, false)
    ensures Assign(e, ts, heap, c, name) != Failure(Inaccessible(e.property))
  {
    assert Matches(ts.members(c.targetType)[j], name, Property, false);
  }

  /** No lookup sees static members: a name held only by static members is neither walked through nor written. */
  lemma StaticMembersInvisible(e: Entry, ts: TypeSystem, heap: Heap, c: Cursor, name: string)
    requires forall i :: 0 <= i < |ts.members(c.targetType)| && ts.members(c.targetType)[i].name == name ==>
               ts.members(c.targetType)[i].isStatic
    ensures Traverse(e, ts, heap, c, name) == Failure(MissingElement(e.property))
    ensures Assign(e, ts, heap, c, name) == Failure(Inaccessible(e.property))
  {
  }

  /**
   * An entry with an empty `Property`, such as a passthrough line, fails to apply
   * whenever the context type has no member named "".
   */
  lemma EmptyPathNeverApplies(e: Entry, ts: TypeSystem, heap: Heap, context: Ref)
    requires context in heap && e.property == ""
    requires forall i :: 0 <= i < |ts.members(heap[context].typ)| ==> ts.members(heap[context].typ)[i].name != ""
    ensures ApplyToObject(e, ts, heap, Some(context)) == Failure(Inaccessible(""))
  {
    SingleSegmentWritesDirectly(e, ts, heap, context);
  }
}
