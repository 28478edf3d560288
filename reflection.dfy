/**
 * An abstract stand-in for .NET reflection over a live object graph.
 *
 * Every runtime type has a member table listing what `Type.GetProperty` and
 * `Type.GetField` can see from that type: each member's name, whether it is
 * a property or a field, whether it is static, and whether it is declared on
 * the type itself or inherited. Objects live in a heap and store the value of
 * each of their members in a slot. `Type.GetType` applied to the
 * namespace-qualified name of a path segment is an uninterpreted partial
 * function of the context type and the segment, and whether one type derives
 * from another (directly or through intermediate base types) is a relation
 * given with the member tables.
 */
module Reflection {
  import opened Wrappers
  import opened ValueCoercion

  type TypeName = string

  /** An object's address in the heap. */
  type Ref = nat

  datatype MemberKind = Property | Field

  /** One row of a type's member table. */
  datatype Member = Member(name: string, kind: MemberKind, isStatic: bool, declaredHere: bool)

  datatype TypeSystem = TypeSystem(
    members: TypeName -> seq<Member>,
    /** `Type.GetType($"{context.Namespace}.{segment}, {context.Assembly.GetName().Name}")`. */
    resolveType: (TypeName, string) -> Option<TypeName>,
    /** `derivesFrom(t, u)`: `t` is a subclass of `u`. */
    derivesFrom: (TypeName, TypeName) -> bool)

  /** An instance of `t` is an instance of `u`: `u.IsAssignableFrom(t)` for classes. */
  predicate IsInstanceOf(ts: TypeSystem, t: TypeName, u: TypeName) {
    t == u || ts.derivesFrom(t, u)
  }

  /** What a member slot holds: a null reference, an object, or a boxed entry value. */
  datatype Val = Null | Ref(r: Ref) | Prim(v: Value)

  datatype SlotKey = SlotKey(kind: MemberKind, name: string)

  datatype Obj = Obj(typ: TypeName, slots: map<SlotKey, Val>)

  type Heap = map<Ref, Obj>

  /** The live objects the configuration is applied to; reflection writes update it in place. */
  class ObjectGraph {
    var heap: Heap

    constructor (heap: Heap)
      ensures this.heap == heap
    {
      this.heap := heap;
    }
  }

  /**
   * Whether a member matches a lookup with `BindingFlags.Public | NonPublic | Instance`,
   * with `DeclaredOnly` added when `declaredOnly` holds. `Static` is never among the flags.
   */
  predicate Matches(m: Member, name: string, kind: MemberKind, declaredOnly: bool) {
    m.name == name && m.kind == kind && !m.isStatic && (declaredOnly ==> m.declaredHere)
  }

  /** `GetProperty`/`GetField` returned a member rather than null. */
  predicate Finds(members: seq<Member>, name: string, kind: MemberKind, declaredOnly: bool) {
    exists i :: 0 <= i < |members| && Matches(members[i], name, kind, declaredOnly)
  }

  /**
   * A member looked up on `targetType` may be read or written through `target`:
   * a live object whose type is `targetType` or derives from it.
   */
  predicate AcceptsTarget(ts: TypeSystem, heap: Heap, target: Option<Ref>, targetType: TypeName) {
    target.Some? && target.value in heap && IsInstanceOf(ts, heap[target.value].typ, targetType)
  }

  /**
   * `PropertyInfo.GetValue(target)` / `FieldInfo.GetValue(target)` for an instance
   * member of `targetType`; None is the `TargetException` raised for a null target
   * or one that is not an instance of `targetType`. A slot never written holds null.
   */
  function GetValue(ts: TypeSystem, heap: Heap, target: Option<Ref>, targetType: TypeName, key: SlotKey): (r: Option<Val>)
    ensures r.Some? <==> AcceptsTarget(ts, heap, target, targetType)
  {
    if AcceptsTarget(ts, heap, target, targetType) then
      var slots := heap[target.value].slots;
      Some(if key in slots then slots[key] else Null)
    else None
  }

  /** `PropertyInfo.SetValue(target, v)` / `FieldInfo.SetValue(target, v)`; None as for `GetValue`. */
  function SetValue(ts: TypeSystem, heap: Heap, target: Option<Ref>, targetType: TypeName, key: SlotKey, v: Val): (r: Option<Heap>)
    ensures r.Some? <==> AcceptsTarget(ts, heap, target, targetType)
    ensures r.Some? ==> r.value.Keys == heap.Keys
    ensures r.Some? ==> GetValue(ts, r.value, target, targetType, key) == Some(v)
    ensures r.Some? ==> forall p :: p in heap && p != target.value ==> r.value[p] == heap[p]
    ensures r.Some? ==> forall k :: k != key && k in heap[target.value].slots ==>
                          k in r.value[target.value].slots && r.value[target.value].slots[k] == heap[target.value].slots[k]
  {
    if AcceptsTarget(ts, heap, target, targetType) then
      var o := heap[target.value];
      Some(heap[target.value := o.(slots := o.slots[key := v])])
    else None
  }
}
