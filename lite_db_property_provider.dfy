/**
 * `LiteDbPropertyProvider`: maps the documents of a LiteDB collection to
 * entries, one per document, in the order the collection returns them. The
 * collection is the sequence of documents it holds; opening the database file
 * is not part of this model.
 */
module LiteDbPropertyProvider {
  import opened Wrappers
  import opened ValueCoercion
  import opened PropertyEntry

  /**
   * The .NET object a document's `PropertyValue` deserializes to: null, one of
   * the four value types the mapping recognises, or an object of some other type.
   */
  datatype Stored = StoredNull | Boxed(v: Value) | Other(typeName: string)

  /** The `Configuration` document; `Id` is the `ObjectId` LiteDB assigns on insert. */
  datatype Configuration = Configuration(id: nat, propertyName: string, propertyValue: Stored, isStatic: bool, isField: bool)

  /**
   * The entry for one document. The `switch` on the value recognises int,
   * float, bool and string; any other object leaves `PropertyType` and `Value`
   * at their null defaults.
   */
  function ToEntry(config: Configuration): (e: Entry)
    ensures e.property == config.propertyName && e.isStatic == config.isStatic && e.isField == config.isField
    ensures e.line.None?
    ensures e.PropertyType().Some? <==> config.propertyValue.Boxed?
    ensures config.propertyValue.Boxed? ==> e.value == Some(config.propertyValue.v)
  {
    var entry := Entry(config.propertyName, None, config.isField, config.isStatic, None);
    match config.propertyValue
    case Boxed(v) => entry.(value := Some(v))
    case _ => entry
  }

  /** The entries of a collection: one per document, in order. */
  function EntriesOf(docs: seq<Configuration>): (r: seq<Entry>)
    ensures |r| == |docs|
    ensures forall i :: 0 <= i < |docs| ==> r[i] == ToEntry(docs[i])
  {
    seq(|docs|, i requires 0 <= i < |docs| => ToEntry(docs[i]))
  }

  /** `GetPropertyEntries()` over the documents `FindAll` returns. */
  method GetPropertyEntries(configs: seq<Configuration>) returns (entries: seq<Entry>)
    ensures entries == EntriesOf(configs)
  {
    entries := [];
    for i := 0 to |configs|
      invariant |entries| == i
      invariant forall k :: 0 <= k < i ==> entries[k] == ToEntry(configs[k])
    {
      var config := configs[i];
      var entry := Entry(config.propertyName, None, config.isField, config.isStatic, None);
      match config.propertyValue {
        case Boxed(v) =>
          entry := entry.(value := Some(v));
        case StoredNull =>
        case Other(_) =>
      }
      entries := entries + [entry];
    }
  }
}
