/**
 * `LiteDbEditablePropertyProvider`: reads entries like `LiteDbPropertyProvider`
 * and saves them back by upserting each entry by name, in order: no document
 * with the name inserts a new one, exactly one is updated in place, and more
 * than one is an error. A failure stops the loop; the writes of the earlier
 * entries stay in the collection.
 *
 * Whether LiteDB acknowledges a write, and whether a query comes back null, is
 * not visible from this code; `StoreOutcomes` supplies those answers for each
 * position of the entry list.
 */
module LiteDbEditablePropertyProvider {
  import opened Wrappers
  import opened ValueCoercion
  import opened PropertyEntry
  import opened LiteDbPropertyProvider

  /** The `InvalidOperationException`s `Save` throws. */
  datatype StoreError =
    | FindFailed    // the query for the name returned null
    | NotDistinct   // more than one document has the name
    | UpdateFailed  // `Update` did not report exactly one updated document
    | InsertFailed  // `Insert` did not return an ObjectId

  /** The store's answers for the entry at each position of the saved list. */
  datatype StoreOutcomes = StoreOutcomes(findNull: nat -> bool, acknowledged: nat -> bool)

  /**
   * What the BSON mapper stores for an entry's value: a `float` is widened to a
   * `double`, which deserializes as a `double` and so matches no case of the
   * reading `switch`; the other three kinds and null come back as they went in.
   */
  function Serialize(value: Option<Value>): (r: Stored)
    ensures r.StoredNull? <==> value.None?
    ensures r.Boxed? <==> value.Some? && !value.value.FloatValue?
    ensures r.Boxed? ==> value == Some(r.v)
  {
    match value
    case None => StoredNull
    case Some(FloatValue(_)) => Other("System.Double")
    case Some(v) => Boxed(v)
  }

  /** What reading a stored value back gives: the value itself, except that a float comes back null. */
  lemma SerializeReadsBack(config: Configuration, value: Option<Value>)
    requires config.propertyValue == Serialize(value)
    ensures value.Some? && value.value.FloatValue? ==> ToEntry(config).value.None?
    ensures !(value.Some? && value.value.FloatValue?) ==> ToEntry(config).value == value
  {
  }

  /** The positions of the documents named `name`, in collection order: what `col.Find` returns. */
  function Matching(docs: seq<Configuration>, name: string): (r: seq<nat>)
    ensures forall k :: 0 <= k < |r| ==> r[k] < |docs| && docs[r[k]].propertyName == name
    ensures forall j :: 0 <= j < |docs| && docs[j].propertyName == name ==> j in r
    ensures forall k, l :: 0 <= k < l < |r| ==> r[k] < r[l]
  {
    if docs == [] then []
    else
      var init := docs[..|docs| - 1];
      assert forall j :: 0 <= j < |init| ==> init[j] == docs[j];
      Matching(init, name) + (if docs[|docs| - 1].propertyName == name then [|docs| - 1] else [])
  }

  /** An id no document holds: the `ObjectId` a new document receives. */
  function FreshId(docs: seq<Configuration>): (r: nat)
    ensures forall j :: 0 <= j < |docs| ==> docs[j].id < r
  {
    if docs == [] then 0
    else
      var init := docs[..|docs| - 1];
      assert forall j :: 0 <= j < |init| ==> init[j] == docs[j];
      var m := FreshId(init);
      if docs[|docs| - 1].id < m then m else docs[|docs| - 1].id + 1
  }

  /** The document an entry is inserted as. */
  function NewDocument(docs: seq<Configuration>, e: Entry): Configuration {
    Configuration(FreshId(docs), e.property, Serialize(e.value), e.isStatic, e.isField)
  }

  /** The single matching document with the entry's flags and value written over it. */
  function UpdatedDocument(d: Configuration, e: Entry): Configuration {
    d.(isField := e.isField, isStatic := e.isStatic, propertyValue := Serialize(e.value))
  }

  /** One iteration of the `Save` loop: the collection afterwards, and whether it threw. */
  function Upsert(docs: seq<Configuration>, e: Entry, findNull: bool, acknowledged: bool): (r: (seq<Configuration>, Outcome<StoreError>))
    ensures r.1.Fail? ==> r.0 == docs
    ensures |docs| <= |r.0| <= |docs| + 1
    ensures r.1 == Fail(FindFailed) <==> findNull
    ensures r.1 == Fail(NotDistinct) <==> !findNull && |Matching(docs, e.property)| > 1
    ensures r.1.Pass? <==> !findNull && |Matching(docs, e.property)| <= 1 && acknowledged
  {
    if findNull then (docs, Fail(FindFailed))
    else
      var found := Matching(docs, e.property);
      if |found| == 1 then
        if acknowledged then (docs[found[0] := UpdatedDocument(docs[found[0]], e)], Pass)
        else (docs, Fail(UpdateFailed))
      else if |found| == 0 then
        if acknowledged then (docs + [NewDocument(docs, e)], Pass)
        else (docs, Fail(InsertFailed))
      else (docs, Fail(NotDistinct))
  }

  /** The `Save` loop from position `i` on. */
  function SaveFrom(docs: seq<Configuration>, entries: seq<Entry>, o: StoreOutcomes, i: nat): (r: (seq<Configuration>, Outcome<StoreError>))
    requires i <= |entries|
    ensures |docs| <= |r.0| <= |docs| + (|entries| - i)
    decreases |entries| - i
  {
    if i == |entries| then (docs, Pass)
    else
      var step := Upsert(docs, entries[i], o.findNull(i), o.acknowledged(i));
      if step.1.Fail? then step else SaveFrom(step.0, entries, o, i + 1)
  }

  /** `Save(lines)`: the collection after saving every entry, and whether it threw. */
  function SaveAll(docs: seq<Configuration>, entries: seq<Entry>, o: StoreOutcomes): (r: (seq<Configuration>, Outcome<StoreError>))
    ensures |docs| <= |r.0| <= |docs| + |entries|
    ensures entries == [] ==> r == (docs, Pass)
  {
    SaveFrom(docs, entries, o, 0)
  }

  // ---------------------------------------------------------------------
  // Properties of one upsert
  // ---------------------------------------------------------------------

  /** The entry's name is held by exactly one document, and that document carries the entry's flags and value. */
  predicate Holds(docs: seq<Configuration>, e: Entry) {
    var m := Matching(docs, e.property);
    |m| == 1 && docs[m[0]].propertyValue == Serialize(e.value)
    && docs[m[0]].isStatic == e.isStatic && docs[m[0]].isField == e.isField
  }

  /** No two documents share a name. */
  predicate DistinctNames(docs: seq<Configuration>) {
    forall j, k :: 0 <= j < k < |docs| ==> docs[j].propertyName != docs[k].propertyName
  }

  lemma MatchingAppend(docs: seq<Configuration>, x: Configuration, name: string)
    ensures Matching(docs + [x], name) == Matching(docs, name) + (if x.propertyName == name then [|docs|] else [])
  {
    assert (docs + [x])[..|docs|] == docs;
  }

  /** Matching looks only at the names. */
  lemma {:induction false} MatchingSameNames(a: seq<Configuration>, b: seq<Configuration>, name: string)
    requires |a| == |b| && forall j :: 0 <= j < |a| ==> a[j].propertyName == b[j].propertyName
    ensures Matching(a, name) == Matching(b, name)
    decreases |a|
  {
    if a != [] {
      var n := |a| - 1;
      MatchingSameNames(a[..n], b[..n], name);
    }
  }

  /** Documents are never deleted, ids and names never change, and a document of another name is left alone. */
  lemma UpsertKeepsDocuments(docs: seq<Configuration>, e: Entry, findNull: bool, acknowledged: bool)
    ensures var r := Upsert(docs, e, findNull, acknowledged).0;
            |docs| <= |r|
            && forall j :: 0 <= j < |docs| ==>
                 r[j].id == docs[j].id && r[j].propertyName == docs[j].propertyName
                 && (docs[j].propertyName != e.property ==> r[j] == docs[j])
  {
  }

  /** Updating the single document of the name in place leaves the entry held. */
  lemma UpdateStores(docs: seq<Configuration>, j: nat, e: Entry)
    requires j < |docs| && Matching(docs, e.property) == [j]
    ensures Holds(docs[j := UpdatedDocument(docs[j], e)], e)
  {
    MatchingSameNames(docs, docs[j := UpdatedDocument(docs[j], e)], e.property);
  }

  /** Inserting into a collection without the name leaves the entry held. */
  lemma InsertStores(docs: seq<Configuration>, e: Entry)
    requires Matching(docs, e.property) == []
    ensures Holds(docs + [NewDocument(docs, e)], e)
  {
    MatchingAppend(docs, NewDocument(docs, e), e.property);
  }

  /**
   * A successful upsert leaves the entry held: by the single document it
   * updated in place, or by one new document under an id no other document has.
   */
  lemma UpsertStores(docs: seq<Configuration>, e: Entry, findNull: bool, acknowledged: bool)
    requires Upsert(docs, e, findNull, acknowledged).1.Pass?
    ensures var r := Upsert(docs, e, findNull, acknowledged).0;
            Holds(r, e)
            && (|Matching(docs, e.property)| == 1 ==> |r| == |docs|)
            && (|Matching(docs, e.property)| == 0 ==>
                  |r| == |docs| + 1 && forall j :: 0 <= j < |docs| ==> r[|docs|].id != docs[j].id)
  {
    var found := Matching(docs, e.property);
    if |found| == 1 {
      assert found == [found[0]];
      UpdateStores(docs, found[0], e);
    } else {
      InsertStores(docs, e);
    }
  }

  /** Updating a document of another name leaves an entry held. */
  lemma UpdateKeepsHolds(docs: seq<Configuration>, j: nat, e: Entry, other: Entry)
    requires Holds(docs, e) && j < |docs| && docs[j].propertyName == other.property && other.property != e.property
    ensures Holds(docs[j := UpdatedDocument(docs[j], other)], e)
  {
    MatchingSameNames(docs, docs[j := UpdatedDocument(docs[j], other)], e.property);
  }

  /** Inserting a document of another name leaves an entry held. */
  lemma InsertKeepsHolds(docs: seq<Configuration>, e: Entry, other: Entry)
    requires Holds(docs, e) && other.property != e.property
    ensures Holds(docs + [NewDocument(docs, other)], e)
  {
    var x := NewDocument(docs, other);
    MatchingAppend(docs, x, e.property);
    var m := Matching(docs, e.property);
    assert (docs + [x])[m[0]] == docs[m[0]];
  }

  /** An upsert of another name leaves an entry held. */
  lemma UpsertKeepsHolds(docs: seq<Configuration>, e: Entry, other: Entry, findNull: bool, acknowledged: bool)
    requires Holds(docs, e) && other.property != e.property
    ensures Holds(Upsert(docs, other, findNull, acknowledged).0, e)
  {
    var found := Matching(docs, other.property);
    if !findNull && acknowledged {
      if |found| == 1 {
        UpdateKeepsHolds(docs, found[0], e, other);
      } else if |found| == 0 {
        InsertKeepsHolds(docs, e, other);
      }
    }
  }

  /** No document has the name: nothing matches. */
  lemma {:induction false} NoMatch(docs: seq<Configuration>, name: string)
    requires forall j :: 0 <= j < |docs| ==> docs[j].propertyName != name
    ensures Matching(docs, name) == []
    decreases |docs|
  {
    if docs != [] {
      var init := docs[..|docs| - 1];
      assert forall j :: 0 <= j < |init| ==> init[j] == docs[j];
      NoMatch(init, name);
    }
  }

  /** With distinct names a name is held by at most one document. */
  lemma {:induction false} AtMostOneMatch(docs: seq<Configuration>, name: string)
    requires DistinctNames(docs)
    ensures |Matching(docs, name)| <= 1
    decreases |docs|
  {
    if docs != [] {
      var n := |docs| - 1;
      var init := docs[..n];
      assert forall j :: 0 <= j < n ==> init[j] == docs[j];
      AtMostOneMatch(init, name);
      if docs[n].propertyName == name {
        assert forall j :: 0 <= j < n ==> docs[j].propertyName != docs[n].propertyName;
        NoMatch(init, name);
      }
    }
  }

  /** Appending a document whose name no other document has keeps names distinct. */
  lemma AppendKeepsDistinctNames(docs: seq<Configuration>, x: Configuration)
    requires DistinctNames(docs) && Matching(docs, x.propertyName) == []
    ensures DistinctNames(docs + [x])
  {
    assert forall j :: 0 <= j < |docs| ==> docs[j].propertyName != x.propertyName;
    assert forall j :: 0 <= j < |docs| ==> (docs + [x])[j] == docs[j];
  }

  /** With distinct names, an upsert keeps names distinct and never finds the name twice. */
  lemma UpsertKeepsDistinctNames(docs: seq<Configuration>, e: Entry, findNull: bool, acknowledged: bool)
    requires DistinctNames(docs)
    ensures DistinctNames(Upsert(docs, e, findNull, acknowledged).0)
    ensures Upsert(docs, e, findNull, acknowledged).1 != Fail(NotDistinct)
  {
    AtMostOneMatch(docs, e.property);
    if !findNull && acknowledged && |Matching(docs, e.property)| == 0 {
      AppendKeepsDistinctNames(docs, NewDocument(docs, e));
    }
  }

  // ---------------------------------------------------------------------
  // Properties of the whole save
  // ---------------------------------------------------------------------

  /** No entry after position `k` has the name of the entry at `k`. */
  predicate LastOfName(entries: seq<Entry>, k: nat)
    requires k < |entries|
  {
    forall l :: k < l < |entries| ==> entries[l].property != entries[k].property
  }

  /**
   * Saving never deletes a document nor changes its id or name, and a document
   * whose name no saved entry has is left exactly as it was, however the save ends.
   */
  lemma {:induction false} SaveKeepsDocuments(docs: seq<Configuration>, entries: seq<Entry>, o: StoreOutcomes, i: nat)
    requires i <= |entries|
    ensures var r := SaveFrom(docs, entries, o, i).0;
            |docs| <= |r|
            && forall j :: 0 <= j < |docs| ==>
                 r[j].id == docs[j].id && r[j].propertyName == docs[j].propertyName
                 && ((forall k :: i <= k < |entries| ==> entries[k].property != docs[j].propertyName) ==> r[j] == docs[j])
    decreases |entries| - i
  {
    if i < |entries| {
      var step := Upsert(docs, entries[i], o.findNull(i), o.acknowledged(i));
      UpsertKeepsDocuments(docs, entries[i], o.findNull(i), o.acknowledged(i));
      if step.1.Pass? {
        SaveKeepsDocuments(step.0, entries, o, i + 1);
      }
    }
  }

  /** Saving keeps the names of a collection distinct, so it never meets a name held twice. */
  lemma {:induction false} SaveKeepsDistinctNames(docs: seq<Configuration>, entries: seq<Entry>, o: StoreOutcomes, i: nat)
    requires i <= |entries| && DistinctNames(docs)
    ensures DistinctNames(SaveFrom(docs, entries, o, i).0)
    ensures SaveFrom(docs, entries, o, i).1 != Fail(NotDistinct)
    decreases |entries| - i
  {
    if i < |entries| {
      var step := Upsert(docs, entries[i], o.findNull(i), o.acknowledged(i));
      UpsertKeepsDistinctNames(docs, entries[i], o.findNull(i), o.acknowledged(i));
      if step.1.Pass? {
        SaveKeepsDistinctNames(step.0, entries, o, i + 1);
      }
    }
  }

  /** An entry stays held while only other names are saved. */
  lemma {:induction false} SaveKeepsHolds(docs: seq<Configuration>, e: Entry, entries: seq<Entry>, o: StoreOutcomes, i: nat)
    requires i <= |entries| && Holds(docs, e)
    requires forall k :: i <= k < |entries| ==> entries[k].property != e.property
    ensures Holds(SaveFrom(docs, entries, o, i).0, e)
    decreases |entries| - i
  {
    if i < |entries| {
      var step := Upsert(docs, entries[i], o.findNull(i), o.acknowledged(i));
      UpsertKeepsHolds(docs, e, entries[i], o.findNull(i), o.acknowledged(i));
      if step.1.Pass? {
        SaveKeepsHolds(step.0, e, entries, o, i + 1);
      }
    }
  }

  /**
   * After a successful save, every name saved is held by exactly one document,
   * carrying the flags and value of the last entry of that name: later writes win.
   */
  lemma {:induction false} SaveLastWriteWins(docs: seq<Configuration>, entries: seq<Entry>, o: StoreOutcomes, i: nat)
    requires i <= |entries|
    ensures SaveFrom(docs, entries, o, i).1.Pass? ==>
              forall k :: i <= k < |entries| && LastOfName(entries, k) ==> Holds(SaveFrom(docs, entries, o, i).0, entries[k])
    decreases |entries| - i
  {
    if i < |entries| {
      var step := Upsert(docs, entries[i], o.findNull(i), o.acknowledged(i));
      if step.1.Pass? {
        SaveLastWriteWins(step.0, entries, o, i + 1);
        if LastOfName(entries, i) {
          UpsertStores(docs, entries[i], o.findNull(i), o.acknowledged(i));
          SaveKeepsHolds(step.0, entries[i], entries, o, i + 1);
        }
      }
    }
  }

  /**
   * A failed save is not rolled back: the collection is what saving the entries
   * before the failing one left, and the failing entry's upsert raised the error
   * without writing anything.
   */
  lemma {:induction false} SaveFailureKeepsEarlierWrites(docs: seq<Configuration>, entries: seq<Entry>, o: StoreOutcomes, i: nat)
    requires i <= |entries|
    ensures var r := SaveFrom(docs, entries, o, i);
            r.1.Fail? ==>
              exists k :: i <= k < |entries| && SaveFrom(docs, entries[..k], o, i) == (r.0, Pass)
                          && Upsert(r.0, entries[k], o.findNull(k), o.acknowledged(k)) == r
    decreases |entries| - i
  {
    if i < |entries| {
      var r := SaveFrom(docs, entries, o, i);
      var step := Upsert(docs, entries[i], o.findNull(i), o.acknowledged(i));
      if step.1.Fail? {
        assert SaveFrom(docs, entries[..i], o, i) == (r.0, Pass);
      } else {
        SaveFailureKeepsEarlierWrites(step.0, entries, o, i + 1);
        if r.1.Fail? {
          var k :| i + 1 <= k < |entries| && SaveFrom(step.0, entries[..k], o, i + 1) == (r.0, Pass)
                   && Upsert(r.0, entries[k], o.findNull(k), o.acknowledged(k)) == r;
          assert entries[..k][i] == entries[i];
          assert SaveFrom(docs, entries[..k], o, i) == SaveFrom(step.0, entries[..k], o, i + 1);
        }
      }
    }
  }

  /** How a loaded entry relates to the entry saved under its name. */
  predicate ReloadsAs(loaded: Entry, saved: Entry) {
    loaded.property == saved.property && loaded.isStatic == saved.isStatic && loaded.isField == saved.isField
    && loaded.line.None?
    && loaded.value == (if saved.value.Some? && saved.value.value.FloatValue? then None else saved.value)
  }

  /**
   * Save then load: for every name saved, exactly one loaded entry has it, with
   * the flags of the last entry of that name and its value (a float comes back null).
   */
  lemma SaveThenLoad(docs: seq<Configuration>, entries: seq<Entry>, o: StoreOutcomes)
    requires SaveAll(docs, entries, o).1.Pass?
    ensures var loaded := EntriesOf(SaveAll(docs, entries, o).0);
            forall k :: 0 <= k < |entries| && LastOfName(entries, k) ==>
              exists j :: 0 <= j < |loaded| && ReloadsAs(loaded[j], entries[k])
                          && forall j' :: 0 <= j' < |loaded| && loaded[j'].property == entries[k].property ==> j' == j
  {
    var after := SaveAll(docs, entries, o).0;
    var loaded := EntriesOf(after);
    SaveLastWriteWins(docs, entries, o, 0);
    forall k | 0 <= k < |entries| && LastOfName(entries, k)
      ensures exists j :: 0 <= j < |loaded| && ReloadsAs(loaded[j], entries[k])
                          && forall j' :: 0 <= j' < |loaded| && loaded[j'].property == entries[k].property ==> j' == j
    {
      var m := Matching(after, entries[k].property);
      assert Holds(after, entries[k]);
      var j := m[0];
      SerializeReadsBack(after[j], entries[k].value);
      assert ReloadsAs(loaded[j], entries[k]);
      forall j' | 0 <= j' < |loaded| && loaded[j'].property == entries[k].property ensures j' == j {
        assert j' in m;
      }
    }
  }

  /** The LiteDB collection: the documents it holds, in the order `Find` returns them. */
  class Collection {
    var docs: seq<Configuration>

    constructor (docs: seq<Configuration>)
      ensures this.docs == docs
    {
      this.docs := docs;
    }

    /** `col.Update(found)` for the one document at `j`: the number of documents updated. */
    method Update(j: nat, d: Configuration, acknowledged: bool) returns (count: nat)
      requires j < |docs|
      modifies this
      ensures acknowledged ==> count == 1 && docs == old(docs)[j := d]
      ensures !acknowledged ==> count == 0 && docs == old(docs)
    {
      if acknowledged {
        docs := docs[j := d];
        count := 1;
      } else {
        count := 0;
      }
    }

    /** `col.Insert(d).IsObjectId`: the document is stored under a fresh id. */
    method Insert(d: Configuration, acknowledged: bool) returns (isObjectId: bool)
      modifies this
      ensures isObjectId == acknowledged
      ensures acknowledged ==> docs == old(docs) + [d.(id := FreshId(old(docs)))]
      ensures !acknowledged ==> docs == old(docs)
    {
      if acknowledged {
        docs := docs + [d.(id := FreshId(docs))];
      }
      isObjectId := acknowledged;
    }
  }

  /** `Save(lines)` against the collection. */
  method Save(col: Collection, entries: seq<Entry>, o: StoreOutcomes) returns (r: Outcome<StoreError>)
    modifies col
    ensures (col.docs, r) == SaveAll(old(col.docs), entries, o)
  {
    for i := 0 to |entries|
      invariant SaveFrom(col.docs, entries, o, i) == SaveAll(old(col.docs), entries, o)
    {
      var entry := entries[i];
      if o.findNull(i) {
        return Fail(FindFailed);
      }
      var found := Matching(col.docs, entry.property);
      if |found| == 1 {
        var updated := UpdatedDocument(col.docs[found[0]], entry);
        var count := col.Update(found[0], updated, o.acknowledged(i));
        if count != 1 {
          return Fail(UpdateFailed);
        }
      } else if |found| == 0 {
        var newConfig := Configuration(0, entry.property, Serialize(entry.value), entry.isStatic, entry.isField);
        var isObjectId := col.Insert(newConfig, o.acknowledged(i));
        if !isObjectId {
          return Fail(InsertFailed);
        }
      } else {
        return Fail(NotDistinct);
      }
    }
    r := Pass;
  }
}
