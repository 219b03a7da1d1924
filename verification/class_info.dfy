/** The per-class metadata entry (`ClassInfo`) the serializer caches, and
    how it is built from a runtime class. */
module ClassInfos {
  import opened Model

  /** One stored field: the declared field and the annotation that was put
      for it last. */
  datatype FieldInfo = FieldInfo(field: Field, annotation: Annotation)

  /** A cache entry.  `iteration` is the order in which the entry's
      `HashMap` hands out its values; it is fixed when the entry is built. */
  datatype ClassInfo = ClassInfo(
    isXmlable: bool,
    className: string,
    fieldInfoMap: map<string, FieldInfo>,
    iteration: seq<string>)

  /** The iteration order of the field map of a class's entry.  `HashMap`
      order depends on hash codes, capacity and insertion history, all of
      which are fixed by the class, so the order is modelled as a function of
      the class and otherwise left open. */
  type FieldOrder = Class -> seq<string>

  /** `s` lists every element of `keys` exactly once. */
  predicate Enumerates(s: seq<string>, keys: set<string>)
  {
    && (forall i | 0 <= i < |s| :: s[i] in keys)
    && (forall k | k in keys :: k in s)
    && Distinct(s)
  }

  /** The only order of a one-element key set. */
  lemma SingleKeyOrder(s: seq<string>, k: string)
    requires Enumerates(s, {k})
    ensures s == [k]
  {
    DistinctMultiset(s);
    assert multiset(s) == multiset{k};
    assert |s| == |multiset(s)| == 1;
  }

  /** The only order of the empty key set. */
  lemma EmptyKeyOrder(s: seq<string>)
    requires Enumerates(s, {})
    ensures s == []
  {
    DistinctMultiset(s);
    assert multiset(s) == multiset{};
    assert |s| == |multiset(s)| == 0;
  }

  /** The inner loop of the constructor: one `put` per annotation of `f`,
      keyed by the field's name. */
  function PutAnnotations(m: map<string, FieldInfo>, f: Field, anns: seq<Annotation>): map<string, FieldInfo>
    decreases |anns|
  {
    if anns == [] then m
    else PutAnnotations(m[f.name := FieldInfo(f, anns[0])], f, anns[1..])
  }

  /** Of several annotations on one field only the last `put` survives. */
  lemma {:induction false} LastPutWins(m: map<string, FieldInfo>, f: Field, anns: seq<Annotation>)
    ensures anns == [] ==> PutAnnotations(m, f, anns) == m
    ensures anns != [] ==> PutAnnotations(m, f, anns) == m[f.name := FieldInfo(f, Last(anns))]
    decreases |anns|
  {
    if anns != [] {
      var m' := m[f.name := FieldInfo(f, anns[0])];
      LastPutWins(m', f, anns[1..]);
      if |anns| > 1 {
        assert Last(anns[1..]) == Last(anns);
        assert m'[f.name := FieldInfo(f, Last(anns))] == m[f.name := FieldInfo(f, Last(anns))];
      }
    }
  }

  /** The outer loop of the constructor over the declared fields, in order:
      the map after scanning `fields` is the map after scanning all but the
      last field, then the last field's puts. */
  function CollectFieldInfos(fields: seq<Field>): map<string, FieldInfo>
  {
    if fields == [] then map[]
    else
      var f := Last(fields);
      PutAnnotations(CollectFieldInfos(fields[..|fields| - 1]), f, f.annotations)
  }

  /** The map holds exactly the names of annotated fields, and every entry
      is a declared field of that name paired with its last annotation. */
  lemma {:induction false} CollectedEntries(fields: seq<Field>)
    ensures forall k :: k in CollectFieldInfos(fields) <==>
      exists i :: 0 <= i < |fields| && fields[i].name == k && fields[i].annotations != []
    ensures forall k | k in CollectFieldInfos(fields) ::
      var fi := CollectFieldInfos(fields)[k];
      && fi.field in fields
      && fi.field.name == k
      && fi.field.annotations != []
      && fi.annotation == Last(fi.field.annotations)
  {
    if fields != [] {
      var init := fields[..|fields| - 1];
      var f := Last(fields);
      CollectedEntries(init);
      LastPutWins(CollectFieldInfos(init), f, f.annotations);
      assert fields == init + [f];
      forall k
        ensures k in CollectFieldInfos(fields) <==>
          exists i :: 0 <= i < |fields| && fields[i].name == k && fields[i].annotations != []
      {
        if k in CollectFieldInfos(fields) && k != f.name {
          var i :| 0 <= i < |init| && init[i].name == k && init[i].annotations != [];
          assert fields[i] == init[i];
        }
        if exists i :: 0 <= i < |fields| && fields[i].name == k && fields[i].annotations != [] {
          var i :| 0 <= i < |fields| && fields[i].name == k && fields[i].annotations != [];
          if i < |init| {
            assert init[i] == fields[i];
          }
        }
      }
    }
  }

  /** With unique field names, each annotated field is stored under its own
      name together with its last annotation. */
  lemma {:induction false} StoredField(fields: seq<Field>, i: int)
    requires UniqueFieldNames(fields)
    requires 0 <= i < |fields| && fields[i].annotations != []
    ensures fields[i].name in CollectFieldInfos(fields)
    ensures CollectFieldInfos(fields)[fields[i].name] == FieldInfo(fields[i], Last(fields[i].annotations))
  {
    CollectedEntries(fields);
    var fi := CollectFieldInfos(fields)[fields[i].name];
    var j :| 0 <= j < |fields| && fields[j] == fi.field;
    assert i == j;
  }

  /** The constructor `ClassInfo(Class)`: the marker flag, the simple name,
      and, for a marked class only, the field map and its iteration order. */
  function BuildClassInfo(c: Class, order: FieldOrder): ClassInfo
  {
    if c.xmlable then
      ClassInfo(true, c.simpleName, CollectFieldInfos(c.fields), order(c))
    else
      ClassInfo(false, c.simpleName, map[], [])
  }

  /** An entry stores exactly the annotated fields of a marked class, none
      of an unmarked one, each under its own name with its last annotation. */
  lemma BuildClassInfoEntries(c: Class, order: FieldOrder)
    ensures var info := BuildClassInfo(c, order);
      forall k :: k in info.fieldInfoMap <==>
        c.xmlable && exists i :: 0 <= i < |c.fields| && c.fields[i].name == k && c.fields[i].annotations != []
    ensures var info := BuildClassInfo(c, order);
      forall k | k in info.fieldInfoMap ::
        && info.fieldInfoMap[k].field in c.fields
        && info.fieldInfoMap[k].field.name == k
        && info.fieldInfoMap[k].field.annotations != []
        && info.fieldInfoMap[k].annotation == Last(info.fieldInfoMap[k].field.annotations)
  {
    CollectedEntries(c.fields);
  }

  /** For a marked class `c`, the order hands out each key of its field
      map once. */
  ghost predicate OrderFits(order: FieldOrder, c: Class)
  {
    c.xmlable ==> Enumerates(order(c), CollectFieldInfos(c.fields).Keys)
  }

  /** The order fits every class. */
  ghost predicate ValidOrder(order: FieldOrder)
  {
    forall c: Class :: OrderFits(order, c)
  }

  /** An entry whose iteration visits each stored key once, and whose
      entries are keyed by their own field's name. */
  predicate WellFormed(info: ClassInfo)
  {
    && Enumerates(info.iteration, info.fieldInfoMap.Keys)
    && (forall k | k in info.fieldInfoMap :: info.fieldInfoMap[k].field.name == k)
  }

  lemma BuildWellFormed(c: Class, order: FieldOrder)
    requires OrderFits(order, c)
    ensures WellFormed(BuildClassInfo(c, order))
  {
    BuildClassInfoEntries(c, order);
  }
}
