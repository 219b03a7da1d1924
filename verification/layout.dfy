/** The shape of an object fragment: which field elements an entry emits, in
    which order, and how the object's values fill them.  The emitted
    elements are compared with an independent reference, the declared
    fields whose last annotation is an `XMLfield`, in declaration order. */
module Layouts {
  import opened Model
  import opened ClassInfos
  import opened Serializer

  /** The tag and `type` attribute of one field element. */
  datatype Slot = Slot(tag: string, kind: string)

  /** The element a stored entry contributes: one slot for an `XMLfield`
      entry, none for any other annotation. */
  function SlotAt(info: ClassInfo, key: string): seq<Slot>
  {
    if key in info.fieldInfoMap && info.fieldInfoMap[key].annotation.XmlField? then
      [Slot(info.fieldInfoMap[key].field.name, info.fieldInfoMap[key].annotation.kind)]
    else []
  }

  function LayoutOf(info: ClassInfo, keys: seq<string>): seq<Slot>
  {
    if keys == [] then [] else SlotAt(info, keys[0]) + LayoutOf(info, keys[1..])
  }

  /** The field elements of an entry in its iteration order. */
  function Layout(info: ClassInfo): seq<Slot>
  {
    LayoutOf(info, info.iteration)
  }

  function FillSlot(s: Slot, o: Obj): Outcome
  {
    match Read(o, s.tag)
    case None => NullPointer(ElementStart(s.tag, s.kind))
    case Some(v) => Completed(Element(s.tag, s.kind, v))
  }

  /** The elements of `slots` with the values of `o`, stopping at the first
      null value. */
  function Fill(slots: seq<Slot>, o: Obj): Outcome
  {
    if slots == [] then Completed("") else Then(FillSlot(slots[0], o), Fill(slots[1..], o))
  }

  /** A field is exported when its last annotation is an `XMLfield`. */
  predicate Exported(f: Field)
  {
    f.annotations != [] && Last(f.annotations).XmlField?
  }

  /** The reference layout: the exported fields in declaration order, each
      tagged with the Java field name and the annotation's `type()`. */
  function DeclaredLayout(fields: seq<Field>): seq<Slot>
  {
    if fields == [] then []
    else
      var f := fields[0];
      (if Exported(f) then [Slot(f.name, Last(f.annotations).kind)] else []) + DeclaredLayout(fields[1..])
  }

  /** An object of a marked class one of whose exported fields is null. */
  predicate HasNullExportedField(o: Obj)
  {
    exists i :: 0 <= i < |o.cls.fields| && Exported(o.cls.fields[i]) && o.cls.fields[i].name !in o.values
  }

  // ---------------------------------------------------------------------
  // The field loop fills the layout

  lemma {:induction false} FieldElementsFill(o: Obj, info: ClassInfo, keys: seq<string>)
    ensures FieldElements(o, info, keys) == Fill(LayoutOf(info, keys), o)
  {
    if keys != [] {
      FieldElementsFill(o, info, keys[1..]);
      var rest := LayoutOf(info, keys[1..]);
      var slots := SlotAt(info, keys[0]);
      if slots == [] {
        assert LayoutOf(info, keys) == rest;
        assert "" + Fill(rest, o).text == Fill(rest, o).text;
      } else {
        assert LayoutOf(info, keys)[0] == slots[0];
        assert LayoutOf(info, keys)[1..] == rest;
      }
    }
  }

  /** The fragment of an object of a marked class is its class's layout
      filled with the object's values between the class tags.  The layout
      depends on the entry alone, so two objects of one class share the class
      tags, the field tags and their `type` attributes. */
  lemma FragmentFillsLayout(o: Obj, info: ClassInfo)
    requires info.isXmlable
    ensures ObjectFragment(o, info) ==
      Then(Prepend(OpenTag(info.className), Fill(Layout(info), o)), Completed(CloseTag(info.className)))
  {
    FieldElementsFill(o, info, info.iteration);
  }

  lemma {:induction false} FillAgree(slots: seq<Slot>, o1: Obj, o2: Obj)
    requires forall s | s in slots :: Read(o1, s.tag) == Read(o2, s.tag)
    ensures Fill(slots, o1) == Fill(slots, o2)
  {
    if slots != [] {
      assert slots[0] in slots;
      FillAgree(slots[1..], o1, o2);
    }
  }

  /** Two objects of the same class whose values agree on the emitted
      fields produce the same fragment: fragments differ only in values. */
  lemma SameClassSameFragment(o1: Obj, o2: Obj, order: FieldOrder)
    requires o1.cls == o2.cls
    requires forall s | s in Layout(BuildClassInfo(o1.cls, order)) :: Read(o1, s.tag) == Read(o2, s.tag)
    ensures ObjectFragment(o1, BuildClassInfo(o1.cls, order)) == ObjectFragment(o2, BuildClassInfo(o2.cls, order))
  {
    var info := BuildClassInfo(o1.cls, order);
    if info.isXmlable {
      FragmentFillsLayout(o1, info);
      FragmentFillsLayout(o2, info);
      FillAgree(Layout(info), o1, o2);
    }
  }

  // ---------------------------------------------------------------------
  // Null values

  /** The field loop aborts exactly when one of the emitted fields is null. */
  lemma {:induction false} FillAborts(slots: seq<Slot>, o: Obj)
    ensures Fill(slots, o).NullPointer? <==> exists s :: s in slots && s.tag !in o.values
  {
    if slots != [] {
      FillAborts(slots[1..], o);
      if exists s :: s in slots[1..] && s.tag !in o.values {
        var s :| s in slots[1..] && s.tag !in o.values;
        assert s in slots;
      }
      if exists s :: s in slots && s.tag !in o.values {
        var s :| s in slots && s.tag !in o.values;
        if s != slots[0] {
          var i :| 0 <= i < |slots| && slots[i] == s;
          assert slots[1..][i - 1] == s;
        }
      }
    }
  }

  // ---------------------------------------------------------------------
  // The emitted layout is a permutation of the declared one

  /** The names of annotated fields, in declaration order. */
  function AnnotatedNames(fields: seq<Field>): seq<string>
  {
    if fields == [] then []
    else (if fields[0].annotations != [] then [fields[0].name] else []) + AnnotatedNames(fields[1..])
  }

  lemma {:induction false} AnnotatedNamesMembers(fields: seq<Field>)
    ensures forall k :: k in AnnotatedNames(fields) <==>
      exists i :: 0 <= i < |fields| && fields[i].name == k && fields[i].annotations != []
  {
    if fields != [] {
      AnnotatedNamesMembers(fields[1..]);
      forall k
        ensures k in AnnotatedNames(fields) <==>
          exists i :: 0 <= i < |fields| && fields[i].name == k && fields[i].annotations != []
      {
        if exists i :: 0 <= i < |fields| && fields[i].name == k && fields[i].annotations != [] {
          var i :| 0 <= i < |fields| && fields[i].name == k && fields[i].annotations != [];
          if i > 0 {
            assert fields[1..][i - 1] == fields[i];
          }
        }
        if k in AnnotatedNames(fields[1..]) {
          var i :| 0 <= i < |fields| - 1 && fields[1..][i].name == k && fields[1..][i].annotations != [];
          assert fields[i + 1] == fields[1..][i];
        }
      }
    }
  }

  lemma {:induction false} AnnotatedNamesDistinct(fields: seq<Field>)
    requires UniqueFieldNames(fields)
    ensures Distinct(AnnotatedNames(fields))
  {
    if fields != [] {
      var rest := fields[1..];
      AnnotatedNamesDistinct(rest);
      AnnotatedNamesMembers(rest);
      if fields[0].annotations != [] {
        var names := AnnotatedNames(fields);
        assert names == [fields[0].name] + AnnotatedNames(rest);
        forall j | 0 < j < |names|
          ensures names[0] != names[j]
        {
          assert names[j] in AnnotatedNames(rest);
          var i :| 0 <= i < |rest| && rest[i].name == names[j] && rest[i].annotations != [];
          assert rest[i] == fields[i + 1];
        }
      }
    }
  }

  lemma {:induction false} LayoutOfAppend(info: ClassInfo, a: seq<string>, b: seq<string>)
    ensures LayoutOf(info, a + b) == LayoutOf(info, a) + LayoutOf(info, b)
  {
    if a == [] {
      assert a + b == b;
    } else {
      assert (a + b)[0] == a[0];
      assert (a + b)[1..] == a[1..] + b;
      LayoutOfAppend(info, a[1..], b);
    }
  }

  lemma RemoveAtMultiset(s: seq<string>, i: int)
    requires 0 <= i < |s|
    ensures multiset(s[..i] + s[i + 1..]) == multiset(s) - multiset{s[i]}
  {
    assert s == s[..i] + [s[i]] + s[i + 1..];
    assert multiset(s) == multiset(s[..i]) + multiset{s[i]} + multiset(s[i + 1..]);
  }

  /** Removing one key removes that key's slots from the layout. */
  lemma LayoutOfRemoveAt(info: ClassInfo, keys: seq<string>, i: int)
    requires 0 <= i < |keys|
    ensures multiset(LayoutOf(info, keys)) ==
      multiset(LayoutOf(info, keys[..i] + keys[i + 1..])) + multiset(SlotAt(info, keys[i]))
  {
    var x := keys[i];
    assert keys == keys[..i] + [x] + keys[i + 1..];
    LayoutOfAppend(info, keys[..i] + [x], keys[i + 1..]);
    LayoutOfAppend(info, keys[..i], [x]);
    LayoutOfAppend(info, keys[..i], keys[i + 1..]);
    assert LayoutOf(info, [x]) == SlotAt(info, x) + LayoutOf(info, []);
    assert LayoutOf(info, [x]) == SlotAt(info, x);
  }

  /** Reordering the keys reorders the emitted slots the same way. */
  lemma {:induction false} LayoutOfPermutation(info: ClassInfo, k1: seq<string>, k2: seq<string>)
    requires multiset(k1) == multiset(k2)
    ensures multiset(LayoutOf(info, k1)) == multiset(LayoutOf(info, k2))
    decreases |k1|
  {
    if k1 == [] {
      assert |k2| == |multiset(k2)| == 0;
    } else {
      var x := k1[0];
      assert x in multiset(k2);
      var i :| 0 <= i < |k2| && k2[i] == x;
      var rest1 := k1[..0] + k1[1..];
      var rest2 := k2[..i] + k2[i + 1..];
      RemoveAtMultiset(k1, 0);
      RemoveAtMultiset(k2, i);
      assert multiset(rest1) == multiset(k1) - multiset{x};
      assert multiset(rest2) == multiset(k2) - multiset{x};
      assert rest1 == k1[1..];
      LayoutOfPermutation(info, rest1, rest2);
      LayoutOfRemoveAt(info, k1, 0);
      LayoutOfRemoveAt(info, k2, i);
    }
  }

  /** Looking up the declared annotated names in a map that stores each
      annotated field under its name yields the reference layout. */
  lemma {:induction false} DeclaredViaMap(info: ClassInfo, fields: seq<Field>)
    requires forall f | f in fields && f.annotations != [] ::
      f.name in info.fieldInfoMap && info.fieldInfoMap[f.name] == FieldInfo(f, Last(f.annotations))
    ensures LayoutOf(info, AnnotatedNames(fields)) == DeclaredLayout(fields)
  {
    if fields != [] {
      var f := fields[0];
      assert forall g | g in fields[1..] :: g in fields;
      DeclaredViaMap(info, fields[1..]);
      var names := AnnotatedNames(fields);
      if f.annotations != [] {
        assert f in fields;
        assert names[0] == f.name;
        assert names[1..] == AnnotatedNames(fields[1..]);
        assert LayoutOf(info, names) == SlotAt(info, f.name) + LayoutOf(info, AnnotatedNames(fields[1..]));
      } else {
        assert names == AnnotatedNames(fields[1..]);
      }
    }
  }

  /** The iteration order of a marked class's entry and the declaration
      order of its annotated fields list the same names. */
  lemma IterationIsAnnotatedNames(c: Class, order: FieldOrder)
    requires OrderFits(order, c)
    requires UniqueFieldNames(c.fields)
    requires c.xmlable
    ensures multiset(BuildClassInfo(c, order).iteration) == multiset(AnnotatedNames(c.fields))
  {
    var names := AnnotatedNames(c.fields);
    var iteration := BuildClassInfo(c, order).iteration;
    CollectedEntries(c.fields);
    AnnotatedNamesMembers(c.fields);
    AnnotatedNamesDistinct(c.fields);
    DistinctMultiset(names);
    DistinctMultiset(iteration);
  }

  /** Every annotated field of a class with unique field names is stored
      under its name with its last annotation. */
  lemma {:induction false} AnnotatedFieldsStored(fields: seq<Field>)
    requires UniqueFieldNames(fields)
    ensures forall f | f in fields && f.annotations != [] ::
      f.name in CollectFieldInfos(fields) && CollectFieldInfos(fields)[f.name] == FieldInfo(f, Last(f.annotations))
  {
    forall f | f in fields && f.annotations != []
      ensures f.name in CollectFieldInfos(fields) && CollectFieldInfos(fields)[f.name] == FieldInfo(f, Last(f.annotations))
    {
      var i :| 0 <= i < |fields| && fields[i] == f;
      StoredField(fields, i);
    }
  }

  /** The elements an entry emits are the reference layout in some order:
      exactly the exported fields, each once, tagged with the Java field
      name. */
  lemma LayoutIsDeclaredPermutation(c: Class, order: FieldOrder)
    requires OrderFits(order, c)
    requires UniqueFieldNames(c.fields)
    ensures c.xmlable ==> multiset(Layout(BuildClassInfo(c, order))) == multiset(DeclaredLayout(c.fields))
    ensures |Layout(BuildClassInfo(c, order))| == if c.xmlable then |DeclaredLayout(c.fields)| else 0
  {
    var info := BuildClassInfo(c, order);
    if c.xmlable {
      IterationIsAnnotatedNames(c, order);
      LayoutOfPermutation(info, info.iteration, AnnotatedNames(c.fields));
      AnnotatedFieldsStored(c.fields);
      DeclaredViaMap(info, c.fields);
      assert |Layout(info)| == |multiset(Layout(info))| == |multiset(DeclaredLayout(c.fields))|;
    }
  }

  lemma {:induction false} DeclaredLayoutMembers(fields: seq<Field>)
    ensures forall s :: s in DeclaredLayout(fields) <==>
      exists i :: 0 <= i < |fields| && Exported(fields[i]) && s == Slot(fields[i].name, Last(fields[i].annotations).kind)
  {
    if fields != [] {
      DeclaredLayoutMembers(fields[1..]);
      forall s
        ensures s in DeclaredLayout(fields) <==>
          exists i :: 0 <= i < |fields| && Exported(fields[i]) && s == Slot(fields[i].name, Last(fields[i].annotations).kind)
      {
        if exists i :: 0 <= i < |fields| && Exported(fields[i]) && s == Slot(fields[i].name, Last(fields[i].annotations).kind) {
          var i :| 0 <= i < |fields| && Exported(fields[i]) && s == Slot(fields[i].name, Last(fields[i].annotations).kind);
          if i > 0 {
            assert fields[1..][i - 1] == fields[i];
          }
        }
        if s in DeclaredLayout(fields[1..]) {
          var i :| 0 <= i < |fields| - 1 && Exported(fields[1..][i]) && s == Slot(fields[1..][i].name, Last(fields[1..][i].annotations).kind);
          assert fields[i + 1] == fields[1..][i];
        }
      }
    }
  }

  /** Without exported fields the reference layout is empty. */
  lemma {:induction false} NoExportedFields(fields: seq<Field>)
    requires forall i | 0 <= i < |fields| :: !Exported(fields[i])
    ensures DeclaredLayout(fields) == []
  {
    if fields != [] {
      assert forall i | 0 <= i < |fields| - 1 :: fields[1..][i] == fields[i + 1];
      NoExportedFields(fields[1..]);
    }
  }

  /** The entry of a marked class emits a slot exactly when it is in the
      reference layout. */
  lemma LayoutMembers(c: Class, order: FieldOrder)
    requires OrderFits(order, c)
    requires UniqueFieldNames(c.fields)
    requires c.xmlable
    ensures forall s :: s in Layout(BuildClassInfo(c, order)) <==> s in DeclaredLayout(c.fields)
  {
    var layout := Layout(BuildClassInfo(c, order));
    LayoutIsDeclaredPermutation(c, order);
    forall s
      ensures s in layout <==> s in DeclaredLayout(c.fields)
    {
      assert s in layout <==> s in multiset(layout);
      assert s in DeclaredLayout(c.fields) <==> s in multiset(DeclaredLayout(c.fields));
    }
  }

  /** An object's fragment aborts with a `NullPointerException` exactly when
      its class is marked and one of its exported fields is null; fields
      that are not exported may be null freely. */
  lemma ObjectFragmentAborts(o: Obj, order: FieldOrder)
    requires OrderFits(order, o.cls)
    requires UniqueFieldNames(o.cls.fields)
    ensures ObjectFragment(o, BuildClassInfo(o.cls, order)).NullPointer? <==>
      o.cls.xmlable && HasNullExportedField(o)
  {
    var info := BuildClassInfo(o.cls, order);
    if o.cls.xmlable {
      FragmentFillsLayout(o, info);
      FillAborts(Layout(info), o);
      LayoutMembers(o.cls, order);
      DeclaredLayoutMembers(o.cls.fields);
      if HasNullExportedField(o) {
        var i :| 0 <= i < |o.cls.fields| && Exported(o.cls.fields[i]) && o.cls.fields[i].name !in o.values;
        var f := o.cls.fields[i];
        assert Slot(f.name, Last(f.annotations).kind) in DeclaredLayout(o.cls.fields);
      }
      if Fill(Layout(info), o).NullPointer? {
        var s :| s in Layout(info) && s.tag !in o.values;
        assert s in DeclaredLayout(o.cls.fields);
      }
    }
  }

  /** An array element whose fragment aborts: a null element, or an object
      of a marked class with a null exported field. */
  predicate ElementAborts(x: Option<Obj>)
  {
    match x
    case None => true
    case Some(o) => o.cls.xmlable && HasNullExportedField(o)
  }

  /** Some element aborts the fragments of `objs`. */
  predicate SomeObjectAborts(objs: seq<Option<Obj>>)
  {
    exists i :: 0 <= i < |objs| && ElementAborts(objs[i])
  }

  /** The field names of every non-null element are unique. */
  predicate ElementsWellDeclared(objs: seq<Option<Obj>>)
  {
    forall i | 0 <= i < |objs| && objs[i].Some? :: UniqueFieldNames(objs[i].value.cls.fields)
  }

  lemma ElementFragmentAborts(x: Option<Obj>, order: FieldOrder)
    requires ValidOrder(order)
    requires x.Some? ==> UniqueFieldNames(x.value.cls.fields)
    ensures ElementFragment(x, order).NullPointer? <==> ElementAborts(x)
  {
    if x.Some? {
      ObjectFragmentAborts(x.value, order);
    }
  }

  lemma {:induction false} FragmentsAbort(objs: seq<Option<Obj>>, order: FieldOrder)
    requires ValidOrder(order)
    requires ElementsWellDeclared(objs)
    ensures Fragments(objs, order).NullPointer? <==> SomeObjectAborts(objs)
  {
    if objs != [] {
      var rest := objs[1..];
      assert forall i | 0 <= i < |rest| :: rest[i] == objs[i + 1];
      FragmentsAbort(rest, order);
      ElementFragmentAborts(objs[0], order);
      if SomeObjectAborts(rest) {
        var i :| 0 <= i < |rest| && ElementAborts(rest[i]);
        assert objs[i + 1] == rest[i];
      }
      if SomeObjectAborts(objs) {
        var i :| 0 <= i < |objs| && ElementAborts(objs[i]);
        if i > 0 {
          assert rest[i - 1] == objs[i];
        }
      }
    }
  }

  /** A run ends in a `NullPointerException` exactly when some array element
      is null or is an object of a marked class with a null exported
      field. */
  lemma SerializeAborts(objs: seq<Option<Obj>>, order: FieldOrder)
    requires ValidOrder(order)
    requires ElementsWellDeclared(objs)
    ensures Serialize(objs, order).NullPointer? <==> SomeObjectAborts(objs)
  {
    FragmentsAbort(objs, order);
  }
}
