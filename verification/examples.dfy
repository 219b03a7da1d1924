/** Concrete runs: the `Professor` class of the sample program, a marked
    object followed by an unmarked one, marked classes without exported
    fields, and the quirks of the annotation handling.  Every statement holds for every `HashMap` order that fits the
    class involved. */
module Examples {
  import opened Model
  import opened ClassInfos
  import opened Serializer
  import opened Layouts

  // ---------------------------------------------------------------------
  // The sample program's `Professor`

  const Professor: Class := Class("Professor", "Professor", true, [
    Field("firstName", []),
    Field("lastName", [XmlField("String", "")]),
    Field("age", [XmlField("int", "")]),
    Field("department", [XmlField("String", "")])
  ])

  lemma ProfessorFieldNames()
    ensures UniqueFieldNames(Professor.fields)
  {
    var fields := Professor.fields;
    assert fields[0].name[0] == 'f' && fields[1].name[0] == 'l' && fields[2].name[0] == 'a' && fields[3].name[0] == 'd';
  }

  lemma ProfessorDeclared()
    ensures DeclaredLayout(Professor.fields) ==
      [Slot("lastName", "String"), Slot("age", "int"), Slot("department", "String")]
  {
    var fields := Professor.fields;
    assert DeclaredLayout(fields[4..]) == [];
    assert DeclaredLayout(fields[3..]) == [Slot("department", "String")] + DeclaredLayout(fields[4..]);
    assert DeclaredLayout(fields[2..]) == [Slot("age", "int")] + DeclaredLayout(fields[3..]);
    assert DeclaredLayout(fields[1..]) == [Slot("lastName", "String")] + DeclaredLayout(fields[2..]);
    assert DeclaredLayout(fields) == [] + DeclaredLayout(fields[1..]);
  }

  /** A `Professor` emits `lastName`, `age` and `department`, each once. */
  lemma ProfessorLayout(order: FieldOrder)
    requires OrderFits(order, Professor)
    ensures multiset(Layout(BuildClassInfo(Professor, order))) ==
      multiset{Slot("lastName", "String"), Slot("age", "int"), Slot("department", "String")}
  {
    ProfessorFieldNames();
    ProfessorDeclared();
    LayoutIsDeclaredPermutation(Professor, order);
  }

  /** The unannotated `firstName` of a `Professor` is never written. */
  lemma ProfessorOmitsFirstName(order: FieldOrder)
    requires OrderFits(order, Professor)
    ensures forall s | s in Layout(BuildClassInfo(Professor, order)) :: s.tag != "firstName"
  {
    ProfessorFieldNames();
    ProfessorDeclared();
    LayoutMembers(Professor, order);
    assert "lastName"[0] != 'f' && "age"[0] != 'f' && "department"[0] != 'f';
  }

  /** A `Professor` whose unannotated `firstName` is null is still written
      completely; one whose `lastName` is null aborts the run. */
  lemma ProfessorNulls(order: FieldOrder)
    requires OrderFits(order, Professor)
    ensures ObjectFragment(Obj(Professor, map["lastName" := "X", "age" := "40", "department" := "Physics"]),
                           BuildClassInfo(Professor, order)).Completed?
    ensures ObjectFragment(Obj(Professor, map["firstName" := "Prof", "age" := "40", "department" := "Physics"]),
                           BuildClassInfo(Professor, order)).NullPointer?
  {
    var fields := Professor.fields;
    ProfessorFieldNames();
    var complete := Obj(Professor, map["lastName" := "X", "age" := "40", "department" := "Physics"]);
    var partial := Obj(Professor, map["firstName" := "Prof", "age" := "40", "department" := "Physics"]);
    ObjectFragmentAborts(complete, order);
    ObjectFragmentAborts(partial, order);
    assert Exported(fields[1]) && fields[1].name !in partial.values;
    assert !HasNullExportedField(complete) by {
      forall i | 0 <= i < |fields| && Exported(fields[i])
        ensures fields[i].name in complete.values
      {
        assert i == 1 || i == 2 || i == 3;
      }
    }
  }

  // ---------------------------------------------------------------------
  // Classes with a single exported field

  function OneFieldClass(simpleName: string, field: string, kind: string, override: string): Class
  {
    Class("demo." + simpleName, simpleName, true, [Field(field, [XmlField(kind, override)])])
  }

  lemma OneFieldInfo(simpleName: string, field: string, kind: string, override: string, order: FieldOrder)
    requires OrderFits(order, OneFieldClass(simpleName, field, kind, override))
    ensures var c := OneFieldClass(simpleName, field, kind, override);
      BuildClassInfo(c, order) ==
        ClassInfo(true, simpleName, map[field := FieldInfo(c.fields[0], XmlField(kind, override))], [field])
  {
    var c := OneFieldClass(simpleName, field, kind, override);
    assert c.fields[..0] == [];
    LastPutWins(map[], c.fields[0], c.fields[0].annotations);
    assert CollectFieldInfos(c.fields) == map[field := FieldInfo(c.fields[0], XmlField(kind, override))];
    SingleKeyOrder(order(c), field);
  }

  /** One key: the field loop is that key's step. */
  lemma OneKeyElements(o: Obj, info: ClassInfo, key: string)
    ensures FieldElements(o, info, [key]) == FieldStep(o, info, key)
  {
    assert [key][1..] == [];
    var step := FieldStep(o, info, key);
    assert step.text + "" == step.text;
  }

  /** The fragment of an object of a marked class with one `XMLfield`
      field. */
  lemma OneFieldFragment(simpleName: string, field: string, kind: string, override: string,
                         values: map<string, string>, order: FieldOrder)
    requires OrderFits(order, OneFieldClass(simpleName, field, kind, override))
    ensures var c := OneFieldClass(simpleName, field, kind, override);
      ObjectFragment(Obj(c, values), BuildClassInfo(c, order)) ==
        if field in values then
          Completed(OpenTag(simpleName) + Element(field, kind, values[field]) + CloseTag(simpleName))
        else
          NullPointer(OpenTag(simpleName) + ElementStart(field, kind))
  {
    var c := OneFieldClass(simpleName, field, kind, override);
    OneFieldInfo(simpleName, field, kind, override, order);
    OneKeyElements(Obj(c, values), BuildClassInfo(c, order), field);
  }

  /** An object of a marked class with one `XMLfield` field: the element
      is tagged with the Java field name whatever `name()` says; a null
      value aborts the run right after the element's start tag. */
  lemma OneFieldRun(simpleName: string, field: string, kind: string, override: string,
                    values: map<string, string>, order: FieldOrder)
    requires OrderFits(order, OneFieldClass(simpleName, field, kind, override))
    ensures var o := Obj(OneFieldClass(simpleName, field, kind, override), values);
      Serialize([Some(o)], order) ==
        if field in values then
          Completed(Header + OpenTag(simpleName) + Element(field, kind, values[field]) + CloseTag(simpleName))
        else
          NullPointer(Header + OpenTag(simpleName) + ElementStart(field, kind))
  {
    var o := Obj(OneFieldClass(simpleName, field, kind, override), values);
    OneFieldFragment(simpleName, field, kind, override, values, order);
    SerializeOne(o, order);
  }

  /** `XMLfield(type = "String", name = "surname")` on `lastName` still
      writes a `lastName` element. */
  lemma NameOverrideIgnored(order: FieldOrder)
    requires OrderFits(order, OneFieldClass("Renamed", "lastName", "String", "surname"))
    ensures Serialize([Some(Obj(OneFieldClass("Renamed", "lastName", "String", "surname"), map["lastName" := "Doe"]))], order) ==
      Completed(Header + OpenTag("Renamed") + Element("lastName", "String", "Doe") + CloseTag("Renamed"))
  {
    OneFieldRun("Renamed", "lastName", "String", "surname", map["lastName" := "Doe"], order);
  }

  // ---------------------------------------------------------------------
  // A marked object followed by an unmarked one

  const TypeB: Class := Class("demo.TypeB", "TypeB", false, [Field("m", [XmlField("String", "")])])

  /** A marked object with one field, then an unmarked one: the header, the
      `TypeA` pair around one element, then the placeholder. */
  lemma ScenarioOutput(order: FieldOrder)
    requires OrderFits(order, OneFieldClass("TypeA", "n", "String", ""))
    ensures Serialize([Some(Obj(OneFieldClass("TypeA", "n", "String", ""), map["n" := "Ann"])), Some(Obj(TypeB, map["m" := "x"]))], order) ==
      Completed(Header + OpenTag("TypeA") + Element("n", "String", "Ann") + CloseTag("TypeA") + Placeholder)
  {
    var a := Some(Obj(OneFieldClass("TypeA", "n", "String", ""), map["n" := "Ann"]));
    var b := Some(Obj(TypeB, map["m" := "x"]));
    OneFieldRun("TypeA", "n", "String", "", map["n" := "Ann"], order);
    SerializeAppend([a], [b], order);
    assert [a] + [b] == [a, b];
    assert [b][1..] == [];
    assert Fragments([b], order) == Completed(Placeholder + "");
  }

  // ---------------------------------------------------------------------
  // Annotation quirks

  const TwoMarkers: Class := Class("demo.TwoMarkers", "TwoMarkers", true, [
    Field("a", [XmlField("int", ""), Other("Deprecated")]),
    Field("b", [Other("Deprecated"), XmlField("int", "")])
  ])

  /** Only the last annotation of a field counts: `a`, whose `XMLfield`
      comes first, is dropped; `b`, whose `XMLfield` comes last, is
      written. */
  lemma LastAnnotationDecides(order: FieldOrder)
    requires OrderFits(order, TwoMarkers)
    ensures Layout(BuildClassInfo(TwoMarkers, order)) == [Slot("b", "int")]
  {
    var fields := TwoMarkers.fields;
    assert UniqueFieldNames(TwoMarkers.fields) by {
      assert fields[0].name != fields[1].name;
    }
    assert DeclaredLayout(fields[2..]) == [];
    assert DeclaredLayout(fields[1..]) == [Slot("b", "int")] + DeclaredLayout(fields[2..]);
    assert DeclaredLayout(fields) == [] + DeclaredLayout(fields[1..]);
    LayoutIsDeclaredPermutation(TwoMarkers, order);
    var layout := Layout(BuildClassInfo(TwoMarkers, order));
    assert layout[0] in multiset(layout);
  }

  /** A marked class none of whose fields is exported writes an empty tag
      pair, whatever the object's values.  This covers a class without
      fields, one with unannotated fields only, and one whose fields carry
      only other annotations. */
  lemma EmptyTagPair(o: Obj, order: FieldOrder)
    requires o.cls.xmlable
    requires OrderFits(order, o.cls)
    requires UniqueFieldNames(o.cls.fields)
    requires forall i | 0 <= i < |o.cls.fields| :: !Exported(o.cls.fields[i])
    ensures Serialize([Some(o)], order) ==
      Completed(Header + OpenTag(o.cls.simpleName) + CloseTag(o.cls.simpleName))
  {
    var info := BuildClassInfo(o.cls, order);
    NoExportedFields(o.cls.fields);
    LayoutIsDeclaredPermutation(o.cls, order);
    FragmentFillsLayout(o, info);
    SerializeOne(o, order);
    assert OpenTag(o.cls.simpleName) + "" == OpenTag(o.cls.simpleName);
  }
}
