/** The reflective view of a program that the XML serializer works on:
    annotations, declared fields, runtime classes and objects.  Reflection
    itself (`getDeclaredFields`, `getDeclaredAnnotations`,
    `isAnnotationPresent`, `Field.get`) is replaced by these explicit
    descriptors and the total read function `Read`. */
module Model {

  datatype Option<T> = None | Some(value: T)

  /** A runtime-retained annotation on a field.  `XmlField` is the
      serializer's field marker with its `type()` and `name()` payload;
      `Other` stands for any other annotation a field may carry. */
  datatype Annotation =
    | XmlField(kind: string, name: string)
    | Other(annotationType: string)

  /** A declared field: its name and its annotations, in the order
      `getDeclaredAnnotations` reports them. */
  datatype Field = Field(name: string, annotations: seq<Annotation>)

  /** A runtime class: its fully qualified name, its simple name, whether it
      carries the class marker `@XMLable`, and its own declared fields in the
      order `getDeclaredFields` reports them.  The whole record is the class's
      identity: two `Class` values are the same runtime class exactly when
      they are equal. */
  datatype Class = Class(qualifiedName: string, simpleName: string, xmlable: bool, fields: seq<Field>)

  /** An object: its runtime class and the text form (`toString`) of each
      field whose value is not null; a field missing from `values` is null. */
  datatype Obj = Obj(cls: Class, values: map<string, string>)

  /** Reads the field called `field` of `o`; `None` is a null value. */
  function Read(o: Obj, field: string): (v: Option<string>)
    ensures v.Some? <==> field in o.values
    ensures v.Some? ==> v.value == o.values[field]
  {
    if field in o.values then Some(o.values[field]) else None
  }

  /** Java forbids two fields of one class with the same name. */
  predicate UniqueFieldNames(fields: seq<Field>)
  {
    forall i, j | 0 <= i < j < |fields| :: fields[i].name != fields[j].name
  }

  /** No name occurs twice in `s`. */
  predicate Distinct(s: seq<string>)
  {
    forall i, j | 0 <= i < j < |s| :: s[i] != s[j]
  }

  /** In a sequence without repetitions every member occurs once. */
  lemma {:induction false} DistinctMultiset(s: seq<string>)
    requires Distinct(s)
    ensures forall x :: multiset(s)[x] == if x in s then 1 else 0
  {
    if s != [] {
      DistinctMultiset(s[1..]);
      assert s == [s[0]] + s[1..];
      assert s[0] !in s[1..];
    }
  }

  function Last<T>(s: seq<T>): T
    requires |s| > 0
  {
    s[|s| - 1]
  }
}
