/** The emission loop of `XMLSerializer.serialize`, as a pure function from
    the input objects to the text written on the sink.  This version builds a
    fresh `ClassInfo` for every object; `CachedRun` proves that the cached loop
    writes the same text. */
module Serializer {
  import opened Model
  import opened ClassInfos

  /** The XML declaration written once, before any object. */
  const Header: string := "<?xml version=\"1.0\" encoding=\"UTF-8\"?>\n"

  /** The whole fragment of an object whose class lacks `@XMLable`. */
  const Placeholder: string := "<notXMLable />\n"

  function OpenTag(name: string): string
  {
    "<" + name + ">\n"
  }

  function CloseTag(name: string): string
  {
    "</" + name + ">\n"
  }

  /** What is written before the value is rendered: the indented start tag
      of a field element with its `type` attribute. */
  function ElementStart(tag: string, kind: string): string
  {
    "  <" + tag + " type=\"" + kind + "\">"
  }

  /** A complete field element; the value is inserted without escaping. */
  function Element(tag: string, kind: string, value: string): string
  {
    ElementStart(tag, kind) + value + "</" + tag + ">\n"
  }

  /** The text on the sink when the run ends: either the whole input was
      processed, or a null field value raised a `NullPointerException`
      that escapes `serialize` after `text` had been written. */
  datatype Outcome = Completed(text: string) | NullPointer(text: string)

  function Prepend(s: string, o: Outcome): (r: Outcome)
  {
    match o
    case Completed(t) => Completed(s + t)
    case NullPointer(t) => NullPointer(s + t)
  }

  /** Runs `first`, then `second` unless `first` aborted. */
  function Then(first: Outcome, second: Outcome): Outcome
  {
    if first.NullPointer? then first else Prepend(first.text, second)
  }

  /** One turn of the field loop: the stored entry for `key` is written when
      its annotation is an `XMLfield`, under the Java field's own name. */
  function FieldStep(o: Obj, info: ClassInfo, key: string): Outcome
  {
    if key !in info.fieldInfoMap then Completed("")
    else
      var fi := info.fieldInfoMap[key];
      match fi.annotation
      case XmlField(kind, _) =>
        (match Read(o, fi.field.name)
         case None => NullPointer(ElementStart(fi.field.name, kind))
         case Some(v) => Completed(Element(fi.field.name, kind, v)))
      case Other(_) => Completed("")
  }

  /** The field loop over the stored entries in the order `keys`. */
  function FieldElements(o: Obj, info: ClassInfo, keys: seq<string>): Outcome
  {
    if keys == [] then Completed("")
    else Then(FieldStep(o, info, keys[0]), FieldElements(o, info, keys[1..]))
  }

  /** The fragment for one object, given its class's entry. */
  function ObjectFragment(o: Obj, info: ClassInfo): Outcome
  {
    if !info.isXmlable then Completed(Placeholder)
    else
      var body := FieldElements(o, info, info.iteration);
      Then(Prepend(OpenTag(info.className), body), Completed(CloseTag(info.className)))
  }

  /** The fragment for one array element, from a freshly built entry for
      its class.  A null element makes `obj.getClass()` throw before anything
      is written for it. */
  function ElementFragment(x: Option<Obj>, order: FieldOrder): Outcome
  {
    match x
    case None => NullPointer("")
    case Some(o) => ObjectFragment(o, BuildClassInfo(o.cls, order))
  }

  /** The fragments of the array elements `objs` in input order. */
  function Fragments(objs: seq<Option<Obj>>, order: FieldOrder): Outcome
  {
    if objs == [] then Completed("")
    else Then(ElementFragment(objs[0], order), Fragments(objs[1..], order))
  }

  /** `serialize(arr, fileName)` without the cache: the header, then the
      fragments. */
  function Serialize(objs: seq<Option<Obj>>, order: FieldOrder): Outcome
  {
    Prepend(Header, Fragments(objs, order))
  }

  /** An unmarked class gives the placeholder whatever the object's values;
      a marked class gives a fragment that opens with the class tag and, when
      it completes, ends with the closing class tag. */
  lemma ObjectFragmentTags(o: Obj, info: ClassInfo)
    ensures !info.isXmlable ==> ObjectFragment(o, info) == Completed(Placeholder)
    ensures info.isXmlable ==>
      var r := ObjectFragment(o, info);
      var open := OpenTag(info.className);
      |r.text| >= |open| && r.text[..|open|] == open
    ensures info.isXmlable && ObjectFragment(o, info).Completed? ==>
      var r := ObjectFragment(o, info);
      var close := CloseTag(info.className);
      |r.text| >= |OpenTag(info.className)| + |close| && r.text[|r.text| - |close|..] == close
  {
  }

  /** Whatever the input, the written text starts with the header, and with
      no input it is the header alone. */
  lemma SerializeStartsWithHeader(objs: seq<Option<Obj>>, order: FieldOrder)
    ensures var r := Serialize(objs, order);
      |r.text| >= |Header| && r.text[..|Header|] == Header
    ensures objs == [] ==> Serialize(objs, order) == Completed(Header)
  {
  }

  // ---------------------------------------------------------------------
  // Sequencing

  lemma ThenAssoc(a: Outcome, b: Outcome, c: Outcome)
    ensures Then(Then(a, b), c) == Then(a, Then(b, c))
  {
    if a.Completed? && b.Completed? {
      assert a.text + (b.text + c.text) == (a.text + b.text) + c.text;
    } else if a.Completed? {
      assert Then(Then(a, b), c) == Prepend(a.text, b);
    }
  }

  lemma PrependThen(s: string, a: Outcome, b: Outcome)
    ensures Prepend(s, Then(a, b)) == Then(Prepend(s, a), b)
  {
    if a.Completed? {
      assert s + (a.text + b.text) == (s + a.text) + b.text;
    }
  }

  /** The fragments of a concatenation are the fragments of each part, the
      second part only when the first did not abort. */
  lemma {:induction false} FragmentsAppend(a: seq<Option<Obj>>, b: seq<Option<Obj>>, order: FieldOrder)
    ensures Fragments(a + b, order) == Then(Fragments(a, order), Fragments(b, order))
  {
    if a == [] {
      assert a + b == b;
      assert Fragments(b, order).text == "" + Fragments(b, order).text;
    } else {
      var head := ElementFragment(a[0], order);
      assert (a + b)[0] == a[0];
      assert (a + b)[1..] == a[1..] + b;
      FragmentsAppend(a[1..], b, order);
      ThenAssoc(head, Fragments(a[1..], order), Fragments(b, order));
    }
  }

  /** Order preservation: serializing `a + b` writes the run for `a`, then,
      unless that aborted, the fragments of `b` in order. */
  lemma SerializeAppend(a: seq<Option<Obj>>, b: seq<Option<Obj>>, order: FieldOrder)
    ensures Serialize(a + b, order) == Then(Serialize(a, order), Fragments(b, order))
  {
    FragmentsAppend(a, b, order);
    PrependThen(Header, Fragments(a, order), Fragments(b, order));
  }

  /** A single object: the header followed by its fragment. */
  lemma SerializeOne(o: Obj, order: FieldOrder)
    ensures Serialize([Some(o)], order) == Prepend(Header, ObjectFragment(o, BuildClassInfo(o.cls, order)))
  {
    var f := ObjectFragment(o, BuildClassInfo(o.cls, order));
    assert [Some(o)][1..] == [];
    assert Fragments([Some(o)], order) == Then(f, Completed(""));
    assert f.text + "" == f.text;
    assert Then(f, Completed("")) == f;
  }

  /** A null array element ends the run: nothing after it is written, and
      nothing is written for it. */
  lemma SerializeNullElement(a: seq<Option<Obj>>, b: seq<Option<Obj>>, order: FieldOrder)
    ensures Serialize(a + [None] + b, order) == NullPointer(Serialize(a, order).text)
  {
    SerializeAppend(a, [None] + b, order);
    assert a + [None] + b == a + ([None] + b);
    assert ([None] + b)[0] == None && ([None] + b)[1..] == b;
    assert Serialize(a, order).text + "" == Serialize(a, order).text;
  }
}
