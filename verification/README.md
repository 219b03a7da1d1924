# XMLSerializer in Dafny

A model of the annotation-driven XML serializer `XMLSerializer.serialize`,
with proofs about it. The serializer writes a fixed XML declaration. Then, for
each array element in input order, it writes one of two fragments:

- a `<notXMLable />` placeholder when the object's class lacks `@XMLable`;
- otherwise, a tag pair named after the class's simple name, enclosing one
  child element per field whose stored annotation is an `@XMLfield`.

The field elements come from a per-class `ClassInfo` entry. The entry is built
once per runtime class by `computeIfAbsent` and holds three things: the marker
flag, the simple name, and a `HashMap` from field name to
`FieldInfo(field, annotation)`.

Modules:

- `Model` (model.dfy): the reflective view the serializer works on.
  - Annotations are `XmlField(type, name)` or any `Other` annotation.
  - A class's declared fields are listed in the order `getDeclaredFields`
    reports them.
  - A runtime class has a qualified name, a simple name, the `@XMLable` flag
    and its declared fields. The whole record is the class's identity.
  - An object is its class plus the text form of each non-null field value.
    A field absent from the value map is null.
  - An array element is an `Option<Obj>`; `None` is a null element.
- `ClassInfos` (class_info.dfy): the `ClassInfo` constructor and the
  properties of the field map it fills.
  - `PutAnnotations` is the constructor's inner loop over one field's
    annotations (src/XMLSerializer.java:93-95).
  - `CollectFieldInfos` is its outer loop over the declared fields
    (src/XMLSerializer.java:90-96).
  - `BuildClassInfo` is the constructor itself (src/XMLSerializer.java:84-98).
  - `HashMap` iteration order is a parameter, `FieldOrder`. It maps each
    class to an enumeration of its entry's keys and is fixed when the entry is
    built.
- `Serializer` (serializer.dfy): the emission loop as a pure function from
  array elements to an `Outcome`. It builds a fresh entry for every object.
  - `FieldStep` is one turn of the field loop (src/XMLSerializer.java:37-49).
  - `FieldElements` is the whole field loop (src/XMLSerializer.java:33-57).
  - `ObjectFragment` is one object's fragment (src/XMLSerializer.java:29-64).
  - `ElementFragment` adds the null element, on which `obj.getClass()`
    throws (src/XMLSerializer.java:26).
  - `Serialize` is the whole run (src/XMLSerializer.java:16-69).
- `Layouts` (layout.dfy): which elements a fragment contains. The emitted
  elements are related to an independent reference, `DeclaredLayout`, which
  lists the declared fields whose last annotation is an `XMLfield`, in
  declaration order. The module also characterises when a run aborts on a
  null value.
- `CachedRun` (cached_run.dfy): the loop as written, threading a
  `map<Class, ClassInfo>` cache through `computeIfAbsent`. It is proved to
  write the same text as `Serializer.Serialize`, and to build each class's
  entry at most once.
- `Examples` (examples.dfy): concrete runs.
  - The sample program's `Professor`.
  - A marked object followed by an unmarked one.
  - Classes whose `XMLfield` carries a `name()` override.
  - Fields with several annotations.
  - Marked classes without exported fields.

A null field value makes `value.toString()` throw a `NullPointerException`
(src/XMLSerializer.java:48). The element's start tag has already been written
at line 47. Only `IOException` is caught (:66), so the exception escapes
`serialize` and the run ends. A null array element does the same at
`obj.getClass()` (:26), before anything is written for it. The model makes
both an explicit outcome, `NullPointer(text)`, where `text` is everything
written up to that point.

The javadoc of `XMLfield.name()` calls it "the name of the field in the XML
output" (src/XMLfield.java:19-21). The code never reads it: the element tag is
always the Java field name (src/XMLSerializer.java:47, :49). The model follows
the code; see `Examples.NameOverrideIgnored`.

## Model

| member | source | states |
|---|---|---|
| ClassInfos.LastPutWins | src/XMLSerializer.java:93-95 | Putting each annotation of one field under the field's name leaves exactly one entry for that name, paired with the field's last annotation. With no annotations the map is unchanged. |
| ClassInfos.CollectedEntries | src/XMLSerializer.java:90-96 | After the scan of the declared fields, a name is a key iff some declared field of that name has at least one annotation. Each entry holds a declared field of that name together with its last annotation. |
| ClassInfos.StoredField | src/XMLSerializer.java:91-95 | When field names are unique, every annotated field is stored under its own name, with its last annotation. |
| ClassInfos.BuildClassInfoEntries | src/XMLSerializer.java:84-98 | An entry has keys only for a marked class, and then exactly the names of its annotated fields. Each stored field is a declared field with that name and its last annotation. An unmarked class's entry holds no field infos. |
| ClassInfos.BuildWellFormed | src/XMLSerializer.java:120-121 | Every entry is keyed by its own field's name. That the iteration visits every stored key exactly once is not proved: it is the `HashMap.values()` contract, assumed through `OrderFits`. |
| Serializer.ObjectFragmentTags | src/XMLSerializer.java:29-64 | For an unmarked class the fragment is exactly `<notXMLable />\n`, whatever the object holds. For a marked class it starts with `<` + simple name + `>\n`, and when it completes it ends with `</` + simple name + `>\n`. |
| Serializer.SerializeStartsWithHeader | src/XMLSerializer.java:16-24 | Every run's text starts with the XML declaration. A run over no objects writes the declaration alone. |
| Serializer.SerializeAppend | src/XMLSerializer.java:24-65 | Order preservation: the run over `a + b` is the run over `a`, followed (unless `a` aborted) by the fragments of `b` in order. |
| Serializer.SerializeOne | src/XMLSerializer.java:19-64 | One object: the declaration, then that object's fragment. |
| Serializer.SerializeNullElement | src/XMLSerializer.java:24-26 | A null array element ends the run in a `NullPointerException`. The text is what the elements before it wrote; nothing is written for it or after it. |
| Layouts.FieldElementsFill | src/XMLSerializer.java:33-57 | The field loop writes the entry's slots (field name and `type()` of every `XMLfield` entry, in iteration order). Each slot is filled with the object's value, stopping at the first null. |
| Layouts.FragmentFillsLayout | src/XMLSerializer.java:29-60 | A marked object's fragment is its class's slot layout, filled with its values, between the class's open and close tags. |
| Layouts.SameClassSameFragment | src/XMLSerializer.java:27-60 | Two objects of one class that agree on the emitted fields give identical fragments. Fragments of one class therefore differ only in field values. |
| Layouts.FillAborts | src/XMLSerializer.java:44-49 | Filling a layout aborts iff some slot's field is null. |
| Layouts.LayoutIsDeclaredPermutation | src/XMLSerializer.java:33-49 | For a marked class, the emitted elements are a permutation (as a multiset) of the declared fields whose last annotation is an `XMLfield`. Their number equals the number of such fields. An unmarked class emits none. |
| Layouts.DeclaredLayoutMembers | src/XMLSerializer.java:91-95 | A (tag, type) slot is in the reference layout iff some declared field with that name has a last annotation that is an `XMLfield` with that type. |
| Layouts.LayoutMembers | src/XMLSerializer.java:33-37 | A marked class emits a slot iff that slot is in the reference layout. |
| Layouts.ObjectFragmentAborts | src/XMLSerializer.java:44-48 | An object's fragment aborts with a `NullPointerException` iff its class is marked and one of its exported fields is null. Null unexported fields and null fields of unmarked classes are harmless. |
| Layouts.ElementFragmentAborts | src/XMLSerializer.java:26-48 | One array element's fragment aborts iff the element is null, or it is an object of a marked class with a null exported field. |
| Layouts.SerializeAborts | src/XMLSerializer.java:16-68 | A run ends in a `NullPointerException` iff some array element is null, or is an object of a marked class with a null exported field. |
| CachedRun.ComputeIfAbsent | src/XMLSerializer.java:27 | `computeIfAbsent` returns the entry the class builds. It adds the class to the cache and nothing else. The constructor runs iff the class was absent. |
| CachedRun.Visit | src/XMLSerializer.java:24-64 | One loop turn extends the uncached run by one element and the cache by that element's class. If the element aborts (a null element throws at once), the whole run has ended with the text written so far. |
| CachedRun.VisitObject | src/XMLSerializer.java:27-64 | The turn for a non-null element: the same, with the entry looked up or built by `computeIfAbsent`. |
| CachedRun.SerializeCached | src/XMLSerializer.java:16-69 | The cached loop writes exactly what rebuilding the entry for every object writes. Every cached entry equals the one its class builds. The cache holds only classes of the input (all of them when the run completes), and the number of constructions is the number of cached classes, at most the number of distinct classes. |
| Examples.ProfessorLayout | src/Professor.java:1-10 | A `Professor` emits `lastName` (String), `age` (int) and `department` (String), each exactly once. |
| Examples.ProfessorOmitsFirstName | src/Professor.java:4 | The unannotated `firstName` is never emitted. |
| Examples.ProfessorNulls | src/XMLSerializer.java:44-48 | A `Professor` with a null `firstName` is still written completely. One with a null `lastName` aborts. |
| Examples.OneFieldRun | src/XMLSerializer.java:47-49 | The exact text of a single marked object with one `XMLfield` field. The element uses the Java field name and the annotation's `type()`. A null value leaves the text ending in the element's start tag. |
| Examples.NameOverrideIgnored | src/XMLfield.java:21 | `@XMLfield(type = "String", name = "surname")` on `lastName` still produces a `lastName` element. |
| Examples.OneFieldFragment | src/XMLSerializer.java:29-60 | The exact fragment of an object of a marked class with one `XMLfield` field, complete or cut off after the element's start tag. |
| Examples.ScenarioOutput | src/XMLSerializer.java:19-63 | A marked object with one field followed by an unmarked object writes: the declaration, the tag pair around one element, then the placeholder. |
| Examples.LastAnnotationDecides | src/XMLSerializer.java:92-95 | Of two fields each carrying an `XMLfield` and another annotation, only the one whose `XMLfield` comes last is emitted. |
| Examples.EmptyTagPair | src/XMLSerializer.java:29-60 | Any marked class none of whose fields is exported writes an empty tag pair, whatever the object's values. This covers no fields, unannotated fields only, and fields carrying only other annotations. |

## Left out

- File output: `FileWriter`, try-with-resources, and the `IOException` that is caught and printed (src/XMLSerializer.java:17, :66-67). The model returns the text written instead.
- `setAccessible` and the `IllegalAccessException` catch (src/XMLSerializer.java:41, :50-55). `Read` is a total field read, and the model reads every field.
- `Object.toString()`: a field value is given directly as its text form.
- A null `arr` itself: the model's input is always a sequence, so the `NullPointerException` that a null array raises at src/XMLSerializer.java:24, after the declaration, is not modelled.
- The concrete `HashMap` iteration order. It is the parameter `FieldOrder`, required to enumerate each entry's keys. Properties about element order are stated over multisets or for every such order.
- `getSimpleName`, `getDeclaredFields`, `getDeclaredAnnotations` and `isAnnotationPresent` are taken as data in `Class` and `Field`.
- `src/Main.java` and the domain classes other than `Professor` are not part of this model. Annotation retention and target metadata are left out too; only the `type()` and `name()` payload is kept.
- Serializer.FieldStep: the branch for a key with no stored entry writes nothing. It cannot be reached from an entry built by the constructor (see `ClassInfos.BuildWellFormed`).
- Serializer.SerializeStartsWithHeader: it says the text starts with the declaration, not that the declaration occurs only once. Field values are inserted unescaped, so they may themselves contain the declaration's text.
- Layouts.LayoutIsDeclaredPermutation: it requires unique field names in the class, which the Java compiler guarantees.
- Layouts.SerializeAborts: it requires an order that fits every class and unique field names, both of which hold for real classes. It does not cover a null `arr`, which the model cannot express (see above).
