/** The loop of `XMLSerializer.serialize` as written: a `map` from runtime
    class to `ClassInfo`, filled by `computeIfAbsent`, threaded through the
    objects in input order. */
module CachedRun {
  import opened Model
  import opened ClassInfos
  import opened Serializer

  /** The distinct runtime classes of the non-null elements of `objs`. */
  function ClassesOf(objs: seq<Option<Obj>>): set<Class>
  {
    set x | x in objs && x.Some? :: x.value.cls
  }

  /** The class of one element, if it is not null. */
  function ClassOf(x: Option<Obj>): set<Class>
  {
    if x.Some? then {x.value.cls} else {}
  }

  lemma ClassesOfSnoc(objs: seq<Option<Obj>>, x: Option<Obj>)
    ensures ClassesOf(objs + [x]) == ClassesOf(objs) + ClassOf(x)
  {
    assert forall p | p in objs + [x] :: p in objs || p == x;
  }

  lemma ClassesStep(objs: seq<Option<Obj>>, i: int)
    requires 0 <= i < |objs|
    ensures ClassesOf(objs[..i + 1]) == ClassesOf(objs[..i]) + ClassOf(objs[i])
  {
    assert objs[..i + 1] == objs[..i] + [objs[i]];
    ClassesOfSnoc(objs[..i], objs[i]);
  }

  lemma ClassesOfPrefix(objs: seq<Option<Obj>>, n: int)
    requires 0 <= n <= |objs|
    ensures ClassesOf(objs[..n]) <= ClassesOf(objs)
  {
    assert forall p | p in objs[..n] :: p in objs;
  }

  /** A run that aborted after its first `n` objects is the whole run. */
  lemma AbortedPrefix(objs: seq<Option<Obj>>, n: int, order: FieldOrder)
    requires 0 <= n <= |objs|
    requires Serialize(objs[..n], order).NullPointer?
    ensures Serialize(objs, order) == Serialize(objs[..n], order)
  {
    assert objs == objs[..n] + objs[n..];
    SerializeAppend(objs[..n], objs[n..], order);
  }

  /** One more object: the run over `objs[..i + 1]` is the run over
      `objs[..i]` followed by the fragment of `objs[i]`. */
  lemma ExtendRun(objs: seq<Option<Obj>>, i: int, order: FieldOrder, text: string)
    requires 0 <= i < |objs|
    requires Serialize(objs[..i], order) == Completed(text)
    ensures Serialize(objs[..i + 1], order) == Prepend(text, ElementFragment(objs[i], order))
  {
    var fragment := ElementFragment(objs[i], order);
    assert objs[..i + 1] == objs[..i] + [objs[i]];
    SerializeAppend(objs[..i], [objs[i]], order);
    assert [objs[i]][1..] == [];
    assert Fragments([objs[i]], order) == Then(fragment, Completed(""));
    assert fragment.text + "" == fragment.text;
  }

  /** A null element ends the run with the text written before it and adds
      no class. */
  lemma NullElement(objs: seq<Option<Obj>>, i: int, order: FieldOrder, text: string)
    requires 0 <= i < |objs| && objs[i].None?
    requires Serialize(objs[..i], order) == Completed(text)
    ensures Serialize(objs[..i + 1], order) == NullPointer(text + "")
    ensures ClassesOf(objs[..i + 1]) == ClassesOf(objs[..i])
  {
    ExtendRun(objs, i, order, text);
    ClassesStep(objs, i);
  }

  /** Every cached entry is the entry its class builds. */
  ghost predicate CacheSound(cache: map<Class, ClassInfo>, order: FieldOrder)
  {
    forall c | c in cache :: cache[c] == BuildClassInfo(c, order)
  }

  /** `classInfoMap.computeIfAbsent(objClass, ClassInfo::new)`: the cached
      entry when there is one, otherwise a newly built entry, which is then
      stored.  `built` reports whether the constructor ran. */
  method ComputeIfAbsent(cache: map<Class, ClassInfo>, c: Class, order: FieldOrder)
    returns (info: ClassInfo, cache': map<Class, ClassInfo>, built: bool)
    requires CacheSound(cache, order)
    ensures info == BuildClassInfo(c, order)
    ensures CacheSound(cache', order)
    ensures cache'.Keys == cache.Keys + {c}
    ensures built <==> c !in cache
    ensures |cache'.Keys| == |cache.Keys| + (if built then 1 else 0)
  {
    if c in cache {
      info := cache[c];
      cache' := cache;
      built := false;
    } else {
      info := BuildClassInfo(c, order);
      cache' := cache[c := info];
      built := true;
    }
  }

  /** The state of the loop after the first `i` objects: `text` is what the
      uncached run writes for them, the cache is sound and holds exactly their
      classes, and `builds` counts one construction per cached class. */
  ghost predicate Progress(objs: seq<Option<Obj>>, i: int, order: FieldOrder, text: string,
                           cache: map<Class, ClassInfo>, builds: nat)
  {
    && 0 <= i <= |objs|
    && Serialize(objs[..i], order) == Completed(text)
    && CacheSound(cache, order)
    && cache.Keys == ClassesOf(objs[..i])
    && builds == |cache.Keys|
  }

  /** What the loop needs to know when `objs[i]` aborts the run. */
  lemma Abort(objs: seq<Option<Obj>>, i: int, order: FieldOrder, keys: set<Class>)
    requires 0 <= i < |objs|
    requires Serialize(objs[..i + 1], order).NullPointer?
    requires keys == ClassesOf(objs[..i + 1])
    ensures Serialize(objs, order) == Serialize(objs[..i + 1], order)
    ensures keys <= ClassesOf(objs) && |keys| <= |ClassesOf(objs)|
  {
    AbortedPrefix(objs, i + 1, order);
    ClassesOfPrefix(objs, i + 1);
    SubsetCardinality(keys, ClassesOf(objs));
  }

  /** One turn of the loop: a null element throws at once; otherwise the
      object is rendered by `VisitObject`.  A completed fragment extends the
      progress by one element; an aborted one ends the whole run with the
      text written so far, every class seen being cached once. */
  method Visit(objs: seq<Option<Obj>>, i: int, order: FieldOrder, text: string,
               cache: map<Class, ClassInfo>, builds: nat)
    returns (fragment: Outcome, cache': map<Class, ClassInfo>, builds': nat)
    requires i < |objs|
    requires Progress(objs, i, order, text, cache, builds)
    ensures fragment.Completed? ==> Progress(objs, i + 1, order, text + fragment.text, cache', builds')
    ensures fragment.NullPointer? ==>
      && Serialize(objs, order) == NullPointer(text + fragment.text)
      && CacheSound(cache', order)
      && cache'.Keys <= ClassesOf(objs)
      && builds' == |cache'.Keys| <= |ClassesOf(objs)|
  {
    match objs[i] {
      case None =>
        fragment, cache', builds' := NullPointer(""), cache, builds;
        NullElement(objs, i, order, text);
        Abort(objs, i, order, cache.Keys);
      case Some(o) =>
        fragment, cache', builds' := VisitObject(objs, i, order, text, cache, builds, o);
    }
  }

  /** The turn for a non-null element `o`: look up or build the entry of
      its class, then render `o` with it. */
  method VisitObject(objs: seq<Option<Obj>>, i: int, order: FieldOrder, text: string,
                     cache: map<Class, ClassInfo>, builds: nat, o: Obj)
    returns (fragment: Outcome, cache': map<Class, ClassInfo>, builds': nat)
    requires 0 <= i < |objs| && objs[i] == Some(o)
    requires Progress(objs, i, order, text, cache, builds)
    ensures fragment.Completed? ==> Progress(objs, i + 1, order, text + fragment.text, cache', builds')
    ensures fragment.NullPointer? ==>
      && Serialize(objs, order) == NullPointer(text + fragment.text)
      && CacheSound(cache', order)
      && cache'.Keys <= ClassesOf(objs)
      && builds' == |cache'.Keys| <= |ClassesOf(objs)|
  {
    var info, built;
    info, cache', built := ComputeIfAbsent(cache, o.cls, order);
    builds' := if built then builds + 1 else builds;
    fragment := ObjectFragment(o, info);
    ExtendRun(objs, i, order, text);
    ClassesStep(objs, i);
    if fragment.NullPointer? {
      Abort(objs, i, order, cache'.Keys);
    }
  }

  /** The cached serializer.  `cache` is the class map when the run ends and
      `builds` counts the `ClassInfo` constructions.  The text written equals
      that of rebuilding the entry for every object; every cached entry is
      the entry its class builds; each distinct class is built at most once. */
  method SerializeCached(objs: seq<Option<Obj>>, order: FieldOrder)
    returns (r: Outcome, cache: map<Class, ClassInfo>, builds: nat)
    ensures r == Serialize(objs, order)
    ensures CacheSound(cache, order)
    ensures cache.Keys <= ClassesOf(objs)
    ensures r.Completed? ==> cache.Keys == ClassesOf(objs)
    ensures builds == |cache.Keys| <= |ClassesOf(objs)|
  {
    var text := Header;
    cache := map[];
    builds := 0;
    var i := 0;
    while i < |objs|
      invariant Progress(objs, i, order, text, cache, builds)
    {
      var fragment;
      fragment, cache, builds := Visit(objs, i, order, text, cache, builds);
      if fragment.NullPointer? {
        return NullPointer(text + fragment.text), cache, builds;
      }
      text := text + fragment.text;
      i := i + 1;
    }
    assert objs[..i] == objs;
    r := Completed(text);
    SubsetCardinality(cache.Keys, ClassesOf(objs));
  }

  lemma SubsetCardinality<T>(a: set<T>, b: set<T>)
    requires a <= b
    ensures |a| <= |b|
  {
    assert b == a + (b - a);
  }
}
