/**
 * SerializedPropertyUtility: reads the object a serialized property refers
 * to by walking its path with reflection from the target object. Reflection
 * is given as functions (`Reflection`) over values V, types T and fields F;
 * `None` stands for null.
 */
module SerializedProperties {
  import W = Wrappers
  import opened Strings
  import opened PropertyPaths

  /**
   * The reflection GetValue_Imp uses. `typeChain(v)` is v.GetType() followed
   * by its base types in order (the `type = type.BaseType` walk);
   * `hasProperty` and `propertyValue` are the case-insensitive property
   * lookup; `items(v)` is the sequence an IEnumerable value enumerates, or
   * `None` when the value is not an IEnumerable.
   */
  datatype Reflection<!V, !T, !F> = Reflection(
    typeChain: V -> seq<T>,
    getField: (T, string) -> W.Option<F>,
    fieldValue: (F, V) -> W.Option<V>,
    hasProperty: (T, string) -> bool,
    propertyValue: (T, string, V) -> W.Option<V>,
    items: V -> W.Option<seq<W.Option<V>>>)

  /** A value found by a lookup and the field it was read from (`None` when a property matched). */
  datatype Lookup<V, F> = Lookup(value: W.Option<V>, field: W.Option<F>)

  /** The exceptions a path walk can throw. */
  datatype PathError =
    | ParseFailed(error: ParseError)   // Convert.ToInt32 on the index text
    | EnumerationNotStarted            // IEnumerator.Current before the first MoveNext

  /** The SerializedProperty fields GetObjectFromProperty reads. */
  datatype SerializedProperty<V> = SerializedProperty(propertyPath: string, targetObject: W.Option<V>)

  predicate HasMember<V, T, F>(r: Reflection<V, T, F>, t: T, name: string)
  {
    r.getField(t, name).Some? || r.hasProperty(t, name)
  }

  /** The member `name` of type `t` read from `source`: the field if there is one, else the property. */
  function MemberOf<V, T, F>(r: Reflection<V, T, F>, source: V, t: T, name: string): (l: Lookup<V, F>)
    requires HasMember(r, t, name)
    ensures l.field.Some? <==> r.getField(t, name).Some?
  {
    match r.getField(t, name)
    case Some(f) => Lookup(r.fieldValue(f, source), W.Some(f))
    case None => Lookup(r.propertyValue(t, name, source), W.None)
  }

  /** The named lookup from level `i` of the type chain on. */
  function NamedFrom<V, T, F>(r: Reflection<V, T, F>, source: V, chain: seq<T>, i: nat, name: string): Lookup<V, F>
    requires i <= |chain|
    decreases |chain| - i
  {
    if i == |chain| then Lookup(W.None, W.None)
    else if HasMember(r, chain[i], name) then MemberOf(r, source, chain[i], name)
    else NamedFrom(r, source, chain, i + 1, name)
  }

  predicate NoMemberBetween<V, T, F>(r: Reflection<V, T, F>, chain: seq<T>, i: int, k: int, name: string)
    requires 0 <= i <= k <= |chain|
  {
    forall m :: i <= m < k ==> !HasMember(r, chain[m], name)
  }

  /** GetValue_Imp(source, name): `None` for a null source. */
  function NamedLookup<V, T, F>(r: Reflection<V, T, F>, source: W.Option<V>, name: string): Lookup<V, F>
  {
    if source.None? then Lookup(W.None, W.None)
    else NamedFrom(r, source.value, r.typeChain(source.value), 0, name)
  }

  /**
   * The named lookup takes the member of the most derived type that has
   * one, preferring its field to its property.
   */
  lemma {:induction false} NamedFromFirstMember<V, T, F>(r: Reflection<V, T, F>, source: V, chain: seq<T>, i: nat, k: nat, name: string)
    requires i <= k < |chain| && NoMemberBetween(r, chain, i, k, name) && HasMember(r, chain[k], name)
    ensures NamedFrom(r, source, chain, i, name) == MemberOf(r, source, chain[k], name)
    decreases k - i
  {
    if i < k {
      NamedFromFirstMember(r, source, chain, i + 1, k, name);
    }
  }

  /** A name no type in the chain has gives null, and no field. */
  lemma {:induction false} NamedFromNoMember<V, T, F>(r: Reflection<V, T, F>, source: V, chain: seq<T>, i: nat, name: string)
    requires i <= |chain| && NoMemberBetween(r, chain, i, |chain|, name)
    ensures NamedFrom(r, source, chain, i, name) == Lookup(W.None, W.None)
    decreases |chain| - i
  {
    if i < |chain| {
      NamedFromNoMember(r, source, chain, i + 1, name);
    }
  }

  /** A field is reported exactly when the value was read from one, found in the chain. */
  lemma {:induction false} NamedFromField<V, T, F>(r: Reflection<V, T, F>, source: V, chain: seq<T>, i: nat, name: string)
    requires i <= |chain|
    ensures var l := NamedFrom(r, source, chain, i, name);
      l.field.Some? ==> l.value == r.fieldValue(l.field.value, source)
                        && exists k :: i <= k < |chain| && r.getField(chain[k], name) == l.field
    decreases |chain| - i
  {
    if i < |chain| && !HasMember(r, chain[i], name) {
      NamedFromField(r, source, chain, i + 1, name);
    }
  }

  /** GetValue_Imp(source, name): walks the type and its base types. */
  method GetValueNamed<V, T, F>(r: Reflection<V, T, F>, source: W.Option<V>, name: string)
    returns (value: W.Option<V>, fieldInfo: W.Option<F>)
    ensures Lookup(value, fieldInfo) == NamedLookup(r, source, name)
  {
    if source.None? {
      return W.None, W.None;
    }
    var chain := r.typeChain(source.value);
    var i := 0;
    while i < |chain|
      invariant 0 <= i <= |chain|
      invariant NamedFrom(r, source.value, chain, i, name) == NamedFrom(r, source.value, chain, 0, name)
    {
      var f := r.getField(chain[i], name);
      if f.Some? {
        return r.fieldValue(f.value, source.value), f;
      }
      if r.hasProperty(chain[i], name) {
        return r.propertyValue(chain[i], name, source.value), W.None;
      }
      i := i + 1;
    }
    return W.None, W.None;
  }

  /**
   * GetValue_Imp(source, name, index): element `index` of the member's
   * enumeration, or null when the member is not enumerable or too short.
   * A negative index reads Current before the first MoveNext, which throws.
   */
  function IndexedLookup<V, T, F>(r: Reflection<V, T, F>, source: W.Option<V>, name: string, index: int)
    : (res: W.Result<Lookup<V, F>, PathError>)
    ensures res.Success? ==> res.value.field == NamedLookup(r, source, name).field
    ensures res.Failure? <==>
      index < 0 && NamedLookup(r, source, name).value.Some? && r.items(NamedLookup(r, source, name).value.value).Some?
  {
    var named := NamedLookup(r, source, name);
    var items := if named.value.Some? then r.items(named.value.value) else W.None;
    if items.None? then W.Success(Lookup(W.None, named.field))
    else if index < 0 then W.Failure(EnumerationNotStarted)
    else if index < |items.value| then W.Success(Lookup(items.value[index], named.field))
    else W.Success(Lookup(W.None, named.field))
  }

  method GetValueIndexed<V, T, F>(r: Reflection<V, T, F>, source: W.Option<V>, name: string, index: int)
    returns (res: W.Result<Lookup<V, F>, PathError>)
    ensures res == IndexedLookup(r, source, name, index)
  {
    var value, info := GetValueNamed(r, source, name);
    var items := if value.Some? then r.items(value.value) else W.None;
    if items.None? {
      return W.Success(Lookup(W.None, info));
    }
    var list := items.value;
    var position := -1;  // the enumerator's position: before the first element
    var i := 0;
    while i <= index
      invariant 0 <= i && position == i - 1 && position < |list|
      invariant i <= if index >= 0 then index + 1 else 0
      decreases index - i
    {
      if position + 1 == |list| {
        return W.Success(Lookup(W.None, info));  // MoveNext returned false
      }
      position := position + 1;
      i := i + 1;
    }
    if position < 0 {
      return W.Failure(EnumerationNotStarted);
    }
    return W.Success(Lookup(list[position], info));
  }

  /** One element of a path applied to the current object. */
  function Step<V, T, F>(r: Reflection<V, T, F>, obj: W.Option<V>, seg: Segment): W.Result<Lookup<V, F>, PathError>
  {
    match seg
    case Member(n) => W.Success(NamedLookup(r, obj, n))
    case Element(n, k) => IndexedLookup(r, obj, n, k)
  }

  /**
   * GetObjectFromPath from element `i` on: each element is parsed, then
   * looked up on the result of the previous one; the field reported is the
   * last lookup's.
   */
  function ResolveFrom<V, T, F>(r: Reflection<V, T, F>, obj: W.Option<V>, field: W.Option<F>, elements: seq<string>, i: nat)
    : W.Result<Lookup<V, F>, PathError>
    requires i <= |elements|
    decreases |elements| - i
  {
    if i == |elements| then W.Success(Lookup(obj, field))
    else
      match ParseSegment(elements[i])
      case Failure(e) => W.Failure(ParseFailed(e))
      case Success(seg) =>
        match Step(r, obj, seg)
        case Failure(e) => W.Failure(e)
        case Success(l) => ResolveFrom(r, l.value, l.field, elements, i + 1)
  }

  /** The walk of a chain of segments, each applied to the result of the previous one. */
  function Walk<V, T, F>(r: Reflection<V, T, F>, obj: W.Option<V>, field: W.Option<F>, segs: seq<Segment>)
    : W.Result<Lookup<V, F>, PathError>
    decreases |segs|
  {
    if segs == [] then W.Success(Lookup(obj, field))
    else
      match Step(r, obj, segs[0])
      case Failure(e) => W.Failure(e)
      case Success(l) => Walk(r, l.value, l.field, segs[1..])
  }

  method GetObjectFromPath<V, T, F>(r: Reflection<V, T, F>, target: W.Option<V>, path: string)
    returns (res: W.Result<Lookup<V, F>, PathError>)
    ensures res == ResolveFrom(r, target, W.None, Split(path, '.'), 0)
  {
    var elements := Split(path, '.');
    var obj, info := target, W.None;
    for i := 0 to |elements|
      invariant ResolveFrom(r, obj, info, elements, i) == ResolveFrom(r, target, W.None, elements, 0)
    {
      var seg := ParseSegment(elements[i]);
      if seg.Failure? {
        return W.Failure(ParseFailed(seg.error));
      }
      match seg.value
      case Member(n) =>
        obj, info := GetValueNamed(r, obj, n);
      case Element(n, k) =>
        var found := GetValueIndexed(r, obj, n, k);
        if found.Failure? {
          return W.Failure(found.error);
        }
        obj, info := found.value.value, found.value.field;
    }
    return W.Success(Lookup(obj, info));
  }

  /** GetObjectFromProperty: a null property gives the default value and no field. */
  method GetObjectFromProperty<V, T, F>(r: Reflection<V, T, F>, prop: W.Option<SerializedProperty<V>>)
    returns (res: W.Result<Lookup<V, F>, PathError>)
    ensures prop.None? ==> res == W.Success(Lookup(W.None, W.None))
    ensures prop.Some? ==>
      res == ResolveFrom(r, prop.value.targetObject, W.None, Split(RewritePath(prop.value.propertyPath), '.'), 0)
  {
    if prop.None? {
      return W.Success(Lookup(W.None, W.None));
    }
    var path := Replace(prop.value.propertyPath, ".Array.data[", "[");
    res := GetObjectFromPath(r, prop.value.targetObject, path);
  }

  lemma {:induction false} ResolveParsed<V, T, F>(r: Reflection<V, T, F>, obj: W.Option<V>, field: W.Option<F>,
                                                 elements: seq<string>, segs: seq<Segment>, i: nat)
    requires i <= |elements| == |segs|
    requires forall j :: 0 <= j < |segs| ==> ParseSegment(elements[j]) == W.Success(segs[j])
    ensures ResolveFrom(r, obj, field, elements, i) == Walk(r, obj, field, segs[i..])
    decreases |elements| - i
  {
    if i < |elements| {
      assert segs[i..][0] == segs[i] && segs[i..][1..] == segs[i + 1..];
      match Step(r, obj, segs[i])
      case Failure(e) =>
      case Success(l) => ResolveParsed(r, l.value, l.field, elements, segs, i + 1);
    }
  }

  /**
   * For the path Unity writes for a chain of members and list elements,
   * GetObjectFromProperty walks exactly that chain from the target object.
   */
  lemma PropertyWalksUnityPath<V, T, F>(r: Reflection<V, T, F>, target: W.Option<V>, segs: seq<Segment>)
    requires |segs| >= 1 && AllPathSegments(segs)
    ensures ResolveFrom(r, target, W.None, Split(RewritePath(UnityPath(segs)), '.'), 0) == Walk(r, target, W.None, segs)
  {
    ReadUnityPath(segs);
    ResolveParsed(r, target, W.None, Split(RewritePath(UnityPath(segs)), '.'), segs, 0);
    assert segs[0..] == segs;
  }
}
