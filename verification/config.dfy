/** `deep_merge` of lib/config.js: the user's configuration is laid over
    the defaults. The merge walks its sources left to right and, for every
    property a `for ... in` loop visits, either recurses (the new value is
    a plain object or `null`: `typeof` says 'object' and it is not an
    array) or overwrites (everything else, arrays included). */
module Config {

  datatype Json =
    | JNull
    | JBool(b: bool)
    | JNum(n: int)
    | JStr(s: string)
    | JArr(elems: seq<Json>)
    | JObj(fields: map<string, Json>)

  /** The object `deep_merge` builds and returns. */
  type Obj = map<string, Json>

  /** `typeof v === 'object' && !Array.isArray(v)`: a plain object or null. */
  predicate ObjectLike(v: Json)
  {
    v.JObj? || v.JNull?
  }

  /** JavaScript truthiness, as used by `obj[prop] || {}`. */
  predicate Truthy(v: Json)
  {
    match v
    case JNull => false
    case JBool(b) => b
    case JNum(n) => n != 0
    case JStr(s) => s != ""
    case _ => true
  }

  function Digit(d: nat): char
    requires d < 10
  {
    ('0' as int + d) as char
  }

  /** The property name of index i of an array or string: i in decimal. */
  function IndexKey(i: nat): (k: string)
    ensures |k| > 0
  {
    if i < 10 then [Digit(i)] else IndexKey(i / 10) + [Digit(i % 10)]
  }

  function DigitValue(c: char): int
  {
    c as int - '0' as int
  }

  /** Reads a property name back as an index. */
  function ParseIndex(k: string): int
  {
    if |k| <= 1 then (if |k| == 1 then DigitValue(k[0]) else 0)
    else 10 * ParseIndex(k[..|k| - 1]) + DigitValue(k[|k| - 1])
  }

  /** The decimal name of an index reads back as that index, so different
      indices have different property names. */
  lemma {:induction false} ParseIndexKey(i: nat)
    ensures ParseIndex(IndexKey(i)) == i
  {
    if i >= 10 {
      var k := IndexKey(i);
      assert k[..|k| - 1] == IndexKey(i / 10);
      ParseIndexKey(i / 10);
    }
  }

  lemma IndexKeysParse()
    ensures forall i: nat :: ParseIndex(IndexKey(i)) == i
  {
    forall i: nat
      ensures ParseIndex(IndexKey(i)) == i
    {
      ParseIndexKey(i);
    }
  }

  /** A sequence keyed by the decimal names of its indices. */
  function Indexed<T>(a: seq<T>): (r: map<string, T>)
    ensures forall k :: k in r ==> r[k] in a
  {
    IndexKeysParse();
    map i | 0 <= i < |a| :: IndexKey(i) := a[i]
  }

  /** The characters of a string as one-character strings. */
  function Chars(s: string): (r: seq<Json>)
    ensures |r| == |s| && forall i :: 0 <= i < |s| ==> r[i] == JStr([s[i]])
  {
    seq(|s|, i requires 0 <= i < |s| => JStr([s[i]]))
  }

  /** The properties `for (prop in v)` visits, with `v[prop]`: the fields of
      an object, the indices of an array or of a string (whose values are
      one-character strings), and nothing for null, booleans and numbers. */
  function Props(v: Json): map<string, Json>
  {
    match v
    case JObj(m) => m
    case JArr(a) => Indexed(a)
    case JStr(s) => Indexed(Chars(s))
    case _ => map[]
  }

  /** `obj[prop] || {}`: the earlier value a nested merge starts from. */
  function Base(acc: Obj, k: string): Json
  {
    if k in acc && Truthy(acc[k]) then acc[k] else JObj(map[])
  }

  /** What `deep_merge` returns for a single source: every property the
      for-in loop visits, with objects and nulls rebuilt as fresh objects.
      `Copy(x)` is `deep_merge({}, x)` (see `CopyIsMergeIntoEmpty`). */
  function Copy(x: Json): Obj
    decreases x, 0
  {
    match x
    case JObj(m) => map k | k in m :: CopyValue(m[k])
    case JArr(a) => var ix := Indexed(a); map k | k in ix :: CopyValue(ix[k])
    case JStr(s) => Indexed(Chars(s))
    case _ => map[]
  }

  function CopyValue(v: Json): Json
    decreases v, 1
  {
    if ObjectLike(v) then JObj(Copy(v)) else v
  }

  /** One pass of the outer loop: source `src` laid over the object built
      so far. The properties of one source are distinct and each update
      reads only its own property, so the loop's order does not matter. */
  function Overlay(acc: Obj, src: Json): Obj
    decreases src, 0
  {
    match src
    case JObj(m) => acc + map k | k in m :: Assign(acc, k, m[k])
    case JArr(a) => var ix := Indexed(a); acc + map k | k in ix :: Assign(acc, k, ix[k])
    // a one-character string is not an object, so it is stored as is
    case JStr(s) => acc + Indexed(Chars(s))
    case _ => acc
  }

  /** The new value of `obj[prop]` when the current source holds `v`:
      `deep_merge(obj[prop] || {}, v)` for a plain object or null, `v`
      itself otherwise. The nested call first copies its first source into
      a fresh object, then lays `v` over it. */
  function Assign(acc: Obj, k: string, v: Json): Json
    decreases v, 1
  {
    if ObjectLike(v) then JObj(Overlay(Copy(Base(acc, k)), v)) else v
  }

  /** `deep_merge(...sources)`: the sources laid one after another over an
      empty object. The result has exactly the properties of the sources. */
  function DeepMerge(sources: seq<Json>): (r: Obj)
    ensures forall k :: k in r <==> exists i :: 0 <= i < |sources| && k in Props(sources[i])
  {
    if |sources| == 0 then map[]
    else
      var prev := DeepMerge(sources[..|sources| - 1]);
      OverlayKeysStep(sources, prev);
      Overlay(prev, sources[|sources| - 1])
  }

  /** Laying the last source over the merge of the others adds exactly its
      properties. */
  lemma OverlayKeysStep(sources: seq<Json>, prev: Obj)
    requires |sources| > 0
    requires forall k :: k in prev <==> exists i :: 0 <= i < |sources| - 1 && k in Props(sources[i])
    ensures var r := Overlay(prev, sources[|sources| - 1]);
      forall k :: k in r <==> exists i :: 0 <= i < |sources| && k in Props(sources[i])
  {
    OverlayProps(prev, sources[|sources| - 1]);
  }

  /** The keys of `Indexed(a)` are the names of the indices of `a`. */
  lemma IndexedAt<T>(a: seq<T>)
    ensures forall i :: 0 <= i < |a| ==> IndexKey(i) in Indexed(a) && Indexed(a)[IndexKey(i)] == a[i]
    ensures forall k :: k in Indexed(a) <==> exists i :: 0 <= i < |a| && IndexKey(i) == k
  {
    IndexKeysParse();
  }

  /** A pass adds exactly the properties of its source; each of them gets
      the value `Assign` computes from the object built so far, and every
      other property keeps its value. */
  lemma OverlayProps(acc: Obj, src: Json)
    ensures Overlay(acc, src).Keys == acc.Keys + Props(src).Keys
    ensures forall k :: k in Props(src) ==> Overlay(acc, src)[k] == Assign(acc, k, Props(src)[k])
    ensures forall k :: k in acc && k !in Props(src) ==> Overlay(acc, src)[k] == acc[k]
  {
  }

  /** A copy has the properties of its source, with objects and nulls copied. */
  lemma CopyProps(x: Json)
    ensures Copy(x).Keys == Props(x).Keys
    ensures forall k :: k in Props(x) ==> Copy(x)[k] == CopyValue(Props(x)[k])
  {
  }

  /** Merging a source into an empty object copies it: the nested call
      `deep_merge(base, v)` begins exactly as `Assign` says, with a copy of
      `base`. */
  lemma {:induction false} CopyIsMergeIntoEmpty(x: Json)
    ensures Overlay(map[], x) == Copy(x)
    decreases x, 0
  {
    OverlayProps(map[], x);
    CopyProps(x);
    match x
    case JObj(m) =>
      forall k | k in m
        ensures Assign(map[], k, m[k]) == CopyValue(m[k])
      {
        AssignIntoEmpty(k, m[k]);
      }
    case JArr(a) =>
      var ix := Indexed(a);
      forall k | k in ix
        ensures Assign(map[], k, ix[k]) == CopyValue(ix[k])
      {
        AssignIntoEmpty(k, ix[k]);
      }
    case _ =>
  }

  lemma {:induction false} AssignIntoEmpty(k: string, v: Json)
    ensures Assign(map[], k, v) == CopyValue(v)
    decreases v, 1
  {
    if ObjectLike(v) {
      assert Copy(Base(map[], k)) == map[];
      CopyIsMergeIntoEmpty(v);
    }
  }

  /** `Assign` is the two-source call `deep_merge(obj[prop] || {}, v)`. */
  lemma NestedMergeIsTwoSourceMerge(acc: Obj, k: string, v: Json)
    requires ObjectLike(v)
    ensures Assign(acc, k, v) == JObj(DeepMerge([Base(acc, k), v]))
  {
    var b := Base(acc, k);
    var sources := [b, v];
    assert sources[..1] == [b];
    assert [b][..0] == [];
    assert DeepMerge([b]) == Overlay(map[], b);
    assert DeepMerge(sources) == Overlay(DeepMerge([b]), v);
    CopyIsMergeIntoEmpty(b);
  }

  /** Merging one source copies it. */
  lemma SingleSourceIsCopy(x: Json)
    ensures DeepMerge([x]) == Copy(x)
  {
    assert [x][..0] == [];
    CopyIsMergeIntoEmpty(x);
  }

  /** Every property of every source appears in the result, and nothing else. */
  lemma {:induction false} DeepMergeKeys(sources: seq<Json>)
    ensures forall k :: k in DeepMerge(sources) <==>
      exists i :: 0 <= i < |sources| && k in Props(sources[i])
  {
    if |sources| > 0 {
      var init := sources[..|sources| - 1];
      DeepMergeKeys(init);
      OverlayProps(DeepMerge(init), sources[|sources| - 1]);
      forall k | k in DeepMerge(sources)
        ensures exists i :: 0 <= i < |sources| && k in Props(sources[i])
      {
        if k !in Props(sources[|sources| - 1]) {
          var i :| 0 <= i < |init| && k in Props(init[i]);
          assert sources[i] == init[i];
        }
      }
      forall k, i | 0 <= i < |sources| && k in Props(sources[i])
        ensures k in DeepMerge(sources)
      {
        if i < |init| {
          assert init[i] == sources[i];
        }
      }
    }
  }

  /** A property whose last defining source holds a primitive or an array
      ends up with exactly that value: arrays are replaced, never merged. */
  lemma {:induction false} LastSourceWins(sources: seq<Json>, j: nat, k: string)
    requires j < |sources| && k in Props(sources[j]) && !ObjectLike(Props(sources[j])[k])
    requires forall i :: j < i < |sources| ==> k !in Props(sources[i])
    ensures k in DeepMerge(sources) && DeepMerge(sources)[k] == Props(sources[j])[k]
  {
    var init := sources[..|sources| - 1];
    OverlayProps(DeepMerge(init), sources[|sources| - 1]);
    if j < |sources| - 1 {
      forall i | j < i < |init| ensures k !in Props(init[i]) {
        assert init[i] == sources[i];
      }
      assert init[j] == sources[j];
      LastSourceWins(init, j, k);
    }
  }

  /** No null survives in the objects of a merge result: a null source
      value goes down the object branch and becomes an object. Arrays are
      stored as they are and are not looked into. */
  predicate NullFree(v: Json)
  {
    match v
    case JObj(m) => forall k :: k in m ==> m[k] != JNull && NullFree(m[k])
    case _ => true
  }

  lemma {:induction false} CopyNullFree(x: Json)
    ensures NullFree(JObj(Copy(x)))
    decreases x
  {
    CopyProps(x);
    var c := Copy(x);
    forall k | k in c
      ensures c[k] != JNull && NullFree(c[k])
    {
      match x
      case JObj(m) =>
        if ObjectLike(m[k]) {
          CopyNullFree(m[k]);
        }
      case JArr(a) =>
        var v := Indexed(a)[k];
        if ObjectLike(v) {
          CopyNullFree(v);
        }
      case JStr(s) =>
        IndexedAt(Chars(s));
    }
  }

  lemma {:induction false} OverlayNullFree(acc: Obj, src: Json)
    requires NullFree(JObj(acc))
    ensures NullFree(JObj(Overlay(acc, src)))
    decreases src
  {
    OverlayProps(acc, src);
    var r := Overlay(acc, src);
    forall k | k in r
      ensures r[k] != JNull && NullFree(r[k])
    {
      if k in Props(src) {
        match src
        case JObj(m) =>
          if ObjectLike(m[k]) {
            CopyNullFree(Base(acc, k));
            OverlayNullFree(Copy(Base(acc, k)), m[k]);
          }
        case JArr(a) =>
          var v := Indexed(a)[k];
          if ObjectLike(v) {
            CopyNullFree(Base(acc, k));
            OverlayNullFree(Copy(Base(acc, k)), v);
          }
        case JStr(s) =>
          IndexedAt(Chars(s));
      }
    }
  }

  /** The merged configuration holds no null in any of its objects. */
  lemma {:induction false} DeepMergeNullFree(sources: seq<Json>)
    ensures NullFree(JObj(DeepMerge(sources)))
  {
    if |sources| > 0 {
      DeepMergeNullFree(sources[..|sources| - 1]);
      OverlayNullFree(DeepMerge(sources[..|sources| - 1]), sources[|sources| - 1]);
    }
  }

  /** Copying an object without nulls gives back its fields unchanged. */
  lemma {:induction false} CopyOfNullFree(x: Json)
    requires x.JObj? && NullFree(x)
    ensures Copy(x) == x.fields
  {
    var m := x.fields;
    forall k | k in m
      ensures CopyValue(m[k]) == m[k]
    {
      if m[k].JObj? {
        CopyOfNullFree(m[k]);
      }
    }
  }

  /** A later plain object is merged into an earlier one: the keys of both
      survive, later primitives and arrays win, earlier-only values are
      copied, and nested objects are merged the same way one level down. */
  lemma ObjectsMergeRecursively(acc: Obj, k: string, later: Obj)
    requires k in acc && acc[k].JObj?
    ensures var r := Assign(acc, k, JObj(later)); var earlier := acc[k].fields;
      && r.JObj?
      && r.fields.Keys == earlier.Keys + later.Keys
      && (forall k2 :: k2 in later && !ObjectLike(later[k2]) ==> r.fields[k2] == later[k2])
      && (forall k2 :: k2 in later && ObjectLike(later[k2]) ==>
            r.fields[k2] == JObj(DeepMerge([Base(Copy(acc[k]), k2), later[k2]])))
      && (forall k2 :: k2 in earlier && k2 !in later ==> r.fields[k2] == CopyValue(earlier[k2]))
  {
    var base := Copy(acc[k]);
    CopyProps(acc[k]);
    OverlayProps(base, JObj(later));
    forall k2 | k2 in later && ObjectLike(later[k2])
      ensures Assign(base, k2, later[k2]) == JObj(DeepMerge([Base(base, k2), later[k2]]))
    {
      NestedMergeIsTwoSourceMerge(base, k2, later[k2]);
    }
  }

  /** A null does not override an earlier object: over one the merge built
      (without nulls) it leaves that object as it was. It does replace any
      other earlier value: a truthy string, number, `true` or array becomes
      the object of its for-in properties, and with nothing or a falsy value
      before it, it becomes an empty object. */
  lemma NullDoesNotOverride(acc: Obj, k: string)
    ensures k in acc && acc[k].JObj? && NullFree(acc[k]) ==> Assign(acc, k, JNull) == acc[k]
    ensures k in acc && Truthy(acc[k]) ==> Assign(acc, k, JNull) == JObj(Copy(acc[k]))
    ensures k !in acc || !Truthy(acc[k]) ==> Assign(acc, k, JNull) == JObj(map[])
  {
    if k in acc && acc[k].JObj? && NullFree(acc[k]) {
      CopyOfNullFree(acc[k]);
    }
  }

  /** When the last source sets a property to null, the property keeps the
      object the earlier sources built for it. */
  lemma NullKeepsMergedObject(sources: seq<Json>, k: string)
    requires |sources| > 0
    requires var last := sources[|sources| - 1]; k in Props(last) && Props(last)[k] == JNull
    requires var before := DeepMerge(sources[..|sources| - 1]); k in before && before[k].JObj?
    ensures DeepMerge(sources)[k] == DeepMerge(sources[..|sources| - 1])[k]
  {
    var before := DeepMerge(sources[..|sources| - 1]);
    DeepMergeNullFree(sources[..|sources| - 1]);
    OverlayProps(before, sources[|sources| - 1]);
    NullDoesNotOverride(before, k);
  }

  /** An earlier array met by a later object is not replaced: the for-in
      loop turns its elements into properties "0", "1", ... of the merged
      object, next to the later object's own properties. */
  lemma EarlierArrayBecomesIndexed(acc: Obj, k: string, a: seq<Json>, later: Obj)
    requires k in acc && acc[k] == JArr(a)
    ensures var r := Assign(acc, k, JObj(later));
      r.JObj? && r.fields.Keys == Indexed(a).Keys + later.Keys
  {
    assert Base(acc, k) == JArr(a);
    var c := Copy(JArr(a));
    CopyProps(JArr(a));
    assert c.Keys == Indexed(a).Keys;
    OverlayProps(c, JObj(later));
    assert Assign(acc, k, JObj(later)) == JObj(Overlay(c, JObj(later)));
  }

  /** For defaults without nulls, an empty user configuration (`{}`, what the
      loader falls back to when the file does not parse) gives back the
      defaults. */
  lemma MergeWithEmptyCustom(defaults: Obj)
    requires NullFree(JObj(defaults))
    ensures DeepMerge([JObj(defaults), JObj(map[])]) == defaults
  {
    var sources := [JObj(defaults), JObj(map[])];
    assert sources[..1] == [JObj(defaults)];
    SingleSourceIsCopy(JObj(defaults));
    CopyOfNullFree(JObj(defaults));
    OverlayProps(defaults, JObj(map[]));
  }

  /** Laying a null-free object over itself changes nothing. */
  lemma {:induction false} OverlaySelf(x: Json)
    requires x.JObj? && NullFree(x)
    ensures Overlay(x.fields, x) == x.fields
    decreases x
  {
    var m := x.fields;
    OverlayProps(m, x);
    forall k | k in m
      ensures Assign(m, k, m[k]) == m[k]
    {
      var v := m[k];
      if v.JObj? {
        assert Base(m, k) == v;
        CopyOfNullFree(v);
        OverlaySelf(v);
      }
    }
  }

  /** A configuration file that was just written from the defaults gives
      the defaults back when merged over them. */
  lemma MergeWithItself(defaults: Obj)
    requires NullFree(JObj(defaults))
    ensures DeepMerge([JObj(defaults), JObj(defaults)]) == defaults
  {
    var sources := [JObj(defaults), JObj(defaults)];
    assert sources[..1] == [JObj(defaults)];
    SingleSourceIsCopy(JObj(defaults));
    CopyOfNullFree(JObj(defaults));
    OverlaySelf(JObj(defaults));
  }
}
