/** Building native vectors and maps from host arrays and hashes
    (vectorFromArray, MapFromHash, UnorderedMapFromHash) and the
    From_Ruby<std::vector>, From_Ruby<std::map> and
    From_Ruby<std::unordered_map> dispatch on the kind of host value. */
module ContainerConversions {
  import opened Wrappers
  import opened Host

  // ------------------------------------------------------------ host arrays

  /** Element-wise conversion of a host array: the first element whose
      conversion raises stops the whole conversion with that error. */
  function ArrayToVector<T>(elements: seq<HostValue>, c: Converter<T>): (r: Result<seq<T>>)
    ensures r.Ok? <==> forall i :: 0 <= i < |elements| ==> c.fromHost(elements[i]).Ok?
    ensures r.Ok? ==> (|r.value| == |elements| &&
      forall i :: 0 <= i < |elements| ==> c.fromHost(elements[i]) == Ok(r.value[i]))
    ensures r.Err? ==> (exists i :: 0 <= i < |elements| && c.fromHost(elements[i]) == Err(r.error) &&
                          (forall j :: 0 <= j < i ==> c.fromHost(elements[j]).Ok?))
  {
    if elements == [] then Ok([])
    else match c.fromHost(elements[0])
      case Err(e) => Err(e)
      case Ok(x) =>
        match ArrayToVector(elements[1..], c)
        case Err(e) =>
          assert forall i :: 1 <= i < |elements| ==> elements[i] == elements[1..][i - 1];
          Err(e)
        case Ok(xs) =>
          assert forall i :: 1 <= i < |elements| ==> elements[i] == elements[1..][i - 1];
          Ok([x] + xs)
  }

  /** vectorFromArray: allocate `length` default-constructed elements (each
      `fill`), then overwrite slot i with the conversion of host element i. */
  method VectorFromArray<T>(elements: seq<HostValue>, c: Converter<T>, fill: T) returns (r: Result<seq<T>>)
    ensures r == ArrayToVector(elements, c)
  {
    var result := new T[|elements|](_ => fill);
    var i := 0;
    while i < |elements|
      invariant 0 <= i <= |elements|
      invariant forall j :: 0 <= j < i ==> c.fromHost(elements[j]) == Ok(result[j])
    {
      var x := c.fromHost(elements[i]);
      if x.Err? {
        return Err(x.error);
      }
      result[i] := x.value;
      i := i + 1;
    }
    var spec := ArrayToVector(elements, c);
    assert spec.Ok? && spec.value == result[..] by {
      forall j | 0 <= j < |elements| ensures spec.value[j] == result[j] {
        assert Ok(spec.value[j]) == c.fromHost(elements[j]) == Ok(result[j]);
      }
    }
    return Ok(result[..]);
  }

  /** A host array made of converted native values converts back to them. */
  lemma ArrayRoundTrip<T>(xs: seq<T>, c: Converter<T>)
    requires forall i :: 0 <= i < |xs| ==> c.fromHost(c.toHost(xs[i])) == Ok(xs[i])
    ensures ArrayToVector(seq(|xs|, i requires 0 <= i < |xs| => c.toHost(xs[i])), c) == Ok(xs)
  {
    var r := ArrayToVector(seq(|xs|, i requires 0 <= i < |xs| => c.toHost(xs[i])), c);
    assert r.Ok?;
    assert r.value == xs;
  }

  // ------------------------------------------------------------- host hashes

  /** MapFromHash's specification: the entries are visited in hash order and
      each is stored with `result[key] = value`, so a later entry whose key
      converts to the same native key overwrites an earlier one. C++17
      evaluates the right operand of `=` first, so the value is converted
      before the key. The first conversion that raises stops the loop. */
  function HashToMap<K, V>(entries: seq<(HostValue, HostValue)>, kc: Converter<K>, vc: Converter<V>, acc: map<K, V>): (r: Result<map<K, V>>)
    decreases |entries|
    ensures r.Ok? <==> AllEntriesConvert(entries, kc, vc)
    ensures r.Err? ==> (exists i :: 0 <= i < |entries| && EntryError(entries[i], kc, vc) == Some(r.error) &&
                          (forall j :: 0 <= j < i ==> EntryError(entries[j], kc, vc).None?))
  {
    if entries == [] then Ok(acc)
    else match vc.fromHost(entries[0].1)
      case Err(e) => Err(e)
      case Ok(v) =>
        match kc.fromHost(entries[0].0)
        case Err(e) => Err(e)
        case Ok(k) =>
          assert forall i :: 1 <= i < |entries| ==> entries[i] == entries[1..][i - 1];
          HashToMap(entries[1..], kc, vc, acc[k := v])
  }

  /** Every key and every value of the hash converts. */
  ghost predicate AllEntriesConvert<K, V>(entries: seq<(HostValue, HostValue)>, kc: Converter<K>, vc: Converter<V>)
  {
    forall i :: 0 <= i < |entries| ==> kc.fromHost(entries[i].0).Ok? && vc.fromHost(entries[i].1).Ok?
  }

  /** The error one hash entry raises, if any: its value is converted
      before its key. */
  function EntryError<K, V>(entry: (HostValue, HostValue), kc: Converter<K>, vc: Converter<V>): (r: Option<Error>)
    ensures r.None? <==> kc.fromHost(entry.0).Ok? && vc.fromHost(entry.1).Ok?
    ensures vc.fromHost(entry.1).Err? ==> r == Some(vc.fromHost(entry.1).error)
  {
    if vc.fromHost(entry.1).Err? then Some(vc.fromHost(entry.1).error)
    else if kc.fromHost(entry.0).Err? then Some(kc.fromHost(entry.0).error)
    else None
  }

  /** MapFromHash / UnorderedMapFromHash: fill a fresh map entry by entry. */
  method MapFromHash<K, V>(entries: seq<(HostValue, HostValue)>, kc: Converter<K>, vc: Converter<V>) returns (r: Result<map<K, V>>)
    ensures r == HashToMap(entries, kc, vc, map[])
  {
    var result: map<K, V> := map[];
    var i := 0;
    while i < |entries|
      invariant 0 <= i <= |entries|
      invariant HashToMap(entries, kc, vc, map[]) == HashToMap(entries[i..], kc, vc, result)
    {
      var value := vc.fromHost(entries[i].1);
      if value.Err? {
        return Err(value.error);
      }
      var key := kc.fromHost(entries[i].0);
      if key.Err? {
        return Err(key.error);
      }
      assert entries[i..][1..] == entries[i + 1..];
      result := result[key.value := value.value];
      i := i + 1;
    }
    return Ok(result);
  }

  /** When every entry converts, the hash conversion succeeds; its keys are
      the earlier keys plus the converted keys; each converted key maps to
      the value of the LAST entry with that key; earlier keys not in the hash
      keep their values. */
  lemma {:induction false} HashToMapContents<K, V>(entries: seq<(HostValue, HostValue)>, kc: Converter<K>, vc: Converter<V>, acc: map<K, V>)
    requires AllEntriesConvert(entries, kc, vc)
    ensures var r := HashToMap(entries, kc, vc, acc);
      && r.Ok?
      && r.value.Keys == acc.Keys + (set i | 0 <= i < |entries| :: kc.fromHost(entries[i].0).value)
      && (forall i :: 0 <= i < |entries| &&
            (forall j :: i < j < |entries| ==> kc.fromHost(entries[j].0) != kc.fromHost(entries[i].0))
            ==> r.value[kc.fromHost(entries[i].0).value] == vc.fromHost(entries[i].1).value)
      && (forall k :: k in acc && (forall i :: 0 <= i < |entries| ==> kc.fromHost(entries[i].0) != Ok(k))
            ==> r.value[k] == acc[k])
    decreases |entries|
  {
    if entries != [] {
      var k := kc.fromHost(entries[0].0).value;
      var v := vc.fromHost(entries[0].1).value;
      var rest := entries[1..];
      assert forall i :: 1 <= i < |entries| ==> entries[i] == rest[i - 1];
      HashToMapContents(rest, kc, vc, acc[k := v]);
      var r := HashToMap(entries, kc, vc, acc);
      assert r == HashToMap(rest, kc, vc, acc[k := v]);
      ConvertedKeysSplit(entries, kc);
      forall i | 0 <= i < |entries| &&
          (forall j :: i < j < |entries| ==> kc.fromHost(entries[j].0) != kc.fromHost(entries[i].0))
        ensures r.value[kc.fromHost(entries[i].0).value] == vc.fromHost(entries[i].1).value
      {
        if i == 0 {
          forall j | 0 <= j < |rest| ensures kc.fromHost(rest[j].0) != Ok(k) {
            assert rest[j] == entries[j + 1];
          }
        } else {
          forall j | i - 1 < j < |rest| ensures kc.fromHost(rest[j].0) != kc.fromHost(rest[i - 1].0) {
            assert rest[j] == entries[j + 1];
          }
        }
      }
      forall x | x in acc && (forall i :: 0 <= i < |entries| ==> kc.fromHost(entries[i].0) != Ok(x))
        ensures r.value[x] == acc[x]
      {
        assert kc.fromHost(entries[0].0) != Ok(x);
        forall i | 0 <= i < |rest| ensures kc.fromHost(rest[i].0) != Ok(x) {
          assert rest[i] == entries[i + 1];
        }
      }
    }
  }

  /** The converted keys of a hash are its first converted key and those
      of the remaining entries. */
  lemma ConvertedKeysSplit<K>(entries: seq<(HostValue, HostValue)>, kc: Converter<K>)
    requires entries != []
    requires forall i :: 0 <= i < |entries| ==> kc.fromHost(entries[i].0).Ok?
    ensures (set i | 0 <= i < |entries| :: kc.fromHost(entries[i].0).value) ==
      {kc.fromHost(entries[0].0).value} + (set i | 0 <= i < |entries[1..]| :: kc.fromHost(entries[1..][i].0).value)
  {
    var rest := entries[1..];
    var keys := set i | 0 <= i < |entries| :: kc.fromHost(entries[i].0).value;
    var restKeys := set i | 0 <= i < |rest| :: kc.fromHost(rest[i].0).value;
    forall x | x in keys ensures x in {kc.fromHost(entries[0].0).value} + restKeys {
      var i :| 0 <= i < |entries| && kc.fromHost(entries[i].0).value == x;
      if i > 0 { assert kc.fromHost(rest[i - 1].0).value == x; }
    }
    forall x | x in restKeys ensures x in keys {
      var i :| 0 <= i < |rest| && kc.fromHost(rest[i].0).value == x;
      assert kc.fromHost(entries[i + 1].0).value == x;
    }
  }

  /** Native map entries listed once each, rendered as a host hash. */
  function HashOf<K, V>(ks: seq<K>, m: map<K, V>, kc: Converter<K>, vc: Converter<V>): seq<(HostValue, HostValue)>
    requires forall k :: k in ks ==> k in m
  {
    seq(|ks|, i requires 0 <= i < |ks| => (kc.toHost(ks[i]), vc.toHost(m[ks[i]])))
  }

  /** A native map rendered as a host hash (keys in any order, each once)
      converts back to the same map when keys and values round-trip. */
  lemma {:induction false} HashRoundTrip<K, V>(ks: seq<K>, m: map<K, V>, kc: Converter<K>, vc: Converter<V>, acc: map<K, V>)
    requires forall i, j :: 0 <= i < j < |ks| ==> ks[i] != ks[j]
    requires forall k :: k in ks ==> k in m
    requires forall k :: k in ks ==> kc.fromHost(kc.toHost(k)) == Ok(k) && vc.fromHost(vc.toHost(m[k])) == Ok(m[k])
    ensures HashToMap(HashOf(ks, m, kc, vc), kc, vc, acc) == Ok(acc + (map k | k in ks :: m[k]))
    decreases |ks|
  {
    var h := HashOf(ks, m, kc, vc);
    if ks == [] {
      assert acc + (map k | k in ks :: m[k]) == acc;
    } else {
      var k := ks[0];
      var rest := ks[1..];
      assert h[0] == (kc.toHost(k), vc.toHost(m[k]));
      assert HashOf(rest, m, kc, vc) == h[1..];
      assert HashToMap(h, kc, vc, acc) == HashToMap(h[1..], kc, vc, acc[k := m[k]]);
      DistinctTail(ks);
      HashRoundTrip(rest, m, kc, vc, acc[k := m[k]]);
      var tail := map x | x in rest :: m[x];
      var whole := map x | x in ks :: m[x];
      assert ks == [k] + rest;
      assert whole == tail[k := m[k]];
      UpdateThenMerge(acc, tail, k, m[k]);
    }
  }

  /** In a list without repetitions, the head does not occur in the tail,
      and the tail has no repetitions either. */
  lemma DistinctTail<K>(ks: seq<K>)
    requires ks != []
    requires forall i, j :: 0 <= i < j < |ks| ==> ks[i] != ks[j]
    ensures ks[0] !in ks[1..]
    ensures forall i, j :: 0 <= i < j < |ks[1..]| ==> ks[1..][i] != ks[1..][j]
  {
    var rest := ks[1..];
    forall i | 0 <= i < |rest| ensures rest[i] != ks[0] {
      assert rest[i] == ks[i + 1];
    }
    forall i, j | 0 <= i < j < |rest| ensures rest[i] != rest[j] {
      assert rest[i] == ks[i + 1] && rest[j] == ks[j + 1];
    }
  }

  /** Storing k before merging entries that do not mention k is the same as
      merging them with k stored among them. */
  lemma UpdateThenMerge<K, V>(acc: map<K, V>, tail: map<K, V>, k: K, v: V)
    requires k !in tail
    ensures acc[k := v] + tail == acc + tail[k := v]
  {
  }

  /** The round trip for a whole map: every key listed once. */
  lemma MapRoundTrip<K, V>(ks: seq<K>, m: map<K, V>, kc: Converter<K>, vc: Converter<V>)
    requires forall i, j :: 0 <= i < j < |ks| ==> ks[i] != ks[j]
    requires forall k :: k in ks <==> k in m
    requires forall k :: k in m ==> kc.fromHost(kc.toHost(k)) == Ok(k) && vc.fromHost(vc.toHost(m[k])) == Ok(m[k])
    ensures HashToMap(HashOf(ks, m, kc, vc), kc, vc, map[]) == Ok(m)
  {
    HashRoundTrip(ks, m, kc, vc, map[]);
    assert map[] + (map k | k in ks :: m[k]) == m;
  }

  // ---------------------------------------------------------------- dispatch

  /** Which From_Ruby specialisation is used: for the container itself, for
      a reference to it, or for a pointer to it. */
  datatype Form = ByValue | ByReference | ByPointer

  /** From_Ruby<std::vector<T>>::convert (and its & and * forms). A wrapped
      object is unwrapped (`unwrap`, Data_Object::from_ruby); an array is
      converted element-wise when T is default-constructible; otherwise an
      array falls through to the nil case, which yields the argument's
      default value when one is configured (the * form has no nil case);
      everything else raises TypeError. */
  function VectorFromHost<T>(value: HostValue, form: Form, c: Converter<T>, defaultConstructible: bool,
                             default: Option<seq<T>>, unwrap: nat -> Result<seq<T>>): (r: Result<seq<T>>)
    ensures r.Ok? ==> value.Data? || value.Array? || value.Nil?
    ensures value.Data? ==> r == unwrap(value.handle)
    ensures value.Nil? && (default.None? || form == ByPointer) ==> r == Err(TypeError("std::vector"))
    ensures value.Array? && !defaultConstructible && r.Ok? ==> form != ByPointer && default.Some? && r == Ok(default.value)
    ensures value.Array? && defaultConstructible ==> r == ArrayToVector(value.elements, c)
    ensures form != ByPointer && default.Some? && (value.Nil? || (value.Array? && !defaultConstructible))
      ==> r == Ok(default.value)
    ensures (default.None? || form == ByPointer) && (value.Nil? || (value.Array? && !defaultConstructible))
      ==> r == Err(TypeError("std::vector"))
    ensures !(value.Data? || value.Array? || value.Nil?) ==> r == Err(TypeError("std::vector"))
  {
    if value.Data? then unwrap(value.handle)
    else if value.Array? && defaultConstructible then ArrayToVector(value.elements, c)
    else if (value.Array? || value.Nil?) && form != ByPointer && default.Some? then Ok(default.value)
    else Err(TypeError("std::vector"))
  }

  /** A host array of converted elements converts back to the vector. */
  lemma VectorArrayRoundTrip<T>(xs: seq<T>, form: Form, c: Converter<T>, default: Option<seq<T>>, unwrap: nat -> Result<seq<T>>)
    requires forall i :: 0 <= i < |xs| ==> c.fromHost(c.toHost(xs[i])) == Ok(xs[i])
    ensures VectorFromHost(Array(seq(|xs|, i requires 0 <= i < |xs| => c.toHost(xs[i]))), form, c, true, default, unwrap) == Ok(xs)
  {
    ArrayRoundTrip(xs, c);
  }

  /** From_Ruby<std::map<K, V>> and From_Ruby<std::unordered_map<K, V>>
      (and their & and * forms), which dispatch identically. A hash is
      converted entry by entry when the gate holds: V default-constructible
      for the value and * forms, the map type itself (always) for the & form;
      otherwise as for vectors. `name` is the container named in the
      TypeError message. */
  function MapFromHost<K, V>(value: HostValue, form: Form, name: string, kc: Converter<K>, vc: Converter<V>,
                             mappedDefaultConstructible: bool, default: Option<map<K, V>>,
                             unwrap: nat -> Result<map<K, V>>): (r: Result<map<K, V>>)
    ensures r.Ok? ==> value.Data? || value.Hash? || value.Nil?
    ensures value.Data? ==> r == unwrap(value.handle)
    ensures value.Nil? && (default.None? || form == ByPointer) ==> r == Err(TypeError(name))
    ensures value.Hash? && (form == ByReference || mappedDefaultConstructible) ==> r == HashToMap(value.entries, kc, vc, map[])
    ensures value.Hash? && !mappedDefaultConstructible && form == ByPointer ==> r == Err(TypeError(name))
    ensures form != ByPointer && default.Some? &&
      (value.Nil? || (value.Hash? && form != ByReference && !mappedDefaultConstructible))
      ==> r == Ok(default.value)
    ensures default.None? && (value.Nil? || (value.Hash? && form != ByReference && !mappedDefaultConstructible))
      ==> r == Err(TypeError(name))
    ensures !(value.Data? || value.Hash? || value.Nil?) ==> r == Err(TypeError(name))
  {
    var gate := form == ByReference || mappedDefaultConstructible;
    if value.Data? then unwrap(value.handle)
    else if value.Hash? && gate then HashToMap(value.entries, kc, vc, map[])
    else if (value.Hash? || value.Nil?) && form != ByPointer && default.Some? then Ok(default.value)
    else Err(TypeError(name))
  }

  /** A map rendered as a host hash (each key once) and passed for a map
      parameter gives back the map, whenever the form converts hashes. */
  lemma MapHashRoundTrip<K, V>(ks: seq<K>, m: map<K, V>, form: Form, name: string, kc: Converter<K>, vc: Converter<V>,
                               mappedDefaultConstructible: bool, default: Option<map<K, V>>,
                               unwrap: nat -> Result<map<K, V>>)
    requires forall i, j :: 0 <= i < j < |ks| ==> ks[i] != ks[j]
    requires forall k :: k in ks <==> k in m
    requires forall k :: k in m ==> kc.fromHost(kc.toHost(k)) == Ok(k) && vc.fromHost(vc.toHost(m[k])) == Ok(m[k])
    requires form == ByReference || mappedDefaultConstructible
    ensures MapFromHost(Hash(HashOf(ks, m, kc, vc)), form, name, kc, vc, mappedDefaultConstructible, default, unwrap) == Ok(m)
  {
    MapRoundTrip(ks, m, kc, vc);
  }
}
