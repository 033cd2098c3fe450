/** The std::map and std::unordered_map bindings (MapHelper and
    UnorderedMapHelper, which bind the same methods with the same bodies). */
module MapBinding {
  import opened Wrappers
  import opened Traits
  import opened Render

  /** ks lists every key of m exactly once: one traversal of the map. */
  ghost predicate IsKeyListing<K(!new), V>(ks: seq<K>, m: map<K, V>)
  {
    (forall i, j :: 0 <= i < j < |ks| ==> ks[i] != ks[j]) &&
    (forall k :: k in ks <==> k in m)
  }

  /** A traversal visits as many entries as the map holds. */
  lemma {:induction false} ListingLength<K(!new), V>(ks: seq<K>, m: map<K, V>)
    requires IsKeyListing(ks, m)
    ensures |ks| == |m|
    decreases |ks|
  {
    if ks == [] {
      assert m.Keys == {};
    } else {
      var m' := m - {ks[0]};
      forall k ensures k in ks[1..] <==> k in m' {
        if k in ks[1..] {
          var j :| 1 <= j < |ks| && ks[j] == k;
          assert ks[0] != ks[j];
        }
      }
      ListingLength(ks[1..], m');
      assert m'.Keys == m.Keys - {ks[0]};
    }
  }

  /** The mapped values met along a traversal. */
  function ValuesAlong<K, V>(ks: seq<K>, m: map<K, V>): (vs: seq<V>)
    requires forall k :: k in ks ==> k in m
    ensures |vs| == |ks| && forall i :: 0 <= i < |ks| ==> vs[i] == m[ks[i]]
  {
    seq(|ks|, i requires 0 <= i < |ks| => m[ks[i]])
  }

  /** The (key, value) pairs met along a traversal. */
  function EntriesAlong<K, V>(ks: seq<K>, m: map<K, V>): (es: seq<(K, V)>)
    requires forall k :: k in ks ==> k in m
    ensures |es| == |ks| && forall i :: 0 <= i < |ks| ==> es[i] == (ks[i], m[ks[i]])
  {
    seq(|ks|, i requires 0 <= i < |ks| => (ks[i], m[ks[i]]))
  }

  /** Map#to_s along a traversal: "{", then "key => value" per entry
      separated by ", ", then "}"; the placeholder when key or mapped type
      cannot be streamed. */
  function MapText<K, V>(ks: seq<K>, m: map<K, V>, showK: K -> string, showV: V -> string, printable: bool): (r: string)
    requires forall k :: k in ks ==> k in m
    ensures !printable ==> r == NotPrintable
    ensures printable ==> 2 <= |r| && r[0] == '{' && r[|r| - 1] == '}'
    ensures printable && ks == [] ==> r == "{}"
    ensures printable && ks != [] ==> showK(ks[0]) + " => " + showV(m[ks[0]]) <= r[1..]
  {
    if !printable then NotPrintable
    else
      var items := EntryTexts(ks, m, showK, showV);
      assert items != [] ==> items[0] <= Join(items) by {
        if items != [] { JoinStartsWithFirst(items); }
      }
      "{" + Join(items) + "}"
  }

  /** The "key => value" text of each entry along a traversal. */
  function EntryTexts<K, V>(ks: seq<K>, m: map<K, V>, showK: K -> string, showV: V -> string): (ts: seq<string>)
    requires forall k :: k in ks ==> k in m
    ensures |ts| == |ks| && forall i :: 0 <= i < |ks| ==> ts[i] == showK(ks[i]) + " => " + showV(m[ks[i]])
  {
    seq(|ks|, i requires 0 <= i < |ks| => showK(ks[i]) + " => " + showV(m[ks[i]]))
  }

  /** std::map or std::unordered_map; only the wording of the copy error
      differs between the two helpers. */
  datatype MapKind = OrderedMap | UnorderedMap

  function CopyError(kind: MapKind): Error
  {
    match kind
    case OrderedMap => NotCopyable("maps")
    case UnorderedMap => NotCopyable("unordered_maps")
  }

  /** A bound map: its entries, which helper bound it, and the traits of
      its key and mapped types. */
  class MapBinding<K(==,!new), V(==)> {
    var contents: map<K, V>
    const kind: MapKind
    const traits: ElementTraits

    constructor (kind: MapKind, traits: ElementTraits)
      ensures contents == map[] && this.kind == kind && this.traits == traits
    {
      contents := map[];
      this.kind := kind;
      this.traits := traits;
    }

    /** `[]`: the mapped value, absent (never an error) for a missing key. */
    function Get(key: K): (r: Option<V>)
      reads this
      ensures r.Some? <==> key in contents
      ensures r.Some? ==> r.value == contents[key]
    {
      if key in contents then Some(contents[key]) else None
    }

    /** `include?` / `has_key`. */
    function Includes(key: K): (r: bool)
      reads this
      ensures r <==> Get(key).Some?
    {
      key in contents
    }

    /** `value?` / `has_value`: whether some entry maps to `value`; always
      false when the mapped type has no operator==. */
    function HasValue(value: V): (r: bool)
      reads this
      ensures r <==> traits.comparable && exists k :: k in contents && contents[k] == value
    {
      traits.comparable && value in contents.Values
    }

    /** `keys`: one traversal of the map, collecting the keys. */
    method Keys() returns (ks: seq<K>)
      ensures IsKeyListing(ks, contents)
      ensures |ks| == |contents|
    {
      ks := [];
      var rest := contents.Keys;
      while rest != {}
        invariant rest <= contents.Keys
        invariant forall i, j :: 0 <= i < j < |ks| ==> ks[i] != ks[j]
        invariant forall k :: k in ks <==> k in contents && k !in rest
        decreases rest
      {
        var k :| k in rest;
        ks := ks + [k];
        rest := rest - {k};
      }
      ListingLength(ks, contents);
    }

    /** `values`: one traversal of the map, collecting the mapped values. */
    method Values() returns (vs: seq<V>)
      ensures exists ks :: IsKeyListing(ks, contents) && vs == ValuesAlong(ks, contents)
      ensures |vs| == |contents|
      ensures forall v :: v in vs <==> v in contents.Values
    {
      var ks := Keys();
      var m := contents;
      vs := CollectValues(ks, m);
      ValuesAlongListing(ks, m);
      assert IsKeyListing(ks, m) && vs == ValuesAlong(ks, m);
    }

    /** `each`: the (key, value) pairs handed to the block, one per step. */
    method Each() returns (yielded: seq<(K, V)>)
      ensures exists ks :: IsKeyListing(ks, contents) && yielded == EntriesAlong(ks, contents)
    {
      var ks := Keys();
      var m := contents;
      yielded := CollectEntries(ks, m);
      assert IsKeyListing(ks, m) && yielded == EntriesAlong(ks, m);
    }

    /** `delete`: remove the key and return what it mapped to; absent, with
      the map unchanged, for a missing key. */
    method Delete(key: K) returns (r: Option<V>)
      modifies this
      ensures key in old(contents) ==> r == Some(old(contents)[key]) && contents == old(contents) - {key}
      ensures key !in old(contents) ==> r.None? && contents == old(contents)
    {
      if key in contents {
        r := Some(contents[key]);
        contents := contents - {key};
      } else {
        r := None;
      }
    }

    /** `[]=` / `store`: map the key to the value (adding or replacing) and
      return the value. */
    method Store(key: K, value: V) returns (r: V)
      modifies this
      ensures contents == old(contents)[key := value] && r == value
    {
      contents := contents[key := value];
      r := value;
    }

    /** `clear`. */
    method Clear()
      modifies this
      ensures contents == map[]
    {
      contents := map[];
    }

    /** `copy`: an independent map with the same entries, or a runtime_error
      when the entry type is not copy-constructible. */
    method Copy() returns (r: Result<MapBinding<K, V>>)
      ensures traits.copyable ==> (r.Ok? && fresh(r.value) && r.value.contents == contents &&
        r.value.kind == kind && r.value.traits == traits)
      ensures !traits.copyable ==> r == Err(CopyError(kind))
    {
      if !traits.copyable {
        return Err(CopyError(kind));
      }
      var m := new MapBinding(kind, traits);
      m.contents := contents;
      return Ok(m);
    }

    /** `to_s`: one traversal, streaming "key => value" entries. */
    method ToS(showK: K -> string, showV: V -> string) returns (r: string)
      ensures exists ks :: IsKeyListing(ks, contents) && r == MapText(ks, contents, showK, showV, traits.printable)
    {
      var ks := Keys();
      var m := contents;
      if !traits.printable {
        r := NotPrintable;
      } else {
        r := StreamEntries(ks, m, showK, showV);
      }
      assert IsKeyListing(ks, m) && r == MapText(ks, m, showK, showV, traits.printable);
    }
  }

  /** The loop of `values`: append the mapped value of each key in turn. */
  method CollectValues<K, V>(ks: seq<K>, m: map<K, V>) returns (vs: seq<V>)
    requires forall k :: k in ks ==> k in m
    ensures vs == ValuesAlong(ks, m)
  {
    vs := [];
    var i := 0;
    while i < |ks|
      invariant 0 <= i <= |ks|
      invariant vs == ValuesAlong(ks[..i], m)
    {
      vs := vs + [m[ks[i]]];
      i := i + 1;
    }
    assert ks[..|ks|] == ks;
  }

  /** The loop of `each`: yield each key with its mapped value in turn. */
  method CollectEntries<K, V>(ks: seq<K>, m: map<K, V>) returns (yielded: seq<(K, V)>)
    requires forall k :: k in ks ==> k in m
    ensures yielded == EntriesAlong(ks, m)
  {
    yielded := [];
    var i := 0;
    while i < |ks|
      invariant 0 <= i <= |ks|
      invariant yielded == EntriesAlong(ks[..i], m)
    {
      yielded := yielded + [(ks[i], m[ks[i]])];
      i := i + 1;
    }
    assert ks[..|ks|] == ks;
  }

  /** Along a traversal the values met are exactly the map's values, one
      per entry. */
  lemma ValuesAlongListing<K(!new), V>(ks: seq<K>, m: map<K, V>)
    requires IsKeyListing(ks, m)
    ensures |ValuesAlong(ks, m)| == |m|
    ensures forall v :: v in ValuesAlong(ks, m) <==> v in m.Values
  {
    ListingLength(ks, m);
    var vs := ValuesAlong(ks, m);
    forall v | v in m.Values ensures v in vs {
      var k :| k in m && m[k] == v;
      var j :| 0 <= j < |ks| && ks[j] == k;
      assert vs[j] == v;
    }
  }

  /** The printable branch of `to_s`: stream "{", then each entry along the
      traversal with ", " before all but the first, then "}". */
  method StreamEntries<K, V>(ks: seq<K>, m: map<K, V>, showK: K -> string, showV: V -> string) returns (r: string)
    requires forall k :: k in ks ==> k in m
    ensures r == MapText(ks, m, showK, showV, true)
  {
    ghost var texts := EntryTexts(ks, m, showK, showV);
    var stream := "{";
    var i := 0;
    while i < |ks|
      invariant 0 <= i <= |ks|
      invariant stream == "{" + Join(texts[..i])
    {
      assert texts[..i + 1][..i] == texts[..i];
      var entry := showK(ks[i]) + " => " + showV(m[ks[i]]);
      if i == 0 {
        stream := stream + entry;
      } else {
        stream := stream + ", " + entry;
      }
      i := i + 1;
    }
    assert texts[..|ks|] == texts;
    r := stream + "}";
  }

  /** `store` then `[]` on the same key gives the stored value; every other
      key reads as before. */
  method StoreThenGet<K(==,!new), V(==)>(m: MapBinding<K, V>, key: K, value: V) returns (r: Option<V>)
    modifies m
    ensures r == Some(value)
    ensures forall k :: k != key ==> m.Get(k) == old(m.Get(k))
  {
    var _ := m.Store(key, value);
    r := m.Get(key);
  }

  /** `delete` of a key makes `[]` report it absent and leaves every other
      key as it was. */
  method DeleteThenGet<K(==,!new), V(==)>(m: MapBinding<K, V>, key: K) returns (r: Option<V>, removed: Option<V>)
    modifies m
    ensures removed == old(m.Get(key)) && r.None?
    ensures forall k :: k != key ==> m.Get(k) == old(m.Get(k))
  {
    removed := m.Delete(key);
    r := m.Get(key);
  }
}
