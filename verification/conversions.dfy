/** Converters for std::optional, std::monostate and std::variant. */
module Conversions {
  import opened Wrappers
  import opened Host

  // ---------------------------------------------------------------- optional

  /** To_Ruby<std::optional<T>>: an absent value becomes nil, a present one
      is converted by T's converter. */
  function OptionalToHost<T>(c: Converter<T>, o: Option<T>): (r: HostValue)
    ensures r == Nil <==> o.None? || c.toHost(o.value) == Nil
    ensures o.Some? ==> r == c.toHost(o.value)
  {
    match o
    case None => Nil
    case Some(x) => c.toHost(x)
  }

  /** From_Ruby<std::optional<T>>: nil becomes the absent value, anything
      else is handed to T's converter (whose errors propagate). Absent on
      the native side corresponds exactly to nil on the host side. */
  function OptionalFromHost<T>(c: Converter<T>, v: HostValue): (r: Result<Option<T>>)
    ensures r == Ok(None) <==> v == Nil
    ensures v != Nil ==> (r.Ok? <==> c.fromHost(v).Ok?)
    ensures r.Ok? && r.value.Some? ==> c.fromHost(v) == Ok(r.value.value)
    ensures r.Err? ==> c.fromHost(v) == Err(r.error)
  {
    if v == Nil then Ok(None)
    else match c.fromHost(v)
      case Ok(x) => Ok(Some(x))
      case Err(e) => Err(e)
  }

  /** An optional survives the trip to the host and back when its payload
      does and the payload is not itself rendered as nil. */
  lemma OptionalRoundTrip<T>(c: Converter<T>, o: Option<T>)
    requires o.Some? ==> c.fromHost(c.toHost(o.value)) == Ok(o.value) && c.toHost(o.value) != Nil
    ensures OptionalFromHost(c, OptionalToHost(c, o)) == Ok(o)
  {
  }

  /** A present value whose payload is rendered as nil (an optional
      monostate, a nested empty optional) comes back absent. */
  lemma OptionalOfNilCollapses<T>(c: Converter<T>, x: T)
    requires c.toHost(x) == Nil
    ensures OptionalFromHost(c, OptionalToHost(c, Some(x))) == Ok(None)
  {
  }

  // --------------------------------------------------------------- monostate

  /** From_Ruby<std::monostate> / To_Ruby<std::monostate>, for a native
      value universe N in which `unit` stands for std::monostate(): it is
      rendered as nil and never claims a host value. */
  function MonostateConverter<N(!new)>(unit: N): (c: Converter<N>)
    ensures forall v :: !c.accepts(v) && c.fromHost(v) == Ok(unit)
    ensures forall x :: c.toHost(x) == Nil
  {
    Converter(_ => false, _ => Ok(unit), _ => Nil)
  }

  // ----------------------------------------------------------------- variant

  /** A std::variant over alternatives whose native values all live in N:
      the index of the alternative held and its value, or no value at all
      (valueless_by_exception). */
  datatype VariantValue<N> = Holds(index: nat, value: N) | Valueless

  /** To_Ruby<std::variant>::convertIterator from position i: the fold over
      the alternatives that converts the one the variant holds; the result
      stays nil when no alternative from i on is held. */
  function VariantToHostFrom<N>(alts: seq<Converter<N>>, v: VariantValue<N>, i: nat): (r: HostValue)
    requires i <= |alts|
    decreases |alts| - i
    ensures v.Holds? && i <= v.index < |alts| ==> r == alts[v.index].toHost(v.value)
    ensures !(v.Holds? && i <= v.index < |alts|) ==> r == Nil
  {
    if i == |alts| then Nil
    else if v.Holds? && v.index == i then alts[i].toHost(v.value)
    else VariantToHostFrom(alts, v, i + 1)
  }

  /** To_Ruby<std::variant>::convert: the held alternative's rendering,
      or nil for a valueless variant. */
  function VariantToHost<N>(alts: seq<Converter<N>>, v: VariantValue<N>): (r: HostValue)
    ensures v.Holds? && v.index < |alts| ==> r == alts[v.index].toHost(v.value)
    ensures v.Valueless? ==> r == Nil
  {
    VariantToHostFrom(alts, v, 0)
  }

  /** j is the first alternative at or after i whose converter accepts value. */
  ghost predicate FirstAccepting<N>(alts: seq<Converter<N>>, value: HostValue, i: nat, j: nat)
  {
    i <= j < |alts| && alts[j].accepts(value) &&
    forall k :: i <= k < j ==> !alts[k].accepts(value)
  }

  /** The conversion result of alternative j, tagged with j. */
  function Tagged<N>(j: nat, r: Result<N>): Result<VariantValue<N>>
  {
    match r
    case Ok(x) => Ok(Holds(j, x))
    case Err(e) => Err(e)
  }

  /** From_Ruby<std::variant>::convertInternal<I>: the first alternative, in
      declaration order from i, whose is_convertible accepts the value does
      the conversion; if none does, "Could not find converter for variant". */
  function VariantFromHostFrom<N>(alts: seq<Converter<N>>, value: HostValue, i: nat): (r: Result<VariantValue<N>>)
    requires i <= |alts|
    decreases |alts| - i
    ensures forall j: nat :: FirstAccepting(alts, value, i, j) ==> r == Tagged(j, alts[j].fromHost(value))
    ensures (forall j :: i <= j < |alts| ==> !alts[j].accepts(value)) ==> r == Err(NoConverter)
  {
    if i == |alts| then Err(NoConverter)
    else if alts[i].accepts(value) then
      assert forall j: nat :: FirstAccepting(alts, value, i, j) ==> j == i;
      Tagged(i, alts[i].fromHost(value))
    else
      assert forall j: nat :: FirstAccepting(alts, value, i, j) ==> FirstAccepting(alts, value, i + 1, j);
      VariantFromHostFrom(alts, value, i + 1)
  }

  /** From_Ruby<std::variant>::convert: the search from the first
      alternative. */
  function VariantFromHost<N>(alts: seq<Converter<N>>, value: HostValue): (r: Result<VariantValue<N>>)
    ensures forall j: nat :: FirstAccepting(alts, value, 0, j) ==> r == Tagged(j, alts[j].fromHost(value))
    ensures (forall j :: 0 <= j < |alts| ==> !alts[j].accepts(value)) ==> r == Err(NoConverter)
  {
    VariantFromHostFrom(alts, value, 0)
  }

  /** A successful conversion names an alternative that accepted the value,
      no earlier one did, and the value is that alternative's conversion. */
  lemma VariantFromHostChoosesFirst<N>(alts: seq<Converter<N>>, value: HostValue)
    ensures var r := VariantFromHost(alts, value);
      r.Ok? ==> r.value.Holds? && FirstAccepting(alts, value, 0, r.value.index)
                && alts[r.value.index].fromHost(value) == Ok(r.value.value)
  {
    var r := VariantFromHost(alts, value);
    if r.Ok? {
      var j := FirstIndexAccepting(alts, value, 0);
      assert FirstAccepting(alts, value, 0, j);
    }
  }

  /** Witness for the first accepting alternative, when one exists. */
  lemma {:induction false} FirstIndexAccepting<N>(alts: seq<Converter<N>>, value: HostValue, i: nat) returns (j: nat)
    requires i <= |alts|
    requires exists k :: i <= k < |alts| && alts[k].accepts(value)
    decreases |alts| - i
    ensures FirstAccepting(alts, value, i, j)
  {
    if alts[i].accepts(value) {
      j := i;
    } else {
      j := FirstIndexAccepting(alts, value, i + 1);
    }
  }

  /** An alternative that never accepts (std::monostate) is never chosen. */
  lemma NeverAcceptingNeverChosen<N>(alts: seq<Converter<N>>, value: HostValue, j: nat)
    requires j < |alts| && forall v :: !alts[j].accepts(v)
    ensures var r := VariantFromHost(alts, value); !(r.Ok? && r.value.Holds? && r.value.index == j)
  {
    VariantFromHostChoosesFirst(alts, value);
  }

  /** A held value comes back as the same alternative when that
      alternative round-trips it and no earlier alternative claims its host
      rendering (for instance, when the alternatives' host kinds are
      disjoint). */
  lemma VariantRoundTrip<N>(alts: seq<Converter<N>>, v: VariantValue<N>)
    requires v.Holds? && v.index < |alts|
    requires RoundTrips(alts[v.index], v.value)
    requires forall k :: 0 <= k < v.index ==> !alts[k].accepts(alts[v.index].toHost(v.value))
    ensures VariantFromHost(alts, VariantToHost(alts, v)) == Ok(v)
  {
    assert FirstAccepting(alts, VariantToHost(alts, v), 0, v.index);
  }
}
