/** Memoised class registration for container types: define_vector_under,
    define_map_under, define_unordered_map_under, define_pair_under (and
    their variants under Object), and the recursive Type<...>::verify that
    auto-defines every container type it meets. */
module Registry {

  /** Native types as far as registration cares about them. */
  datatype TypeExpr =
    | Scalar(name: string)                              // any type outside the STL wrappers
    | VectorOf(elem: TypeExpr)                          // std::vector<T>
    | MapOf(key: TypeExpr, mapped: TypeExpr)            // std::map<K, V>
    | UnorderedMapOf(key: TypeExpr, mapped: TypeExpr)   // std::unordered_map<K, V>
    | PairOf(first: TypeExpr, second: TypeExpr)         // std::pair<A, B>
    | OptionalOf(inner: TypeExpr)                       // std::optional<T>
    | ReferenceWrapperOf(inner: TypeExpr)               // std::reference_wrapper<T>
    | UniquePtrOf(inner: TypeExpr)                      // std::unique_ptr<T>
    | SharedPtrOf(inner: TypeExpr)                      // std::shared_ptr<T>
    | VariantOf(alternatives: seq<TypeExpr>)            // std::variant<Ts...>

  /** The types that get a generated class of their own. */
  predicate IsContainer(t: TypeExpr)
  {
    t.VectorOf? || t.MapOf? || t.UnorderedMapOf? || t.PairOf?
  }

  /** The number of type constructors in a type expression. */
  function Size(t: TypeExpr): (n: nat)
    decreases t
  {
    match t
    case Scalar(_) => 1
    case VectorOf(e) => 1 + Size(e)
    case MapOf(k, v) => 1 + Size(k) + Size(v)
    case UnorderedMapOf(k, v) => 1 + Size(k) + Size(v)
    case PairOf(a, b) => 1 + Size(a) + Size(b)
    case OptionalOf(inner) => 1 + Size(inner)
    case ReferenceWrapperOf(inner) => 1 + Size(inner)
    case UniquePtrOf(inner) => 1 + Size(inner)
    case SharedPtrOf(inner) => 1 + Size(inner)
    case VariantOf(alts) => 1 + SizeAll(alts)
  }

  function SizeAll(ts: seq<TypeExpr>): (n: nat)
    decreases ts
  {
    if ts == [] then 0 else Size(ts[0]) + SizeAll(ts[1..])
  }

  /** What Type<T>::verify returns. Containers always answer true; the
      wrappers answer for what they wrap; a variant answers for all its
      alternatives; other types answer `known(name)` (true for std::string,
      std::complex and std::monostate). */
  function Verifies(t: TypeExpr, known: string -> bool): (r: bool)
    decreases t
    ensures IsContainer(t) ==> r
    ensures t.VariantOf? ==> (r <==> forall i :: 0 <= i < |t.alternatives| ==> Verifies(t.alternatives[i], known))
  {
    match t
    case Scalar(name) => known(name)
    case VectorOf(_) => true
    case MapOf(_, _) => true
    case UnorderedMapOf(_, _) => true
    case PairOf(_, _) => true
    case OptionalOf(inner) => Verifies(inner, known)
    case ReferenceWrapperOf(inner) => Verifies(inner, known)
    case UniquePtrOf(inner) => Verifies(inner, known)
    case SharedPtrOf(inner) => Verifies(inner, known)
    case VariantOf(alts) => AllVerify(alts, known)
  }

  /** The `&&` fold over a variant's alternatives: true iff every one
      verifies. */
  function AllVerify(ts: seq<TypeExpr>, known: string -> bool): (r: bool)
    decreases ts
    ensures r <==> forall i :: 0 <= i < |ts| ==> Verifies(ts[i], known)
  {
    if ts == [] then true
    else
      assert forall i :: 1 <= i < |ts| ==> ts[i] == ts[1..][i - 1];
      Verifies(ts[0], known) && AllVerify(ts[1..], known)
  }

  /** The container types Type<T>::verify visits, and so registers. The
      variant's fold `(verify() && ...)` stops at the first alternative that
      answers false, so later alternatives are not visited. Everything
      reached is a container no larger than t, and t itself is reached
      exactly when it is a container. */
  function Reached(t: TypeExpr, known: string -> bool): (r: set<TypeExpr>)
    decreases t
    ensures forall u :: u in r ==> IsContainer(u) && Size(u) <= Size(t)
    ensures t in r <==> IsContainer(t)
  {
    match t
    case Scalar(_) => {}
    case VectorOf(e) => {t} + Reached(e, known)
    case MapOf(k, v) => {t} + Reached(k, known) + Reached(v, known)
    case UnorderedMapOf(k, v) => {t} + Reached(k, known) + Reached(v, known)
    case PairOf(a, b) => {t} + Reached(a, known) + Reached(b, known)
    case OptionalOf(inner) => Reached(inner, known)
    case ReferenceWrapperOf(inner) => Reached(inner, known)
    case UniquePtrOf(inner) => Reached(inner, known)
    case SharedPtrOf(inner) => Reached(inner, known)
    case VariantOf(alts) => ReachedAll(alts, known)
  }

  function ReachedAll(ts: seq<TypeExpr>, known: string -> bool): (r: set<TypeExpr>)
    decreases ts
    ensures forall u :: u in r ==> IsContainer(u) && Size(u) <= SizeAll(ts)
  {
    if ts == [] then {}
    else Reached(ts[0], known) + (if Verifies(ts[0], known) then ReachedAll(ts[1..], known) else {})
  }

  /** What verifying a container's component types reaches. */
  function ReachedParts(parts: seq<TypeExpr>, known: string -> bool): (r: set<TypeExpr>)
    requires |parts| <= 2
  {
    if parts == [] then {}
    else if |parts| == 1 then Reached(parts[0], known)
    else Reached(parts[0], known) + Reached(parts[1], known)
  }

  /** A Ruby module, named by its path from Object. */
  datatype ModuleName = ModuleName(path: seq<string>)

  /** Object: where define_vector, define_map, ... put their constant. */
  const ObjectModule: ModuleName := ModuleName([])

  /** Rice::Std: where the auto-defined classes go. */
  const RiceStd: ModuleName := ModuleName(["Rice", "Std"])

  /** A snapshot of the registry: type -> class, module constants, and the
      native type each class was created for, in creation order. */
  datatype State = State(
    classes: map<TypeExpr, nat>,
    constants: map<(ModuleName, string), nat>,
    types: seq<TypeExpr>)

  /** Registration is a bijection between the registered types and the
      classes created, only containers are registered, and every constant
      names a created class. */
  ghost predicate WellFormed(s: State)
  {
    (forall t :: t in s.classes ==> IsContainer(t) && s.classes[t] < |s.types| && s.types[s.classes[t]] == t) &&
    (forall i :: 0 <= i < |s.types| ==> s.types[i] in s.classes && s.classes[s.types[i]] == i) &&
    (forall c :: c in s.constants ==> s.constants[c] < |s.types|)
  }

  /** The class created last has the largest id of all. */
  lemma CreatedLast(s: State, t: TypeExpr)
    requires WellFormed(s) && t in s.classes && s.classes[t] == |s.types| - 1
    ensures forall u :: u in s.classes && u != t ==> s.classes[u] < s.classes[t]
  {
    forall u | u in s.classes && u != t ensures s.classes[u] < s.classes[t] {
      assert s.types[s.classes[u]] == u;
    }
  }

  /** Every class registered between two snapshots of a growing
      well-formed registry comes after every class that existed before. */
  lemma CreatedAfter(s: State, s': State)
    requires WellFormed(s) && WellFormed(s') && s.types <= s'.types
    ensures forall w :: w in s'.classes && w !in s.classes ==> |s.types| <= s'.classes[w]
  {
  }

  /** Between two snapshots, the classes registered for types in `first`
      were all created before those registered for any other type. */
  ghost predicate CreatedFirst(s: State, s': State, first: set<TypeExpr>)
  {
    forall u, w ::
      (u in s'.classes && u !in s.classes && u in first &&
       w in s'.classes && w !in s.classes && w !in first) ==> s'.classes[u] < s'.classes[w]
  }

  /** What a first run registers is created before what a second run
      registers beyond it. */
  lemma InTurn(s0: State, s1: State, s2: State, first: set<TypeExpr>, autoName: TypeExpr -> string)
    requires WellFormed(s1) && WellFormed(s2)
    requires s1.classes.Keys == s0.classes.Keys + first
    requires Grows(s1, s2, autoName)
    ensures CreatedFirst(s0, s2, first)
  {
    CreatedAfter(s1, s2);
    forall u, w | u in s2.classes && u !in s0.classes && u in first &&
        w in s2.classes && w !in s0.classes && w !in first
      ensures s2.classes[u] < s2.classes[w]
    {
      assert u in s1.classes;
      assert s1.classes[u] < |s1.types|;
    }
  }

  /** The auto names of the types registered between two snapshots. */
  function NewNames(s: State, s': State, autoName: TypeExpr -> string): (names: set<string>)
    ensures forall u :: u in s'.classes && u !in s.classes ==> autoName(u) in names
  {
    set u | u in s'.classes && u !in s.classes :: autoName(u)
  }

  /** The Rice::Std auto name of each type registered between two
      snapshots names a class created in between for a type with that same
      auto name: the type's own class whenever auto names do not collide. */
  ghost predicate AutoNamesNewClasses(s: State, s': State, autoName: TypeExpr -> string)
  {
    forall u :: u in s'.classes && u !in s.classes ==>
      (RiceStd, autoName(u)) in s'.constants &&
      var k := s'.constants[(RiceStd, autoName(u))];
      |s.types| <= k < |s'.types| && s'.types[k] !in s.classes && autoName(s'.types[k]) == autoName(u)
  }

  /** When no two registered types share an auto name, the Rice::Std
      constant of each newly registered type names that type's own class. */
  lemma AutoNameIsOwnClass(s: State, s': State, autoName: TypeExpr -> string, u: TypeExpr)
    requires WellFormed(s') && AutoNamesNewClasses(s, s', autoName)
    requires forall v, w :: v in s'.classes && w in s'.classes && autoName(v) == autoName(w) ==> v == w
    requires u in s'.classes && u !in s.classes
    ensures (RiceStd, autoName(u)) in s'.constants && s'.constants[(RiceStd, autoName(u))] == s'.classes[u]
  {
  }

  /** What a run of auto-definitions may do: create classes after the
      existing ones, keep every registration and every constant name, bind
      the Rice::Std auto name of each newly registered type to a class
      created meanwhile, and change no constant other than those names. */
  ghost predicate Grows(s: State, s': State, autoName: TypeExpr -> string)
  {
    s.types <= s'.types &&
    (forall u :: u in s.classes ==> u in s'.classes && s'.classes[u] == s.classes[u]) &&
    AutoNamesNewClasses(s, s', autoName) &&
    (forall c :: c in s.constants ==> c in s'.constants) &&
    (forall c :: c in s'.constants && (c !in s.constants || s'.constants[c] != s.constants[c]) ==>
       c.0 == RiceStd && c.1 in NewNames(s, s', autoName))
  }

  /** Doing nothing is a run of auto-definitions. */
  lemma GrowsReflexive(s: State, autoName: TypeExpr -> string)
    ensures Grows(s, s, autoName)
  {
  }

  /** Across two runs, each new auto name still names a class created in
      one of them for a type with that name: a later run rebinds a name only
      to a class of its own. */
  lemma AutoNamesTransitive(a: State, b: State, c: State, autoName: TypeExpr -> string)
    requires Grows(a, b, autoName) && Grows(b, c, autoName)
    ensures AutoNamesNewClasses(a, c, autoName)
  {
    forall u | u in c.classes && u !in a.classes
      ensures (RiceStd, autoName(u)) in c.constants &&
        var k := c.constants[(RiceStd, autoName(u))];
        |a.types| <= k < |c.types| && c.types[k] !in a.classes && autoName(c.types[k]) == autoName(u)
    {
      var key := (RiceStd, autoName(u));
      var k := c.constants[key];
      if u in b.classes && c.constants[key] == b.constants[key] {
        assert c.types[k] == b.types[k];
      } else {
        var w := u;
        if u in b.classes {
          w :| w in c.classes && w !in b.classes && autoName(w) == autoName(u);
        }
        assert (RiceStd, autoName(w)) == key;
        assert c.types[k] !in b.classes;
      }
    }
  }

  /** Two runs of auto-definitions in a row are one run. */
  lemma GrowsTransitive(a: State, b: State, c: State, autoName: TypeExpr -> string)
    requires Grows(a, b, autoName) && Grows(b, c, autoName)
    ensures Grows(a, c, autoName)
  {
    AutoNamesTransitive(a, b, c, autoName);
    ChangedNamesTransitive(a, b, c, autoName);
  }

  /** Across two runs, only the auto names of types new in one of them are
      rebound. */
  lemma ChangedNamesTransitive(a: State, b: State, c: State, autoName: TypeExpr -> string)
    requires Grows(a, b, autoName) && Grows(b, c, autoName)
    ensures forall x :: x in c.constants && (x !in a.constants || c.constants[x] != a.constants[x]) ==>
      x.0 == RiceStd && x.1 in NewNames(a, c, autoName)
  {
    forall x | x in c.constants && (x !in a.constants || c.constants[x] != a.constants[x])
      ensures x.0 == RiceStd && x.1 in NewNames(a, c, autoName)
    {
      if x in b.constants && c.constants[x] == b.constants[x] {
        var w :| w in b.classes && w !in a.classes && autoName(w) == x.1;
      } else {
        var w :| w in c.classes && w !in b.classes && autoName(w) == x.1;
      }
    }
  }

  /** The effect of verifying something that reaches the container types
      `reached`: exactly those types are added to the registry, it grows as
      auto-definition allows, and when they were all registered before
      nothing changes at all. */
  ghost predicate Effect(s: State, s': State, reached: set<TypeExpr>, autoName: TypeExpr -> string)
  {
    s'.classes.Keys == s.classes.Keys + reached &&
    Grows(s, s', autoName) &&
    (reached <= s.classes.Keys ==> s' == s)
  }

  /** One verification after another has the combined effect. */
  lemma EffectCompose(s0: State, s1: State, s2: State, r1: set<TypeExpr>, r2: set<TypeExpr>, autoName: TypeExpr -> string)
    requires Effect(s0, s1, r1, autoName) && Effect(s1, s2, r2, autoName)
    ensures Effect(s0, s2, r1 + r2, autoName)
  {
    GrowsTransitive(s0, s1, s2, autoName);
    if r1 + r2 <= s0.classes.Keys {
      assert s1 == s0;
    }
  }

  /** The type registry (native type -> class) restricted to container
      types, and the constant tables of the modules (module::name -> class).
      Classes are numbered in creation order; `types[i]` is the native type
      class i was created for. */
  class Registry {
    var classes: map<TypeExpr, nat>
    var constants: map<(ModuleName, string), nat>
    var types: seq<TypeExpr>

    ghost predicate Valid()
      reads this
    {
      WellFormed(Snapshot())
    }

    ghost function Snapshot(): State
      reads this
    {
      State(classes, constants, types)
    }

    constructor ()
      ensures Valid() && classes == map[] && constants == map[] && types == []
    {
      classes := map[];
      constants := map[];
      types := [];
    }

    /** define_<container>_under(owner, name) for container type t. A type
      seen before keeps its class: the name is bound to it only if the
      module has no such constant yet (const_set_maybe), and no class is
      created. Otherwise a new class is created, registered for t and bound
      to module::name (define_class_under). */
    method DefineUnder(owner: ModuleName, name: string, t: TypeExpr) returns (klass: nat)
      requires Valid() && IsContainer(t)
      modifies this
      ensures Valid()
      ensures t in classes && classes[t] == klass
      ensures t in old(classes) ==>
        (klass == old(classes)[t] && classes == old(classes) && types == old(types) &&
         constants == (if (owner, name) in old(constants) then old(constants) else old(constants)[(owner, name) := klass]))
      ensures t !in old(classes) ==>
        (klass == |old(types)| && types == old(types) + [t] &&
         classes == old(classes)[t := klass] && constants == old(constants)[(owner, name) := klass])
    {
      if t in classes {
        klass := classes[t];
        if (owner, name) !in constants {
          constants := constants[(owner, name) := klass];
        }
        return;
      }
      klass := |types|;
      types := types + [t];
      classes := classes[t := klass];
      constants := constants[(owner, name) := klass];
    }

    /** Type<T>::verify: verify the component types first, then auto-define
      a container type not yet registered under Rice::Std with the name
      `autoName` gives it (makeClassName). A container registered here gets
      the last class created: its components' classes come first. */
    method Verify(t: TypeExpr, known: string -> bool, autoName: TypeExpr -> string) returns (r: bool)
      requires Valid()
      modifies this
      decreases t, 2
      ensures Valid()
      ensures r == Verifies(t, known)
      ensures Effect(old(Snapshot()), Snapshot(), Reached(t, known), autoName)
      ensures IsContainer(t) && t !in old(classes) ==> classes[t] == |types| - 1
    {
      match t
      case Scalar(name) =>
        r := known(name);
        GrowsReflexive(Snapshot(), autoName);
      case OptionalOf(inner) =>
        assert Reached(t, known) == Reached(inner, known);
        r := Verify(inner, known, autoName);
      case ReferenceWrapperOf(inner) =>
        assert Reached(t, known) == Reached(inner, known);
        r := Verify(inner, known, autoName);
      case UniquePtrOf(inner) =>
        assert Reached(t, known) == Reached(inner, known);
        r := Verify(inner, known, autoName);
      case SharedPtrOf(inner) =>
        assert Reached(t, known) == Reached(inner, known);
        r := Verify(inner, known, autoName);
      case VariantOf(alts) =>
        assert Reached(t, known) == ReachedAll(alts, known);
        r := VerifyAll(alts, known, autoName);
      case VectorOf(e) =>
        VerifyContainer(t, [e], known, autoName);
        r := true;
      case MapOf(k, v) =>
        VerifyContainer(t, [k, v], known, autoName);
        r := true;
      case UnorderedMapOf(k, v) =>
        VerifyContainer(t, [k, v], known, autoName);
        r := true;
      case PairOf(a, b) =>
        VerifyContainer(t, [a, b], known, autoName);
        r := true;
    }

    /** The verify of a container: its component types first, in order and
      whatever they answer, then the container itself, whose class, when
      new, is created after every class its components registered. */
    method VerifyContainer(t: TypeExpr, parts: seq<TypeExpr>, known: string -> bool, autoName: TypeExpr -> string)
      requires Valid() && IsContainer(t)
      requires (|parts| == 1 && t == VectorOf(parts[0])) ||
        (|parts| == 2 && (t == MapOf(parts[0], parts[1]) || t == UnorderedMapOf(parts[0], parts[1]) || t == PairOf(parts[0], parts[1])))
      modifies this
      decreases t, 1
      ensures Valid()
      ensures Effect(old(Snapshot()), Snapshot(), Reached(t, known), autoName)
      ensures t !in old(classes) ==> classes[t] == |types| - 1
      ensures t !in old(classes) ==>
        forall u :: u in classes && u !in old(classes) && u != t ==> classes[u] < classes[t]
    {
      ghost var s0 := Snapshot();
      ghost var below := ReachedParts(parts, known);
      assert Reached(t, known) == below + {t};
      assert t !in below;
      VerifyParts(t, parts, known, autoName);
      ghost var s1 := Snapshot();
      DefineAuto(t, autoName);
      EffectCompose(s0, s1, Snapshot(), below, {t}, autoName);
      if t !in s0.classes {
        CreatedLast(Snapshot(), t);
      }
    }

    /** The component part of a container's verify: each component type is
      verified in turn. */
    method VerifyParts(t: TypeExpr, parts: seq<TypeExpr>, known: string -> bool, autoName: TypeExpr -> string)
      requires Valid()
      requires (|parts| == 1 && t == VectorOf(parts[0])) ||
        (|parts| == 2 && (t == MapOf(parts[0], parts[1]) || t == UnorderedMapOf(parts[0], parts[1]) || t == PairOf(parts[0], parts[1])))
      modifies this
      decreases t, 0
      ensures Valid()
      ensures Effect(old(Snapshot()), Snapshot(), ReachedParts(parts, known), autoName)
      ensures CreatedFirst(old(Snapshot()), Snapshot(), Reached(parts[0], known))
    {
      ghost var s0 := Snapshot();
      var _ := Verify(parts[0], known, autoName);
      ghost var s1 := Snapshot();
      if |parts| == 2 {
        var _ := Verify(parts[1], known, autoName);
        EffectCompose(s0, s1, Snapshot(), Reached(parts[0], known), Reached(parts[1], known), autoName);
      } else {
        GrowsReflexive(s1, autoName);
      }
      InTurn(s0, s1, Snapshot(), Reached(parts[0], known), autoName);
    }

    /** The tail of a container's verify: define_<container>_auto, which
      creates a class for a type not registered yet and binds it to
      Rice::Std::<auto name>. */
    method DefineAuto(t: TypeExpr, autoName: TypeExpr -> string)
      requires Valid() && IsContainer(t)
      modifies this
      ensures Valid()
      ensures Effect(old(Snapshot()), Snapshot(), {t}, autoName)
      ensures t !in old(classes) ==>
        (types == old(types) + [t] && classes == old(classes)[t := |old(types)|] &&
         constants == old(constants)[(RiceStd, autoName(t)) := |old(types)|])
    {
      if t !in classes {
        var _ := DefineUnder(RiceStd, autoName(t), t);
      }
    }

    /** The variant's fold over its alternatives, stopping at the first one
      whose verify answers false. */
    method VerifyAll(ts: seq<TypeExpr>, known: string -> bool, autoName: TypeExpr -> string) returns (r: bool)
      requires Valid()
      modifies this
      decreases ts, 0
      ensures Valid()
      ensures r == AllVerify(ts, known)
      ensures Effect(old(Snapshot()), Snapshot(), ReachedAll(ts, known), autoName)
      ensures ts != [] ==> CreatedFirst(old(Snapshot()), Snapshot(), Reached(ts[0], known))
    {
      if ts == [] {
        return true;
      }
      ghost var s0 := Snapshot();
      r := Verify(ts[0], known, autoName);
      ghost var s1 := Snapshot();
      if r {
        r := VerifyAll(ts[1..], known, autoName);
        EffectCompose(s0, s1, Snapshot(), Reached(ts[0], known), ReachedAll(ts[1..], known), autoName);
      } else {
        GrowsReflexive(s1, autoName);
      }
      InTurn(s0, s1, Snapshot(), Reached(ts[0], known), autoName);
    }
  }

  /** Two requests for the same container type, under any names, yield the
      same class; the first creates at most one class and the second none. */
  method DefineTwice(reg: Registry, m1: ModuleName, n1: string, m2: ModuleName, n2: string, t: TypeExpr)
    returns (first: nat, second: nat)
    requires reg.Valid() && IsContainer(t)
    modifies reg
    ensures first == second
    ensures reg.types == old(reg.types) + (if t in old(reg.classes) then [] else [t])
    ensures reg.classes == old(reg.classes)[t := first]
  {
    first := reg.DefineUnder(m1, n1, t);
    second := reg.DefineUnder(m2, n2, t);
  }

  /** Verifying a type a second time gives the same answer and leaves the
      registry exactly as the first verification left it. */
  method VerifyTwice(reg: Registry, t: TypeExpr, known: string -> bool, autoName: TypeExpr -> string)
    returns (first: bool, second: bool, ghost afterFirst: State)
    requires reg.Valid()
    modifies reg
    ensures first == second == Verifies(t, known)
    ensures reg.classes.Keys == old(reg.classes).Keys + Reached(t, known)
    ensures Effect(old(reg.Snapshot()), afterFirst, Reached(t, known), autoName)
    ensures reg.Snapshot() == afterFirst
  {
    first := reg.Verify(t, known, autoName);
    afterFirst := reg.Snapshot();
    second := reg.Verify(t, known, autoName);
  }
}
