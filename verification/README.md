# Rice STL bindings — a Dafny model

Rice exposes C++ types to Ruby. Its STL layer, `include/rice/stl.hpp`, does two jobs.

- It converts values between Ruby and C++. These are the `From_Ruby` / `To_Ruby`
  specialisations for `std::string`, `std::optional`, `std::monostate`, `std::variant`,
  and for `std::vector`, `std::map` and `std::unordered_map` built from Ruby arrays and hashes.
- It generates Ruby classes for container types. These are the vector, map, unordered_map
  and pair helpers, with their `[]`, `[]=`, `insert`, `delete_at`, `to_s`, and so on.
  Classes are registered at most once per C++ type. A class is defined explicitly by
  `define_*_under` or implicitly by `Type<T>::verify`.

The model keeps the same split:

| file | module | what it holds |
|---|---|---|
| `wrappers.dfy` | `Wrappers` | `Option`, `Result` and the exceptions the bindings raise, as `Error` |
| `host.dfy` | `Host` | Ruby values by kind (`HostValue`); a converter as three functions; the string converter |
| `conversions.dfy` | `Conversions` | optional, monostate and variant converters |
| `container_conversions.dfy` | `ContainerConversions` | `vectorFromArray`, `MapFromHash` and the `From_Ruby` dispatch for containers |
| `render.dfy` | `Render` | the `", "`-separated text every `to_s` streams |
| `traits.dfy` | `Traits` | the compile-time traits that switch methods to their degraded forms |
| `vector.dfy` | `VectorBinding` | `normalizeIndex` and a `Vector` class whose methods update its `elems` |
| `map.dfy` | `MapBinding` | a `MapBinding` class over a `map` field, used for `std::map` and `std::unordered_map` |
| `pair.dfy` | `PairBinding` | a `Pair` class with `first` and `second` fields |
| `registry.dfy` | `Registry` | the type registry and module constants, memoised `define_*_under`, and the recursive `verify` |

Ruby calls and native pointers are not in the model:

- A converter is a value with three parts: `accepts` is `is_convertible`, `fromHost` is `convert`,
  and `toHost` is `To_Ruby`.
- Unwrapping a `T_DATA` object is the parameter `unwrap`.
- Printing an element with `operator<<` is the parameter `show`.
- `makeClassName` is the parameter `autoName`.
- The traits of element types (`is_comparable_v`, `is_copy_constructible_v`, `is_ostreamable_v`,
  `is_default_constructible_v`) are an `ElementTraits` value held by each bound object.

## Model

| member | source | states |
|---|---|---|
| Host.StringConverter | include/rice/stl.hpp:11-124 | every string round-trips; exactly strings are accepted; nil with a default argument gives the default; any other non-string raises TypeError |
| Conversions.OptionalToHost | include/rice/stl.hpp:761-791 | an absent value becomes nil; a present one is rendered by T's converter, so the result is nil exactly when the value is absent or its payload renders as nil |
| Conversions.OptionalFromHost | include/rice/stl.hpp:795-810 | a Ruby value converts to an absent optional iff it is nil; otherwise the conversion succeeds iff the payload converter's does, a present result holds the payload's conversion, and a failure is the payload converter's error |
| Conversions.OptionalRoundTrip | include/rice/stl.hpp:761-810 | an optional survives To_Ruby then From_Ruby when its payload does and is not rendered as nil |
| Conversions.OptionalOfNilCollapses | include/rice/stl.hpp:761-810 | a present optional whose payload renders as nil (such as a monostate) comes back absent |
| Conversions.MonostateConverter | include/rice/stl.hpp:680-731 | monostate renders as nil, never claims a Ruby value, and converting yields the unit value |
| Conversions.VariantToHost | include/rice/stl.hpp:1750-1755 | a variant holding alternative i is rendered by alternative i's converter; a valueless variant gives nil |
| Conversions.VariantToHostFrom | include/rice/stl.hpp:1708-1757 | the fold converts exactly the alternative the variant holds; a valueless variant gives nil |
| Conversions.VariantFromHostFrom | include/rice/stl.hpp:1790-1834 | the first alternative, in declaration order, whose is_convertible accepts does the conversion and tags the result with its index; if none accepts, "Could not find converter" |
| Conversions.VariantFromHost | include/rice/stl.hpp:1830-1833 | the first accepting alternative converts and tags the result with its index; with no accepting alternative, "Could not find converter" |
| Conversions.VariantFromHostChoosesFirst | include/rice/stl.hpp:1808-1828 | a successful conversion names an accepting alternative, no earlier alternative accepts, and the value is that alternative's conversion |
| Conversions.FirstIndexAccepting | include/rice/stl.hpp:1808-1828 | when some alternative accepts, there is a first accepting one |
| Conversions.NeverAcceptingNeverChosen | include/rice/stl.hpp:1812-1825 | an alternative that never accepts (std::monostate) is never chosen |
| Conversions.VariantRoundTrip | include/rice/stl.hpp:1708-1834 | a held value comes back as the same alternative when that alternative round-trips it and no earlier alternative accepts its rendering |
| ContainerConversions.ArrayToVector | include/rice/stl.hpp:2250-2263 | succeeds iff every element converts; then it has the array's length and element i is the conversion of element i; otherwise it fails with the first failing element's error |
| ContainerConversions.VectorFromArray | include/rice/stl.hpp:2250-2263 | the loop over a pre-sized buffer yields exactly ArrayToVector's result |
| ContainerConversions.ArrayRoundTrip | include/rice/stl.hpp:2250-2263 | an array of converted elements converts back to the original vector |
| ContainerConversions.HashToMap | include/rice/stl.hpp:504-531 | succeeds iff every key and every value converts; otherwise fails with the error of the first entry that raises, its value being converted before its key |
| ContainerConversions.MapFromHash | include/rice/stl.hpp:504-531 | the loop over the hash's entries yields exactly the HashToMap fold |
| ContainerConversions.HashToMapContents | include/rice/stl.hpp:504-531 | when all entries convert: success; the keys are exactly the converted keys; each key holds the value of the last entry with that key |
| ContainerConversions.HashRoundTrip | include/rice/stl.hpp:504-531 | a map rendered as a hash, each key once in any order, converts back into the accumulator extended by the map |
| ContainerConversions.MapRoundTrip | include/rice/stl.hpp:504-531 | a map rendered as a hash converts back to the same map when keys and values round-trip |
| ContainerConversions.VectorFromHost | include/rice/stl.hpp:2265-2391 | a wrapped object is unwrapped; an array is converted element-wise iff T is default-constructible; otherwise nil and such an array give the configured default in the value and `&` forms, and raise TypeError without a default or in the pointer form; every other kind raises TypeError |
| ContainerConversions.VectorArrayRoundTrip | include/rice/stl.hpp:2265-2305 | an array of converted elements passed for a vector parameter gives back the vector |
| ContainerConversions.MapFromHost | include/rice/stl.hpp:533-655 | a wrapped object is unwrapped; a hash is converted entry by entry in the value and pointer forms when the mapped type is default-constructible, and always in the `&` form; otherwise nil and such a hash give the configured default in the value and `&` forms, and raise TypeError without a default or in the pointer form; every other kind raises TypeError |
| ContainerConversions.MapHashRoundTrip | include/rice/stl.hpp:533-655 | a map rendered as a hash, each key once, passed for a map parameter in a form that converts hashes gives back the map |
| Render.JoinStartsWithFirst | include/rice/stl.hpp:2159-2169 | the joined text starts with the first item |
| VectorBinding.NormalizeIndex | include/rice/stl.hpp:1920-1936 | succeeds iff bounds are not enforced or index < size; a non-negative index is unchanged; a negative index becomes its Euclidean remainder modulo size, always in [0, size); failure is out_of_range |
| VectorBinding.WrapIsRemainder | include/rice/stl.hpp:1924-1928 | the source's two-step wrap equals the Euclidean remainder |
| VectorBinding.NormalizeIndexEnds | include/rice/stl.hpp:1920-1936 | -1 is the last position and -size the first |
| VectorBinding.NormalizeIndexFromRight | include/rice/stl.hpp:1920-1936 | an index in [-size, -1] means size + index |
| VectorBinding.NormalizeIndexWrapsAround | include/rice/stl.hpp:1922-1928 | stepping size positions further left lands on the same position |
| VectorBinding.FindFirst | include/rice/stl.hpp:2039-2064 | absent iff the element does not occur; otherwise the position of its first occurrence |
| VectorBinding.VectorText | include/rice/stl.hpp:2151-2173 | "[Not printable]" when elements cannot be streamed; otherwise text in square brackets, "[]" for an empty vector, the first element's text right after "[" |
| VectorBinding.VectorTextTruncates | include/rice/stl.hpp:2151-2173 | elements past the 1000th do not appear in to_s |
| VectorBinding.VectorTextAppend | include/rice/stl.hpp:2151-2173 | pushing an element onto a short vector inserts ", " and its text before the closing bracket |
| VectorBinding.NormalizeIndexAsWritten | include/rice/stl.hpp:1920-1928 | normalizeIndex as written is undefined exactly for a negative index on an empty vector (remainder by zero), and agrees with NormalizeIndex everywhere else |
| VectorBinding.NegativeIndexOnEmptyIsUndefined | include/rice/stl.hpp:1924-1927 | index -1 on an empty vector has no defined normalisation, with or without bounds enforcement, while on a one-element vector it is 0 |
| VectorBinding.DeleteAtAsWritten | include/rice/stl.hpp:2088-2094 | delete_at as written: defined iff pos < size, and then it removes exactly element pos and keeps the rest in order |
| VectorBinding.DeleteAtPastEndIsUndefined | include/rice/stl.hpp:2088-2094 | on [1, 2, 3], delete_at(3) is undefined while `[]=` raises out_of_range for the same index |
| VectorBinding.Vector.constructor | include/rice/stl.hpp:1938-1941 | a new vector is empty |
| VectorBinding.Vector.First | include/rice/stl.hpp:1994-2004 | absent iff empty, otherwise the front element |
| VectorBinding.Vector.Last | include/rice/stl.hpp:2005-2015 | absent iff empty, otherwise the back element |
| VectorBinding.Vector.At | include/rice/stl.hpp:2016-2029 | never raises; present iff the vector is non-empty and index < size; an empty vector answers absent for every index; a non-negative index reads that element; any negative index reads element index mod size (element size + index for an index in [-size, -1]) |
| VectorBinding.Vector.Includes | include/rice/stl.hpp:2033-2083 | true iff the element type is comparable and the element occurs |
| VectorBinding.Vector.Index | include/rice/stl.hpp:2033-2083 | absent iff not comparable or not present; otherwise the first position holding the element |
| VectorBinding.Vector.Insert | include/rice/stl.hpp:2095-2101 | inserts before the normalised position iff the vector is non-empty and index < size; otherwise raises out_of_range and leaves the vector unchanged |
| VectorBinding.Vector.Assign | include/rice/stl.hpp:2121-2126 | overwrites exactly the normalised position and returns the element iff the vector is non-empty and index < size; otherwise raises out_of_range, unchanged |
| VectorBinding.Vector.Push | include/rice/stl.hpp:2115-2119 | the element is appended |
| VectorBinding.Vector.Pop | include/rice/stl.hpp:2102-2114 | returns and removes the back element; absent and unchanged when empty |
| VectorBinding.Vector.DeleteAt | include/rice/stl.hpp:2088-2094 | agrees with delete_at wherever the source is defined; past the end it raises out_of_range and leaves the vector unchanged |
| VectorBinding.Vector.Clear | include/rice/stl.hpp:2087 | the vector becomes empty |
| VectorBinding.Vector.Delete | include/rice/stl.hpp:2033-2083 | removes and returns the first equal element; absent and unchanged when there is none or the type is not comparable |
| VectorBinding.Vector.Resize | include/rice/stl.hpp:1962-1976 | truncates or pads with default-constructed elements; has no effect when the element type has no default constructor |
| VectorBinding.Vector.Copy | include/rice/stl.hpp:1944-1960 | a fresh vector with the same elements, or "Cannot copy vectors" when the type is not copyable |
| VectorBinding.Vector.Each | include/rice/stl.hpp:2134-2145 | yields every element once, in order |
| VectorBinding.Vector.ToS | include/rice/stl.hpp:2147-2182 | the streaming loop produces VectorText: brackets around the first 1000 elements joined by ", ", or "[Not printable]" |
| VectorBinding.PushThenPop | include/rice/stl.hpp:2102-2119 | push then pop returns the pushed element and restores the vector |
| MapBinding.ListingLength | include/rice/stl.hpp:292-313 | a traversal listing each key once has as many items as the map has entries |
| MapBinding.MapText | include/rice/stl.hpp:406-437 | "[Not printable]" when key or mapped type cannot be streamed; otherwise text in braces, "{}" for an empty map, the first entry's "key => value" right after "{" |
| MapBinding.ValuesAlongListing | include/rice/stl.hpp:303-313 | along a traversal the values met are, as a set, exactly the map's values, one per entry |
| MapBinding.CollectValues | include/rice/stl.hpp:305-312 | the transform loop appends the mapped value of each key in traversal order |
| MapBinding.CollectEntries | include/rice/stl.hpp:378-384 | the each loop yields each key with its mapped value in traversal order |
| MapBinding.StreamEntries | include/rice/stl.hpp:410-428 | the streaming loop produces exactly the printable MapText of the traversal |
| MapBinding.MapBinding.constructor | include/rice/stl.hpp:238-241 | a new map is empty |
| MapBinding.MapBinding.Get | include/rice/stl.hpp:275-287 | present iff the key is in the map, and then its mapped value; a missing key is never an error |
| MapBinding.MapBinding.Includes | include/rice/stl.hpp:288-291 | true iff `[]` finds the key |
| MapBinding.MapBinding.HasValue | include/rice/stl.hpp:319-343 | true iff the mapped type is comparable and some entry maps to the value |
| MapBinding.MapBinding.Keys | include/rice/stl.hpp:292-302 | every key exactly once, as many as there are entries |
| MapBinding.MapBinding.Values | include/rice/stl.hpp:303-313 | the mapped values along one traversal; as many as there are entries; every mapped value occurs and nothing else |
| MapBinding.MapBinding.Each | include/rice/stl.hpp:372-387 | yields each entry once, along one traversal |
| MapBinding.MapBinding.Delete | include/rice/stl.hpp:348-362 | removes the key and returns its value; absent and unchanged for a missing key |
| MapBinding.MapBinding.Store | include/rice/stl.hpp:363-369 | the key maps to the value, every other entry is kept, and the value is returned |
| MapBinding.MapBinding.Clear | include/rice/stl.hpp:347 | the map becomes empty |
| MapBinding.MapBinding.Copy | include/rice/stl.hpp:243-260 | a fresh map with the same entries, or "Cannot copy maps" ("unordered_maps") when not copyable |
| MapBinding.MapBinding.ToS | include/rice/stl.hpp:406-437 | braces around the "key => value" texts of one traversal joined by ", ", or "[Not printable]" |
| MapBinding.StoreThenGet | include/rice/stl.hpp:275-369 | after `[]=`, `[]` of that key gives the stored value and no other key changes |
| MapBinding.DeleteThenGet | include/rice/stl.hpp:275-362 | after delete, `[]` of that key is absent, delete returned the old value, and no other key changes |
| PairBinding.Pair.constructor | include/rice/stl.hpp:871-874 | the pair holds the given members |
| PairBinding.Pair.SetFirst | include/rice/stl.hpp:911-915 | replaces first, keeps second, and returns the new first |
| PairBinding.Pair.SetSecond | include/rice/stl.hpp:916-920 | replaces second, keeps first, and returns the new second |
| PairBinding.Pair.ToS | include/rice/stl.hpp:923-941 | "[first, second]", or "[Not printable]" |
| PairBinding.Pair.Copy | include/rice/stl.hpp:876-893 | a fresh pair with the same members, or "Cannot copy pair" when not copyable |
| PairBinding.PairRendersLikeVector | include/rice/stl.hpp:923-941 | a pair renders exactly like the two-element vector of its members |
| Registry.Verifies | include/rice/stl.hpp:2234-2248 | containers always answer true (this vector verify, and the map, pair and unordered_map ones at lines 490-501, 994-1005, 1508-1519); optional, reference_wrapper, unique_ptr and shared_ptr answer as what they wrap (lines 745-748, 1023-1026, 1140-1143, 1202-1205); a variant answers true iff every alternative does (lines 1694-1705) |
| Registry.AllVerify | include/rice/stl.hpp:1694-1698 | the `&&` fold is true iff every alternative verifies |
| Registry.Reached | include/rice/stl.hpp:2234-2248 | verify reaches only container types (vector, map, unordered_map, pair), none larger than the type verified, and reaches the type itself exactly when it is a container; the wrappers pass through to what they wrap (lines 745-748, 1023-1026, 1140-1143, 1202-1205) and a variant's fold reaches its alternatives up to the first that answers false (lines 1694-1705) |
| Registry.ReachedAll | include/rice/stl.hpp:1690-1705 | a variant reaches only containers no larger than its alternatives |
| Registry.CreatedLast | include/rice/stl.hpp:2189-2204 | the class created last has a larger id than every other registered class |
| Registry.AutoNamesTransitive | include/rice/stl.hpp:2223-2248 | across two runs of auto-definition, each newly registered type's Rice::Std auto name names a class created in them for a type with that auto name |
| Registry.AutoNameIsOwnClass | include/rice/stl.hpp:2223-2230 | when auto names do not collide, the Rice::Std constant of each newly registered type names that type's own class |
| Registry.GrowsTransitive | include/rice/stl.hpp:2223-2248 | two runs of auto-definition in a row are one: classes created after the existing ones, registrations and constant names kept, only Rice::Std auto names of newly registered types rebound, each to a class created in the two runs for a type with that auto name |
| Registry.EffectCompose | include/rice/stl.hpp:2234-2248 | one verify after another registers the union of what each reaches, and grows the registry as one run, auto names included |
| Registry.Registry.constructor | include/rice/stl.hpp:2190-2204 | registry and module constants start empty |
| Registry.Registry.DefineUnder | include/rice/stl.hpp:2189-2204 | a type seen before keeps its class: the constant is bound only if undefined and no class is created; otherwise a new class is created, registered and bound to module::name; registered types and created classes stay in one-to-one correspondence |
| Registry.Registry.DefineAuto | include/rice/stl.hpp:2223-2244 | an unregistered container gets the next class id, is registered, and Rice::Std::<auto name> is bound to the new class with no other constant changed; a registered one leaves everything unchanged |
| Registry.Registry.Verify | include/rice/stl.hpp:2234-2248 | answers as Verifies; the registered types grow by exactly the containers the walk reaches; existing classes keep their ids and the class list only grows; only Rice::Std constants named after newly registered types change, and each newly registered type's Rice::Std auto name names a class created by this call for a type with that auto name (its own class when auto names do not collide); nothing changes when those are all registered; a newly registered container has the last class |
| Registry.Registry.VerifyContainer | include/rice/stl.hpp:487-503 | for vector, map, unordered_map and pair: the component types first, then the container itself; the registered types grow by exactly the container and what its components reach, as Verify's effect, auto-name constants included; a newly registered container's class is created after every class its components registered |
| Registry.Registry.VerifyParts | include/rice/stl.hpp:491-493 | the component types are verified in turn: together they register exactly what each reaches, and every class registered for what the first component reaches is created before every class registered for the second alone |
| Registry.InTurn | include/rice/stl.hpp:491-493 | what a first run registers is created before what a later run registers beyond it |
| Registry.Registry.VerifyAll | include/rice/stl.hpp:1694-1705 | the `&&` fold over the alternatives: true iff all verify; registration stops at the first one that answers false; the registry grows as for Verify, auto-name constants included; the classes the first alternative registers are created before those of later alternatives |
| Registry.DefineTwice | include/rice/stl.hpp:2189-2204 | defining the same container type twice, under any names, gives the same class, creates at most one, and the second definition adds no class or registration |
| Registry.VerifyTwice | include/rice/stl.hpp:2234-2248 | the first verify has Verify's effect; verifying the type again changes nothing and gives the same answer |

## Left out

- Ruby's C API (`protect`, `rb_yield_values2`, `rb_hash_foreach`, GC and ownership) is not modelled. Host values are plain data, and an exception raised inside a conversion is an `Err`.
- Wrapped objects are not modelled. `Data_Object::from_ruby` is the `unwrap` parameter, and the aliasing between the Ruby object and the C++ container it wraps is not captured. For the same reason, the `&` and `*` forms of From_Ruby return a value rather than a reference or pointer into the converter.
- `std::complex`, `std::reference_wrapper`, `std::unique_ptr` and `std::shared_ptr` conversions are not modelled: they only forward to the Ruby C API or to the wrapped-object machinery. Their `Type<T>::verify` forwarding is modelled in `Registry.Verifies`.
- `to_h` is not modelled: it builds a Ruby hash through Ruby calls.
- `empty?`, `size`, `capacity`, `max_size`, `reserve` and `shrink_to_fit` are not modelled: they forward directly to the container. The aliases (`at`, `<<`, `append`, `store`, `has_key`, `has_value`, `count`, `length`) are the same members as the methods they name.
- Pair `first` and `second` readers are not modelled as members: they return references to the fields, which the model reads directly.
- `makeClassName` (the generated class name), `define_module_under`, `define_class_under` and `const_set_maybe` are not part of this model. They are taken as: a parameter for the name; a fresh class bound to the constant; and a bind only if the constant is undefined.
- `define_vector`, `define_map`, `define_unordered_map` and `define_pair` are `Registry.Registry.DefineUnder` with `ObjectModule`.
- MapBinding.MapBinding.Keys: does not state std::map's ascending key order. The traversal order of both maps is left open, so the contract is weaker for std::map.
- MapBinding.MapBinding.Values: traversal order is open, as for Keys.
- MapBinding.MapBinding.Each: traversal order is open, as for Keys.
- MapBinding.MapBinding.ToS: traversal order is open, as for Keys.
- Host.StringConverter: strings are modelled as character sequences. Byte content and encodings (`RSTRING_PTR`/`RSTRING_LEN` on the way in, `rb_external_str_new` on the way out) are not captured.
- The C++ integer widths (`size_t`, `Difference_T`) are unbounded integers in the model. Overflow of `-index` at the most negative `Difference_T` is not modelled.
- `delete_at` and `resize` receive their position or size as `size_t`. Converting a negative Ruby integer to `size_t` is not part of this model, so positions and sizes are `nat` (`VectorBinding.Vector.DeleteAt`, `VectorBinding.Vector.Resize`).
- VectorBinding.NormalizeIndex: requires a non-negative index or a non-empty vector. A negative index on an empty vector divides by zero in the source, which has no defined result; `VectorBinding.NormalizeIndexAsWritten` records that case, and `VectorBinding.Vector.At`, `VectorBinding.Vector.Insert` and `VectorBinding.Vector.Assign` handle it without calling NormalizeIndex (see Findings).
- The unordered_map helper and `UnorderedMapFromHash` (include/rice/stl.hpp:1232-1680) repeat the map code with "unordered_maps" in the copy error and "std::unordered_map" in the TypeError. They are modelled by the same members, with `MapKind` and the `name` parameter.
- `test/test_Ownership.cpp` and `rice/rice.hpp` are context only and are not modelled.

## Findings

| source | as written | input that shows it | evidently intended | confidence | as-written member | corrected member |
|---|---|---|---|---|---|---|
| include/rice/stl.hpp:2088-2094 | `delete_at` computes `self.begin() + pos` and dereferences it without checking `pos` against the size | on the vector [1, 2, 3], `delete_at(3)` reads and erases past the end (undefined behaviour), while `[]=` raises out_of_range for the same index | raise out_of_range for a position at or past the end, as `insert` and `[]=` do | medium; not executed | VectorBinding.DeleteAtPastEndIsUndefined | VectorBinding.Vector.DeleteAt |
| include/rice/stl.hpp:1920-1936 | normalizeIndex computes `(-index) % size` for a negative index without checking that the vector is non-empty | on an empty vector, `v[-1]`, `v.insert(-1, x)` and `v[-1] = x` take a remainder by zero (undefined behaviour) | `[]` answers nil, and `insert` and `[]=` raise out_of_range, as they do for other indices outside the vector | medium; not executed | VectorBinding.NegativeIndexOnEmptyIsUndefined | VectorBinding.Vector.At |
