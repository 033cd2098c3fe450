/** The std::vector binding (VectorHelper): Ruby-style index normalisation
    and the methods bound on the generated class. */
module VectorBinding {
  import opened Wrappers
  import opened Traits
  import opened Render

  /** normalizeIndex: a negative index counts from the right and wraps
      around modulo the size; with `enforceBounds` an index that is still
      outside [0, size) raises out_of_range. A negative index on an empty
      vector would divide by zero in the source, hence the precondition. */
  function NormalizeIndex(size: nat, index: int, enforceBounds: bool): (r: Result<int>)
    requires index >= 0 || size > 0
    ensures r.Ok? <==> !enforceBounds || index < size
    ensures r.Ok? && index >= 0 ==> r.value == index
    ensures r.Ok? && index < 0 ==> 0 <= r.value < size && r.value == index % size
    ensures r.Err? ==> r.error == OutOfRange(index)
  {
    var i :=
      if index < 0 then
        var m := (-index) % size;
        WrapIsRemainder(size, index);
        if m > 0 then size - m else m
      else index;
    if enforceBounds && (i < 0 || i >= size) then Err(OutOfRange(i)) else Ok(i)
  }

  /** The source's two-step wrap, `size - ((-index) % size)` or 0, is the
      Euclidean remainder of the negative index. */
  lemma WrapIsRemainder(size: nat, index: int)
    requires size > 0 && index < 0
    ensures var m := (-index) % size; (if m > 0 then size - m else m) == index % size
  {
    var n := -index;
    var q, m := n / size, n % size;
    assert n == q * size + m;
    if m > 0 {
      assert index == (-q - 1) * size + (size - m);
      RemainderUnique(index, size, -q - 1, size - m);
    } else {
      assert index == (-q) * size + 0;
      RemainderUnique(index, size, -q, 0);
    }
  }

  lemma MultipleBound(k: int, d: nat)
    requires d > 0
    ensures k >= 1 ==> k * d >= d
    ensures k <= -1 ==> k * d + d <= 0
  {
    if k >= 1 {
      assert k * d == (k - 1) * d + d;
      assert (k - 1) * d >= 0;
    } else if k <= -1 {
      assert k * d == (k + 1) * d - d;
      assert (k + 1) * d <= 0;
    }
  }

  lemma RemainderUnique(x: int, d: nat, q: int, r: int)
    requires d > 0 && x == q * d + r && 0 <= r < d
    ensures x % d == r
  {
    var k := q - x / d;
    assert x == (x / d) * d + x % d;
    assert k * d == q * d - (x / d) * d;
    assert k * d == x % d - r;
    MultipleBound(k, d);
  }

  /** -1 is the last position and -size the first. */
  lemma NormalizeIndexEnds(size: nat)
    requires size > 0
    ensures NormalizeIndex(size, -1, true) == Ok(size - 1)
    ensures NormalizeIndex(size, -(size as int), true) == Ok(0)
  {
    RemainderUnique(-1, size, -1, size - 1);
    RemainderUnique(-(size as int), size, -1, 0);
  }

  /** A negative index within [-size, -1] means size + index, as in Ruby. */
  lemma NormalizeIndexFromRight(size: nat, index: int)
    ensures 0 <= size + index && index < 0 ==> NormalizeIndex(size, index, true) == Ok(size + index)
  {
    if 0 <= size + index && index < 0 {
      RemainderUnique(index, size, -1, size + index);
    }
  }

  /** Further left, negative indices wrap around: stepping size positions
      to the left lands on the same position. */
  lemma NormalizeIndexWrapsAround(size: nat, index: int)
    requires size > 0 && index < 0
    ensures NormalizeIndex(size, index - size, false) == NormalizeIndex(size, index, false)
  {
    var q, m := index / size, index % size;
    assert index == q * size + m;
    assert index - size == (q - 1) * size + m;
    RemainderUnique(index - size, size, q - 1, m);
  }

  /** std::find: the position of the first element equal to x. */
  function FindFirst<T(==)>(s: seq<T>, x: T): (r: Option<nat>)
    ensures r.None? <==> x !in s
    ensures r.Some? ==> r.value < |s| && s[r.value] == x && forall j :: 0 <= j < r.value ==> s[j] != x
  {
    if s == [] then None
    else if s[0] == x then Some(0)
    else match FindFirst(s[1..], x)
      case None => None
      case Some(i) => Some(i + 1)
  }

  /** Vector#to_s: "[" then the first 1000 elements separated by ", " then
      "]"; the placeholder when elements cannot be streamed. */
  const MaxShown: nat := 1000

  function VectorText<T>(s: seq<T>, show: T -> string, printable: bool): (r: string)
    ensures !printable ==> r == NotPrintable
    ensures printable ==> 2 <= |r| && r[0] == '[' && r[|r| - 1] == ']'
    ensures printable && s == [] ==> r == "[]"
    ensures printable && s != [] ==> show(s[0]) <= r[1..]
  {
    if !printable then NotPrintable
    else
      var items := Shown(s[..if |s| > MaxShown then MaxShown else |s|], show);
      assert items != [] ==> items[0] <= Join(items) by {
        if items != [] { JoinStartsWithFirst(items); }
      }
      "[" + Join(items) + "]"
  }

  /** Elements past the 1000th do not show: the text of a long vector is the
      text of its first 1000 elements. */
  lemma VectorTextTruncates<T>(s: seq<T>, show: T -> string, printable: bool)
    requires |s| > MaxShown
    ensures VectorText(s, show, printable) == VectorText(s[..MaxShown], show, printable)
  {
    assert s[..MaxShown][..MaxShown] == s[..MaxShown];
  }

  /** Appending an element to a vector that shows all its elements inserts
      ", " and that element's text before the closing bracket. */
  lemma VectorTextAppend<T>(s: seq<T>, x: T, show: T -> string)
    requires 0 < |s| < MaxShown
    ensures var t := VectorText(s, show, true);
      VectorText(s + [x], show, true) == t[..|t| - 1] + ", " + show(x) + "]"
  {
    var t := VectorText(s, show, true);
    assert (s + [x])[..|s| + 1] == s + [x];
    assert s[..|s|] == s;
    assert Shown(s + [x], show)[..|s|] == Shown(s, show);
    assert t[..|t| - 1] == "[" + Join(Shown(s, show));
  }

  /** What `delete_at` does as written: `self.begin() + pos` is not checked,
      so a position at or past the end dereferences past the last element. */
  datatype Erasure<T> = Erased(removed: T, rest: seq<T>) | UndefinedBehaviour

  function DeleteAtAsWritten<T>(s: seq<T>, pos: nat): (r: Erasure<T>)
    ensures r.Erased? <==> pos < |s|
    ensures r.Erased? ==> (r.removed == s[pos] && |r.rest| == |s| - 1 &&
      (forall j :: 0 <= j < pos ==> r.rest[j] == s[j]) &&
      (forall j :: pos <= j < |r.rest| ==> r.rest[j] == s[j + 1]))
  {
    if pos < |s| then Erased(s[pos], s[..pos] + s[pos + 1..]) else UndefinedBehaviour
  }

  /** The input that shows it: on [1, 2, 3], `delete_at(3)` has no defined
      result, while `[]` answers nil and `[]=` raises out_of_range for the
      same index. */
  lemma DeleteAtPastEndIsUndefined()
    ensures DeleteAtAsWritten([1, 2, 3], 3) == UndefinedBehaviour
    ensures NormalizeIndex(3, 3, false) == Ok(3)
    ensures NormalizeIndex(3, 3, true) == Err(OutOfRange(3))
  {
  }

  /** normalizeIndex as written: for a negative index it takes
      `(-index) % size` without checking the size, so on an empty vector the
      result is undefined (None here); everywhere else it is NormalizeIndex. */
  function NormalizeIndexAsWritten(size: nat, index: int, enforceBounds: bool): (r: Option<Result<int>>)
    ensures r.None? <==> index < 0 && size == 0
    ensures r.Some? ==> r.value == NormalizeIndex(size, index, enforceBounds)
  {
    if index < 0 && size == 0 then None else Some(NormalizeIndex(size, index, enforceBounds))
  }

  /** The input that shows it: on an empty vector, `[-1]`, `insert(-1, x)`
      and `[-1] = x` all reach the remainder by zero. */
  lemma NegativeIndexOnEmptyIsUndefined()
    ensures NormalizeIndexAsWritten(0, -1, false) == None
    ensures NormalizeIndexAsWritten(0, -1, true) == None
    ensures NormalizeIndexAsWritten(1, -1, true) == Some(Ok(0))
  {
  }

  /** A bound std::vector<T>: its elements and the traits of T. */
  class Vector<T(==)> {
    var elems: seq<T>
    const traits: ElementTraits

    constructor (traits: ElementTraits)
      ensures elems == [] && this.traits == traits
    {
      elems := [];
      this.traits := traits;
    }

    /** `first`: the front element, absent when the vector is empty. */
    function First(): (r: Option<T>)
      reads this
      ensures r.Some? <==> elems != []
      ensures r.Some? ==> r.value == elems[0]
    {
      if |elems| > 0 then Some(elems[0]) else None
    }

    /** `last`: the back element, absent when the vector is empty. */
    function Last(): (r: Option<T>)
      reads this
      ensures r.Some? <==> elems != []
      ensures r.Some? ==> r.value == elems[|elems| - 1]
    {
      if |elems| > 0 then Some(elems[|elems| - 1]) else None
    }

    /** `[]` / `at`: reading never raises. An index at or past the end gives
      absent; on a non-empty vector every negative index names an element
      (counting from the right, wrapping around); an empty vector answers
      absent for every index. */
    function At(index: int): (r: Option<T>)
      reads this
      ensures r.Some? <==> elems != [] && index < |elems|
      ensures 0 <= index < |elems| ==> r == Some(elems[index])
      ensures 0 <= |elems| + index && index < 0 && elems != [] ==> r == Some(elems[|elems| + index])
      ensures index < 0 && elems != [] ==> r == Some(elems[index % |elems|])
    {
      if index < 0 && elems == [] then None
      else
        NormalizeIndexFromRight(|elems|, index);
        var i := NormalizeIndex(|elems|, index, false).value;
        if i < 0 || i >= |elems| then None else Some(elems[i])
    }

    /** `include?`: whether some element equals `element`; always false when
      the element type has no operator==. */
    function Includes(element: T): (r: bool)
      reads this
      ensures r <==> traits.comparable && element in elems
    {
      if traits.comparable then FindFirst(elems, element).Some? else false
    }

    /** `index`: the position of the first element equal to `element`;
      absent when there is none or the element type has no operator==. */
    function Index(element: T): (r: Option<nat>)
      reads this
      ensures r.None? <==> !traits.comparable || element !in elems
      ensures r.Some? ==> (r.value < |elems| && elems[r.value] == element &&
        forall j :: 0 <= j < r.value ==> elems[j] != element)
    {
      if traits.comparable then FindFirst(elems, element) else None
    }

    /** `insert`: the element goes in before the normalised position, which
      must name an existing element (inserting at the size raises). */
    method Insert(index: int, element: T) returns (r: Result<()>)
      modifies this
      ensures r.Ok? <==> old(elems) != [] && index < |old(elems)|
      ensures r.Ok? ==> var i := NormalizeIndex(|old(elems)|, index, true).value;
        elems == old(elems)[..i] + [element] + old(elems)[i..]
      ensures r.Err? ==> r == Err(OutOfRange(index)) && elems == old(elems)
    {
      if index < 0 && elems == [] {
        return Err(OutOfRange(index));
      }
      var i := NormalizeIndex(|elems|, index, true);
      if i.Err? {
        return Err(i.error);
      }
      elems := elems[..i.value] + [element] + elems[i.value..];
      return Ok(());
    }

    /** `[]=`: overwrite the element at the normalised position and return
      the new element; an index at or past the end raises. */
    method Assign(index: int, element: T) returns (r: Result<T>)
      modifies this
      ensures r.Ok? <==> old(elems) != [] && index < |old(elems)|
      ensures r.Ok? ==> (r.value == element &&
        elems == old(elems)[NormalizeIndex(|old(elems)|, index, true).value := element])
      ensures r.Err? ==> r == Err(OutOfRange(index)) && elems == old(elems)
    {
      if index < 0 && elems == [] {
        return Err(OutOfRange(index));
      }
      var i := NormalizeIndex(|elems|, index, true);
      if i.Err? {
        return Err(i.error);
      }
      elems := elems[i.value := element];
      return Ok(element);
    }

    /** `push` / `<<` / `append`. */
    method Push(element: T)
      modifies this
      ensures elems == old(elems) + [element]
    {
      elems := elems + [element];
    }

    /** `pop`: remove and return the back element; absent on an empty vector,
      which stays as it is. */
    method Pop() returns (r: Option<T>)
      modifies this
      ensures old(elems) == [] ==> r.None? && elems == []
      ensures old(elems) != [] ==> (r == Some(old(elems)[|old(elems)| - 1]) &&
        elems == old(elems)[..|old(elems)| - 1])
    {
      if |elems| > 0 {
        r := Some(elems[|elems| - 1]);
        elems := elems[..|elems| - 1];
      } else {
        r := None;
      }
    }

    /** `delete_at`, with the bounds check the source lacks: a position past
      the end raises out_of_range instead of reading past the last element.
      Wherever the source is defined the two agree. */
    method DeleteAt(pos: nat) returns (r: Result<T>)
      modifies this
      ensures pos < |old(elems)| ==> r.Ok? && DeleteAtAsWritten(old(elems), pos) == Erased(r.value, elems)
      ensures pos >= |old(elems)| ==> r == Err(OutOfRange(pos)) && elems == old(elems)
    {
      if pos >= |elems| {
        return Err(OutOfRange(pos));
      }
      r := Ok(elems[pos]);
      elems := elems[..pos] + elems[pos + 1..];
    }

    /** `clear`. */
    method Clear()
      modifies this
      ensures elems == []
    {
      elems := [];
    }

    /** `delete`: remove the first element equal to `element` and return it;
      absent, with the vector unchanged, when there is none or the element
      type has no operator==. */
    method Delete(element: T) returns (r: Option<T>)
      modifies this
      ensures !traits.comparable || element !in old(elems) ==> r.None? && elems == old(elems)
      ensures traits.comparable && element in old(elems) ==>
        var i := FindFirst(old(elems), element).value;
        r == Some(old(elems)[i]) && elems == old(elems)[..i] + old(elems)[i + 1..]
    {
      if !traits.comparable {
        return None;
      }
      var found := FindFirst(elems, element);
      if found.None? {
        return None;
      }
      var i := found.value;
      r := Some(elems[i]);
      elems := elems[..i] + elems[i + 1..];
    }

    /** `resize`: truncate, or extend with default-constructed elements
      (`fill`); does nothing when the element type has no default
      constructor. */
    method Resize(newSize: nat, fill: T)
      modifies this
      ensures traits.defaultConstructible && newSize <= |old(elems)| ==> elems == old(elems)[..newSize]
      ensures traits.defaultConstructible && newSize > |old(elems)| ==>
        elems == old(elems) + seq(newSize - |old(elems)|, _ => fill)
      ensures !traits.defaultConstructible ==> elems == old(elems)
    {
      if traits.defaultConstructible {
        if newSize <= |elems| {
          elems := elems[..newSize];
        } else {
          elems := elems + seq(newSize - |elems|, _ => fill);
        }
      }
    }

    /** `copy`: an independent vector with the same elements, or a
      runtime_error when the element type is not copy-constructible. */
    method Copy() returns (r: Result<Vector<T>>)
      ensures traits.copyable ==> r.Ok? && fresh(r.value) && r.value.elems == elems && r.value.traits == traits
      ensures !traits.copyable ==> r == Err(NotCopyable("vectors"))
    {
      if !traits.copyable {
        return Err(NotCopyable("vectors"));
      }
      var v := new Vector(traits);
      v.elems := elems;
      return Ok(v);
    }

    /** `each`: the elements handed to the block, one per step, in order. */
    method Each() returns (yielded: seq<T>)
      ensures yielded == elems
    {
      yielded := [];
      var i := 0;
      while i < |elems|
        invariant 0 <= i <= |elems|
        invariant yielded == elems[..i]
      {
        yielded := yielded + [elems[i]];
        i := i + 1;
      }
    }

    /** `to_s`: stream the opening bracket, then the first (at most 1000)
      elements with ", " before all but the first, then the closing
      bracket. */
    method ToS(show: T -> string) returns (r: string)
      ensures r == VectorText(elems, show, traits.printable)
    {
      if !traits.printable {
        return NotPrintable;
      }
      var finish := if |elems| > MaxShown then MaxShown else |elems|;
      var stream := "[";
      var i := 0;
      while i < finish
        invariant 0 <= i <= finish
        invariant stream == "[" + Join(Shown(elems[..i], show))
      {
        assert elems[..i + 1][..i] == elems[..i];
        assert Shown(elems[..i + 1], show)[..i] == Shown(elems[..i], show);
        if i == 0 {
          stream := stream + show(elems[i]);
        } else {
          stream := stream + ", " + show(elems[i]);
        }
        i := i + 1;
      }
      r := stream + "]";
    }
  }

  /** `push` then `pop` hands back the pushed element and restores the
      vector. */
  method PushThenPop<T(==)>(v: Vector<T>, x: T) returns (r: Option<T>)
    modifies v
    ensures r == Some(x) && v.elems == old(v.elems)
  {
    v.Push(x);
    r := v.Pop();
  }
}
