/** The std::pair binding (PairHelper). */
module PairBinding {
  import opened Wrappers
  import opened Traits
  import opened Render
  import VectorBinding

  /** A bound std::pair<A, B>; `traits` describes both member types
      together (copyable when both are, printable when both are). */
  class Pair<A, B> {
    var first: A
    var second: B
    const traits: ElementTraits

    constructor (first: A, second: B, traits: ElementTraits)
      ensures this.first == first && this.second == second && this.traits == traits
    {
      this.first := first;
      this.second := second;
      this.traits := traits;
    }

    /** `first=`: replace the first member and return it. */
    method SetFirst(value: A) returns (r: A)
      modifies this
      ensures first == value && second == old(second) && r == value
    {
      first := value;
      r := first;
    }

    /** `second=`: replace the second member and return it. */
    method SetSecond(value: B) returns (r: B)
      modifies this
      ensures second == value && first == old(first) && r == value
    {
      second := value;
      r := second;
    }

    /** `to_s`: "[first, second]", or the placeholder. */
    function ToS(showA: A -> string, showB: B -> string): (r: string)
      reads this
      ensures traits.printable ==> r == "[" + Join([showA(first), showB(second)]) + "]"
      ensures !traits.printable ==> r == NotPrintable
    {
      if traits.printable then "[" + showA(first) + ", " + showB(second) + "]" else NotPrintable
    }

    /** `copy`: an independent pair with the same members, or a
      runtime_error when either member type is not copy-constructible. */
    method Copy() returns (r: Result<Pair<A, B>>)
      ensures traits.copyable ==> (r.Ok? && fresh(r.value) && r.value.first == first &&
        r.value.second == second && r.value.traits == traits)
      ensures !traits.copyable ==> r == Err(NotCopyable("pair"))
    {
      if !traits.copyable {
        return Err(NotCopyable("pair"));
      }
      var p := new Pair(first, second, traits);
      return Ok(p);
    }
  }

  /** A pair is rendered exactly as a two-element vector of its members. */
  lemma PairRendersLikeVector<T>(p: Pair<T, T>, show: T -> string)
    ensures p.ToS(show, show) == VectorBinding.VectorText([p.first, p.second], show, p.traits.printable)
  {
    var s := [p.first, p.second];
    assert s[..2] == s;
    var items := [show(p.first), show(p.second)];
    assert Shown(s, show) == items;
    assert items[..1] == [show(p.first)];
    assert Join(items) == show(p.first) + ", " + show(p.second);
  }
}
