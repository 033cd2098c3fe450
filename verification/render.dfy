/** The text the to_s methods stream out: items separated by ", ". */
module Render {

  /** Items separated by ", " in order: the first item is written bare and
      every later one is preceded by ", ". */
  function Join(items: seq<string>): (r: string)
    decreases |items|
    ensures items == [] ==> r == ""
    ensures |items| == 1 ==> r == items[0]
  {
    if items == [] then ""
    else if |items| == 1 then items[0]
    else Join(items[..|items| - 1]) + ", " + items[|items| - 1]
  }

  /** The text starts with the first item. */
  lemma {:induction false} JoinStartsWithFirst(items: seq<string>)
    requires items != []
    ensures items[0] <= Join(items)
    decreases |items|
  {
    if |items| > 1 {
      var front := items[..|items| - 1];
      JoinStartsWithFirst(front);
      assert front[0] == items[0];
    }
  }

  /** Every element rendered by `show`, in order. */
  function Shown<T>(xs: seq<T>, show: T -> string): (r: seq<string>)
    ensures |r| == |xs| && forall i :: 0 <= i < |xs| ==> r[i] == show(xs[i])
  {
    seq(|xs|, i requires 0 <= i < |xs| => show(xs[i]))
  }

}
