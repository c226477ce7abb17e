/** Optional values, standing for Python's `None` or a value. */
module Wrappers {
  datatype Option<+T> = None | Some(value: T) {
    function GetOr(default: T): T {
      match this
      case Some(v) => v
      case None => default
    }
  }

  /**
   * A prompt that reads lines until one is accepted: the value of the first
   * accepted line and its 1-based position; None when every line is
   * rejected, which is the prompt running out of input.
   */
  function FirstSome<T>(xs: seq<Option<T>>): (r: Option<(T, nat)>)
    ensures r.None? <==> forall j :: 0 <= j < |xs| ==> xs[j].None?
    ensures r.Some? ==> 1 <= r.value.1 <= |xs| && xs[r.value.1 - 1] == Some(r.value.0)
    ensures r.Some? ==> forall j :: 0 <= j < r.value.1 - 1 ==> xs[j].None?
  {
    if xs == [] then None
    else match xs[0]
      case Some(v) => Some((v, 1))
      case None =>
        var rest := FirstSome(xs[1..]);
        if rest.None? then None
        else Some((rest.value.0, rest.value.1 + 1))
  }

  /** The line accepted is the first one accepted, whatever follows it. */
  lemma FirstSomeAt<T>(xs: seq<Option<T>>, i: nat)
    requires i < |xs| && xs[i].Some?
    requires forall j :: 0 <= j < i ==> xs[j].None?
    ensures FirstSome(xs) == Some((xs[i].value, i + 1))
  {
  }
}
