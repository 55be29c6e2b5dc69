/** Failure-carrying values shared by the whole model, and the one search
    primitive (`Enumerable#find`) every lookup is built from. */
module Results {

  /** A value that may be absent: Ruby's `nil` made explicit. */
  datatype Option<+T> = None | Some(value: T) {

    /** The carried value, or `default` when absent (Ruby's `x || default`). */
    function GetOr(default: T): T {
      match this
      case Some(v) => v
      case None => default
    }
  }

  /** The outcome of a computation that may raise: `Err` carries what it raised. */
  datatype Result<+T, +E> = Ok(value: T) | Err(error: E)

  /** The first element of `xs` satisfying `p`, or `None` when there is none
      (Ruby's `Enumerable#find`). */
  function FindFirst<T(==)>(xs: seq<T>, p: T -> bool): (r: Option<T>)
    ensures r.None? <==> forall i :: 0 <= i < |xs| ==> !p(xs[i])
    ensures r.Some? ==>
              exists i :: 0 <= i < |xs| && xs[i] == r.value && p(xs[i])
                          && forall j :: 0 <= j < i ==> !p(xs[j])
    ensures forall k :: 0 <= k < |xs| && p(xs[k]) && (forall j :: 0 <= j < k ==> !p(xs[j])) ==>
              r == Some(xs[k])
  {
    if |xs| == 0 then None
    else if p(xs[0]) then Some(xs[0])
    else
      var rest := FindFirst(xs[1..], p);
      if rest.Some? then
        var i :| 0 <= i < |xs[1..]| && xs[1..][i] == rest.value && p(xs[1..][i])
                 && forall j :: 0 <= j < i ==> !p(xs[1..][j]);
        assert xs[i + 1] == rest.value;
        assert forall j :: 0 <= j < i + 1 ==> !p(xs[j]) by {
          forall j | 0 <= j < i + 1 ensures !p(xs[j]) {
            if j > 0 { assert xs[j] == xs[1..][j - 1]; }
          }
        }
        rest
      else
        assert forall i :: 0 <= i < |xs| ==> !p(xs[i]) by {
          forall i | 0 <= i < |xs| ensures !p(xs[i]) {
            if i > 0 { assert xs[i] == xs[1..][i - 1]; }
          }
        }
        rest
  }
}
