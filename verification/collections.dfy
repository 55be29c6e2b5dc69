/** Sequence combinators the component is built from: `flatten`, and `map`
    with a block that may raise (the first raise aborts the whole map). */
module Collections {
  import opened Results

  /** The groups concatenated in order. */
  function Flatten<T>(gs: seq<seq<T>>): seq<T> {
    if |gs| == 0 then [] else gs[0] + Flatten(gs[1..])
  }

  lemma {:induction false} FlattenAppend<T>(gs: seq<seq<T>>, g: seq<T>)
    ensures Flatten(gs + [g]) == Flatten(gs) + g
  {
    if |gs| > 0 {
      assert (gs + [g])[1..] == gs[1..] + [g];
      FlattenAppend(gs[1..], g);
    }
  }

  /** `xs.map { f(_1) }` where `f` may raise: the results in order, or the
      first error raised. */
  function MapResult<A, B, E>(f: A -> Result<B, E>, xs: seq<A>): (r: Result<seq<B>, E>)
    ensures r.Ok? ==> |r.value| == |xs|
  {
    if |xs| == 0 then Ok([])
    else
      match f(xs[0])
      case Err(e) => Err(e)
      case Ok(y) =>
        match MapResult(f, xs[1..])
        case Err(e) => Err(e)
        case Ok(ys) => Ok([y] + ys)
  }

  /** `MapResult(f, _)` as a block of its own, for mapping over groups. */
  function MapEach<A, B, E>(f: A -> Result<B, E>): seq<A> -> Result<seq<B>, E> {
    xs => MapResult(f, xs)
  }

  /** The map succeeds exactly when the block succeeds on every element. */
  lemma {:induction false} MapResultSucceeds<A, B, E>(f: A -> Result<B, E>, xs: seq<A>)
    ensures MapResult(f, xs).Ok? <==> forall i :: 0 <= i < |xs| ==> f(xs[i]).Ok?
  {
    if |xs| > 0 {
      MapResultSucceeds(f, xs[1..]);
      assert forall i :: 1 <= i < |xs| ==> xs[i] == xs[1..][i - 1];
    }
  }

  /** A successful map holds the block's result for each element, in order. */
  lemma {:induction false} MapResultContents<A, B, E>(f: A -> Result<B, E>, xs: seq<A>)
    requires MapResult(f, xs).Ok?
    ensures forall i :: 0 <= i < |xs| ==> f(xs[i]) == Ok(MapResult(f, xs).value[i])
  {
    if |xs| > 0 {
      var y, ys := f(xs[0]).value, MapResult(f, xs[1..]).value;
      assert MapResult(f, xs).value == [y] + ys;
      MapResultContents(f, xs[1..]);
      forall i | 1 <= i < |xs| ensures f(xs[i]) == Ok(MapResult(f, xs).value[i]) {
        assert xs[i] == xs[1..][i - 1];
      }
    }
  }

  /** A failed map raises what the block raised on the first element it
      fails on. */
  lemma {:induction false} MapResultFirstError<A, B, E>(f: A -> Result<B, E>, xs: seq<A>)
    requires MapResult(f, xs).Err?
    ensures exists i :: 0 <= i < |xs| && f(xs[i]) == Err(MapResult(f, xs).error)
                        && forall j :: 0 <= j < i ==> f(xs[j]).Ok?
  {
    var e := MapResult(f, xs).error;
    if f(xs[0]).Ok? {
      var tail := xs[1..];
      MapResultFirstError(f, tail);
      var k :| 0 <= k < |tail| && f(tail[k]) == Err(e) && forall j :: 0 <= j < k ==> f(tail[j]).Ok?;
      assert xs[k + 1] == tail[k];
      forall j | 0 <= j < k + 1 ensures f(xs[j]).Ok? {
        if j > 0 { assert xs[j] == tail[j - 1]; }
      }
    } else {
      assert f(xs[0]) == Err(e);
    }
  }

  /** Mapping a concatenation after a successful prefix: the prefix's results
      followed by the rest's, or the rest's error. */
  lemma {:induction false} MapResultAppend<A, B, E>(f: A -> Result<B, E>, a: seq<A>, b: seq<A>)
    requires MapResult(f, a).Ok?
    ensures MapResult(f, a + b)
            == match MapResult(f, b)
               case Ok(ys) => Ok(MapResult(f, a).value + ys)
               case Err(e) => Err(e)
  {
    if |a| > 0 {
      assert (a + b)[0] == a[0];
      assert (a + b)[1..] == a[1..] + b;
      var y, ya := f(a[0]).value, MapResult(f, a[1..]).value;
      assert MapResult(f, a).value == [y] + ya;
      MapResultAppend(f, a[1..], b);
      match MapResult(f, b)
      case Ok(yb) => assert [y] + (ya + yb) == ([y] + ya) + yb;
      case Err(_) =>
    } else {
      assert a + b == b;
      match MapResult(f, b)
      case Ok(yb) => assert [] + yb == yb;
      case Err(_) =>
    }
  }

  /** Mapping a concatenation whose prefix fails raises the prefix's error. */
  lemma {:induction false} MapResultErrPrefix<A, B, E>(f: A -> Result<B, E>, a: seq<A>, b: seq<A>)
    requires MapResult(f, a).Err?
    ensures MapResult(f, a + b) == MapResult(f, a)
  {
    assert (a + b)[0] == a[0];
    if f(a[0]).Ok? {
      assert (a + b)[1..] == a[1..] + b;
      MapResultErrPrefix(f, a[1..], b);
    }
  }

  /** Mapping group by group and flattening is mapping the flattened groups,
      results and first error alike. */
  lemma {:induction false} MapResultFlatten<A, B, E>(f: A -> Result<B, E>, gs: seq<seq<A>>)
    ensures MapResult(f, Flatten(gs))
            == match MapResult(MapEach(f), gs)
               case Ok(yss) => Ok(Flatten(yss))
               case Err(e) => Err(e)
  {
    if |gs| > 0 {
      MapResultFlatten(f, gs[1..]);
      var r0 := MapResult(f, gs[0]);
      assert MapEach(f)(gs[0]) == r0;
      if r0.Ok? {
        MapResultAppend(f, gs[0], Flatten(gs[1..]));
        match MapResult(MapEach(f), gs[1..])
        case Ok(yss) =>
          assert Flatten([r0.value] + yss) == r0.value + Flatten(yss) by {
            assert ([r0.value] + yss)[1..] == yss;
          }
        case Err(_) =>
      } else {
        MapResultErrPrefix(f, gs[0], Flatten(gs[1..]));
      }
    }
  }

  /** A successful map over groups yields one result group per group, each
      as long as its group. */
  lemma {:induction false} MapEachLengths<A, B, E>(f: A -> Result<B, E>, gs: seq<seq<A>>)
    requires MapResult(MapEach(f), gs).Ok?
    ensures var yss := MapResult(MapEach(f), gs).value;
            |yss| == |gs| && forall i :: 0 <= i < |gs| ==> |yss[i]| == |gs[i]|
  {
    MapResultContents(MapEach(f), gs);
  }
}
