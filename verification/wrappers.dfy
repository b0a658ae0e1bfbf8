/** Option and Result values for absent fields and failed operations. */
module Wrappers {

  datatype Option<+T> = None | Some(value: T) {
    /** The wrapped value, or `default` when there is none. */
    function GetOr(default: T): T {
      match this
      case Some(v) => v
      case None => default
    }
  }

  datatype Result<+R, +E> = Ok(value: R) | Err(error: E)

  /** The values of `rs` in order when every one is Ok; otherwise the first error.
      This is a loop that appends each value and stops at the first exception. */
  function Collect<T, E>(rs: seq<Result<T, E>>): Result<seq<T>, E> {
    if |rs| == 0 then Ok([])
    else
      match Collect(rs[..|rs| - 1])
      case Err(e) => Err(e)
      case Ok(vs) =>
        match rs[|rs| - 1]
        case Err(e) => Err(e)
        case Ok(v) => Ok(vs + [v])
  }

  /** Collect succeeds exactly when every result is Ok, and then keeps every value
      in order; otherwise it fails with the error of the first failing result. */
  lemma {:induction false} CollectSpec<T, E>(rs: seq<Result<T, E>>)
    ensures Collect(rs).Ok? <==> forall i :: 0 <= i < |rs| ==> rs[i].Ok?
    ensures Collect(rs).Ok? ==>
      |Collect(rs).value| == |rs| && forall i :: 0 <= i < |rs| ==> Collect(rs).value[i] == rs[i].value
    ensures Collect(rs).Err? ==>
      exists i :: 0 <= i < |rs| && rs[i] == Err(Collect(rs).error) && forall j :: 0 <= j < i ==> rs[j].Ok?
  {
    if |rs| > 0 {
      var init := rs[..|rs| - 1];
      CollectSpec(init);
      assert forall i :: 0 <= i < |init| ==> init[i] == rs[i];
      if Collect(init).Err? {
        var i :| 0 <= i < |init| && init[i] == Err(Collect(init).error) && forall j :: 0 <= j < i ==> init[j].Ok?;
        assert rs[i] == Err(Collect(rs).error);
      } else if Collect(rs).Err? {
        assert rs[|rs| - 1] == Err(Collect(rs).error);
      }
    }
  }

  /** One more result after a successful prefix. */
  lemma CollectSnoc<T, E>(rs: seq<Result<T, E>>, x: Result<T, E>)
    ensures Collect(rs + [x]) ==
      match Collect(rs)
      case Err(e) => Err(e)
      case Ok(vs) => (match x case Err(e) => Err(e) case Ok(v) => Ok(vs + [v]))
  {
    assert (rs + [x])[..|rs|] == rs;
  }

  /** Once Collect fails, later results do not change its error. */
  lemma {:induction false} CollectErrSticks<T, E>(a: seq<Result<T, E>>, b: seq<Result<T, E>>)
    requires Collect(a).Err?
    ensures Collect(a + b) == Collect(a)
    decreases |b|
  {
    if |b| > 0 {
      var b' := b[..|b| - 1];
      CollectErrSticks(a, b');
      assert (a + b)[..|a + b| - 1] == a + b';
    } else {
      assert a + b == a;
    }
  }

  /** The loop that collects `rs` one by one: after an Ok, the prefix grows by its value. */
  lemma CollectPrefixOk<T, E>(rs: seq<Result<T, E>>, i: nat, vs: seq<T>)
    requires i < |rs| && rs[i].Ok?
    requires Collect(rs[..i]) == Ok(vs)
    ensures Collect(rs[..i + 1]) == Ok(vs + [rs[i].value])
  {
    assert rs[..i + 1][..i] == rs[..i];
  }

  /** ... and at the first Err, that error is the outcome for the whole of `rs`. */
  lemma CollectPrefixErr<T, E>(rs: seq<Result<T, E>>, i: nat, vs: seq<T>)
    requires i < |rs| && rs[i].Err?
    requires Collect(rs[..i]) == Ok(vs)
    ensures Collect(rs) == Err(rs[i].error)
  {
    assert rs[..i + 1][..i] == rs[..i];
    CollectErrSticks(rs[..i + 1], rs[i + 1..]);
    assert rs[..i + 1] + rs[i + 1..] == rs;
  }

  /** Collecting a concatenation: the first part's values, then the second part's,
      when the first part succeeds. */
  lemma {:induction false} CollectAppend<T, E>(a: seq<Result<T, E>>, b: seq<Result<T, E>>, vs: seq<T>)
    requires Collect(a) == Ok(vs)
    ensures Collect(a + b) ==
      match Collect(b)
      case Err(e) => Err(e)
      case Ok(ws) => Ok(vs + ws)
    decreases |b|
  {
    if |b| == 0 {
      assert a + b == a && vs + [] == vs;
    } else {
      var b' := b[..|b| - 1];
      CollectAppend(a, b', vs);
      assert (a + b)[..|a + b| - 1] == a + b';
      assert (a + b)[|a + b| - 1] == b[|b| - 1];
      match Collect(b') {
        case Err(e) =>
        case Ok(ws) =>
          if b[|b| - 1].Ok? {
            assert vs + (ws + [b[|b| - 1].value]) == vs + ws + [b[|b| - 1].value];
          }
      }
    }
  }
}
