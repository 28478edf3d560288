/** Option, Result and Outcome: stand-ins for null references and thrown exceptions. */
module Wrappers {

  datatype Option<+T> = None | Some(value: T)

  /** The value of an operation, or the exception it throws. */
  datatype Result<+R, +E> = Success(value: R) | Failure(error: E)

  /** Completion of a void operation, or the exception it throws. */
  datatype Outcome<+E> = Pass | Fail(error: E)

  /**
   * `f` applied to every element in order, stopping at the first failure: what a
   * `foreach` loop whose body may throw computes.
   */
  function MapResult<A, B, E>(xs: seq<A>, f: A -> Result<B, E>): (r: Result<seq<B>, E>)
    ensures r.Success? <==> forall i :: 0 <= i < |xs| ==> f(xs[i]).Success?
    ensures r.Success? ==> |r.value| == |xs| && forall i :: 0 <= i < |xs| ==> f(xs[i]) == Success(r.value[i])
    ensures r.Failure? ==> exists i :: 0 <= i < |xs| && f(xs[i]) == Failure(r.error)
                                       && forall j :: 0 <= j < i ==> f(xs[j]).Success?
  {
    if xs == [] then Success([])
    else
      match f(xs[0])
      case Failure(err) => Failure(err)
      case Success(y) =>
        match MapResult(xs[1..], f)
        case Failure(err) =>
          assert forall i :: 1 <= i < |xs| ==> xs[i] == xs[1..][i - 1];
          Failure(err)
        case Success(rest) =>
          assert forall i :: 1 <= i < |xs| ==> xs[i] == xs[1..][i - 1];
          Success([y] + rest)
  }

  /** One more element: the loop step of `MapResult`. */
  lemma MapResultSnoc<A, B, E>(xs: seq<A>, x: A, f: A -> Result<B, E>, ys: seq<B>)
    requires MapResult(xs, f) == Success(ys)
    ensures MapResult(xs + [x], f) == match f(x) case Success(y) => Success(ys + [y]) case Failure(e) => Failure(e)
  {
    var zs := xs + [x];
    assert forall i :: 0 <= i < |xs| ==> zs[i] == xs[i];
    assert zs[|xs|] == x;
    if f(x).Success? {
      var r := MapResult(zs, f);
      assert r.Success?;
      assert r.value == ys + [f(x).value];
    }
  }

  /** A failure within a prefix is the failure of the whole sequence. */
  lemma MapResultPrefixFailure<A, B, E>(xs: seq<A>, k: nat, f: A -> Result<B, E>)
    requires k <= |xs| && MapResult(xs[..k], f).Failure?
    ensures MapResult(xs, f) == MapResult(xs[..k], f)
  {
    var p := xs[..k];
    assert forall i :: 0 <= i < k ==> p[i] == xs[i];
    var i :| 0 <= i < k && f(p[i]) == Failure(MapResult(p, f).error) && forall j :: 0 <= j < i ==> f(p[j]).Success?;
    var r := MapResult(xs, f);
    assert !f(xs[i]).Success?;
    var i' :| 0 <= i' < |xs| && f(xs[i']) == Failure(r.error) && forall j :: 0 <= j < i' ==> f(xs[j]).Success?;
    assert i' == i;
  }

  /** The loop step: the next element either extends the mapped prefix or is the failure of the whole. */
  lemma MapResultStep<A, B, E>(xs: seq<A>, i: nat, f: A -> Result<B, E>, ys: seq<B>)
    requires i < |xs| && MapResult(xs[..i], f) == Success(ys)
    ensures f(xs[i]).Failure? ==> MapResult(xs, f) == Failure(f(xs[i]).error)
    ensures f(xs[i]).Success? ==> MapResult(xs[..i + 1], f) == Success(ys + [f(xs[i]).value])
  {
    assert xs[..i + 1] == xs[..i] + [xs[i]];
    MapResultSnoc(xs[..i], xs[i], f, ys);
    if f(xs[i]).Failure? {
      MapResultPrefixFailure(xs, i + 1, f);
    }
  }

  /** The values `f` yields, in order, skipping the elements it yields nothing for. */
  function Collect<A, B>(xs: seq<A>, f: A -> Option<B>): (r: seq<B>)
    ensures |r| <= |xs|
  {
    if xs == [] then []
    else (match f(xs[0]) case Some(y) => [y] case None => []) + Collect(xs[1..], f)
  }

  lemma {:induction false} CollectAppend<A, B>(a: seq<A>, b: seq<A>, f: A -> Option<B>)
    ensures Collect(a + b, f) == Collect(a, f) + Collect(b, f)
    decreases |a|
  {
    if a == [] {
      assert a + b == b;
    } else {
      var head := match f(a[0]) case Some(y) => [y] case None => [];
      assert (a + b)[0] == a[0];
      assert (a + b)[1..] == a[1..] + b;
      assert Collect(a + b, f) == head + Collect(a[1..] + b, f);
      CollectAppend(a[1..], b, f);
    }
  }

  /** Every collected value is what `f` yields for some element. */
  lemma {:induction false} CollectSources<A, B>(xs: seq<A>, f: A -> Option<B>)
    ensures forall y :: y in Collect(xs, f) ==> exists i :: 0 <= i < |xs| && f(xs[i]) == Some(y)
    decreases |xs|
  {
    if xs != [] {
      CollectSources(xs[1..], f);
      forall y | y in Collect(xs, f) ensures exists i :: 0 <= i < |xs| && f(xs[i]) == Some(y) {
        if y !in Collect(xs[1..], f) {
          assert f(xs[0]) == Some(y);
        } else {
          var i :| 0 <= i < |xs[1..]| && f(xs[1..][i]) == Some(y);
          assert xs[1..][i] == xs[i + 1];
        }
      }
    }
  }

  /** When `f` yields a value for every element, nothing is skipped. */
  lemma {:induction false} CollectEvery<A, B>(xs: seq<A>, f: A -> Option<B>)
    requires forall i :: 0 <= i < |xs| ==> f(xs[i]).Some?
    ensures |Collect(xs, f)| == |xs|
    ensures forall i :: 0 <= i < |xs| ==> Collect(xs, f)[i] == f(xs[i]).value
    decreases |xs|
  {
    if xs != [] {
      assert forall i :: 1 <= i < |xs| ==> xs[1..][i - 1] == xs[i];
      CollectEvery(xs[1..], f);
    }
  }

  /** The loop step of `Collect`. */
  lemma CollectStep<A, B>(xs: seq<A>, i: nat, f: A -> Option<B>)
    requires i < |xs|
    ensures Collect(xs[..i + 1], f) == Collect(xs[..i], f) + (match f(xs[i]) case Some(y) => [y] case None => [])
  {
    assert xs[..i + 1] == xs[..i] + [xs[i]];
    CollectAppend(xs[..i], [xs[i]], f);
    assert [xs[i]][1..] == [];
  }
}
