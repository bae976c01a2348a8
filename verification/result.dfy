/**
 * The `Result` monad: a success holding a value, or a failure holding the runtime exception that stopped the
 * computation. A Java value that may be null is an `Option` inside the success.
 */
module JavaResult {
  import opened Wrappers

  /** A runtime exception, by its class name and message. */
  datatype Exception = Exception(className: string, message: string)

  /** What dereferencing a Java `null` throws. */
  const NullPointer := Exception("NullPointerException", "")

  datatype Result<V> = Success(value: V) | Failure(error: Exception) {
    predicate IsSuccess() { !IsFailure() }

    /** A failure is exactly a result whose error is present. */
    predicate IsFailure() { GetError().Some? }

    function GetError(): (e: Option<Exception>)
      ensures e.Some? <==> this.Failure?
    {
      match this
      case Success(_) => None
      case Failure(e) => Some(e)
    }

    /** `findCause` is a stub: it never finds anything. */
    function FindCause(predicate_: Exception -> bool): (r: Option<Exception>)
      ensures r == None
    {
      None
    }

    function Map<W>(f: V -> W): (r: Result<W>)
      ensures this.Failure? ==> r == Failure(error)
      ensures this.Success? ==> r == Success(f(value))
    {
      match this
      case Success(v) => Success(f(v))
      case Failure(e) => Failure(e)
    }

    function FlatMap<W>(f: V -> Result<W>): (r: Result<W>)
      ensures this.Failure? ==> r == Failure(error)
      ensures this.Success? ==> r == f(value)
    {
      match this
      case Success(v) => f(v)
      case Failure(e) => Failure(e)
    }

    function GetOrElse(defaultValue: V): (r: V)
      ensures this.Success? ==> r == value
      ensures this.Failure? ==> r == defaultValue
    {
      match this
      case Success(v) => v
      case Failure(_) => defaultValue
    }

    function OrElse(defaultValue: () -> Result<V>): (r: Result<V>)
      ensures this.Success? ==> r == this
      ensures this.Failure? ==> r == defaultValue()
    {
      match this
      case Success(_) => this
      case Failure(_) => defaultValue()
    }

    /** The values `forEach` hands to its consumer. */
    function ForEach(): (r: seq<V>)
      ensures |r| <= 1
      ensures this.Success? ==> r == [value]
      ensures this.Failure? ==> r == []
    {
      match this
      case Success(v) => [v]
      case Failure(_) => []
    }
  }

  /** `Result.failure(message)`: an `IllegalStateException` carrying the message. */
  function FailureOf<V>(message: string): (r: Result<V>)
    ensures r.IsFailure() && r.error.message == message
  {
    Failure(Exception("IllegalStateException", message))
  }

  /** `stream()` of a result whose value may be null: empty for a failure and for a null success. */
  function Stream<V>(r: Result<Option<V>>): (s: seq<V>)
    ensures |s| <= 1
    ensures |s| == 1 <==> r.Success? && r.value.Some?
    ensures |s| == 1 ==> s[0] == r.value.value
  {
    match r
    case Success(Some(v)) => [v]
    case _ => []
  }

  /** `map` keeps the shape of a result and composes. */
  lemma MapIdentity<V>(r: Result<V>)
    ensures r.Map(x => x) == r
  {
  }

  lemma MapCompose<U, V, W>(r: Result<U>, f: U -> V, g: V -> W)
    ensures r.Map(f).Map(g) == r.Map(x => g(f(x)))
  {
  }

  /** `flatMap` is associative, and `success` is its unit. */
  lemma FlatMapLaws<U, V, W>(r: Result<U>, u: U, f: U -> Result<V>, g: V -> Result<W>)
    ensures Success(u).FlatMap(f) == f(u)
    ensures r.FlatMap(x => Success(x)) == r
    ensures r.FlatMap(f).FlatMap(g) == r.FlatMap(x => f(x).FlatMap(g))
  {
  }

  /** The values of `results`, or the first failure among them. */
  function CollectOrFailOnFirst<V>(results: seq<Result<V>>): (r: Result<seq<V>>)
    ensures |results| == 0 ==> r == Success([])
  {
    if |results| == 0 then Success([])
    else Collected(CollectOrFailOnFirst(results[..|results| - 1]), results[|results| - 1])
  }

  /** One more result collected: an earlier failure stays, a failing result becomes the failure. */
  function Collected<V>(prior: Result<seq<V>>, last: Result<V>): (r: Result<seq<V>>)
    ensures prior.Failure? ==> r == prior
  {
    prior.FlatMap(vs => last.Map(v => vs + [v]))
  }

  /**
   * `r` is what collecting `results` promises: all successes give the list of their values in order, and
   * otherwise `r` is the first failure.
   */
  ghost predicate Collects<V>(results: seq<Result<V>>, r: Result<seq<V>>) {
    (r.Success? <==> forall i :: 0 <= i < |results| ==> results[i].Success?) &&
    (r.Success? ==> |r.value| == |results| && forall i :: 0 <= i < |results| ==> r.value[i] == results[i].value) &&
    (r.Failure? ==> exists k :: 0 <= k < |results| && results[k] == Failure(r.error) &&
                                forall j :: 0 <= j < k ==> results[j].Success?)
  }

  /** Collecting gives every value in order when all succeed, and otherwise the first failure. */
  lemma {:induction false} CollectProperties<V>(results: seq<Result<V>>)
    ensures Collects(results, CollectOrFailOnFirst(results))
  {
    if |results| > 0 {
      var init, last := results[..|results| - 1], results[|results| - 1];
      CollectProperties(init);
      CollectStep(init, last, CollectOrFailOnFirst(init));
      assert results == init + [last];
    }
  }

  lemma CollectStep<V>(init: seq<Result<V>>, last: Result<V>, prior: Result<seq<V>>)
    requires Collects(init, prior)
    ensures Collects(init + [last], Collected(prior, last))
  {
    var results := init + [last];
    assert forall i :: 0 <= i < |init| ==> results[i] == init[i];
    assert results[|init|] == last;
    if prior.Failure? {
      var k :| 0 <= k < |init| && init[k] == Failure(prior.error) && forall j :: 0 <= j < k ==> init[j].Success?;
      assert results[k] == init[k];
    }
  }

  /**
   * `Result.Builder` over a list collector: the latch holds the accumulated list, or the first failure,
   * which absorbs every later element.
   */
  class Builder<V> {
    var latch: Result<seq<V>>

    constructor ()
      ensures latch == Success([])
    {
      latch := Success([]);
    }

    method Accept(valueResult: Result<V>)
      modifies this
      ensures latch == old(latch).FlatMap(state => valueResult.Map(value => state + [value]))
    {
      latch := latch.FlatMap(state => valueResult.Map(value => state + [value]));
    }

    function Build(): Result<seq<V>>
      reads this
    {
      latch
    }
  }

  /** Streams every result through a fresh builder, as the collector returned by `collectOrFailOnFirst` does. */
  method CollectThroughBuilder<V>(results: seq<Result<V>>) returns (r: Result<seq<V>>)
    ensures r == CollectOrFailOnFirst(results)
  {
    var builder := new Builder<V>();
    var i := 0;
    while i < |results|
      invariant 0 <= i <= |results|
      invariant builder.latch == CollectOrFailOnFirst(results[..i])
    {
      assert results[..i + 1][..i] == results[..i];
      builder.Accept(results[i]);
      i := i + 1;
    }
    assert results[..|results|] == results;
    r := builder.Build();
  }
}
