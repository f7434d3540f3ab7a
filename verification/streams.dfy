/** A fallible stream of query rows (a `sqlx` fetch stream), seen as the
    finite sequence of items it yields, and the `futures` combinators the
    registry applies to it: `next`, `take` and `try_collect`. */
module Streams {
  import opened Prelude

  /** The database failed while producing rows; its details are never shown. */
  datatype DbError = DbError

  /** One polled item: a row, or the error after which the stream ends. */
  datatype Item<T> = Yield(value: T) | Fail

  /** The items of a stream whose rows are `rows` and which fails after its
      first `k` rows when `fault == Some(k)` (at the end when `k` is larger). */
  function Fetch<T>(rows: seq<T>, fault: Option<nat>): (s: seq<Item<T>>)
    ensures fault.None? ==> |s| == |rows| && forall i | 0 <= i < |s| :: s[i] == Yield(rows[i])
    ensures fault.Some? ==> |s| == (if fault.value <= |rows| then fault.value else |rows|) + 1
    ensures fault.Some? ==> s[|s| - 1] == Fail
    ensures fault.Some? ==> forall i | 0 <= i < |s| - 1 :: s[i] == Yield(rows[i])
  {
    match fault
    case None => Yields(rows)
    case Some(k) => Yields(rows[..if k <= |rows| then k else |rows|]) + [Fail]
  }

  function Yields<T>(xs: seq<T>): (s: seq<Item<T>>)
    ensures |s| == |xs|
    ensures forall i | 0 <= i < |s| :: s[i] == Yield(xs[i])
  {
    seq(|xs|, i requires 0 <= i < |xs| => Yield(xs[i]))
  }

  /** `stream.next()`: the first item, if any. */
  function Next<T>(s: seq<Item<T>>): (r: Option<Result<T, DbError>>)
    ensures r.None? <==> s == []
    ensures r == Some(Err(DbError)) <==> s != [] && s[0] == Fail
    ensures s != [] && s[0].Yield? ==> r == Some(Ok(s[0].value))
  {
    if s == [] then None
    else match s[0]
      case Yield(v) => Some(Ok(v))
      case Fail => Some(Err(DbError))
  }

  /** The first item of the matches delivered before an optional failure:
      the first match, else the failure, else the end. */
  lemma NextAfterYields<T>(p: seq<T>, failed: bool)
    ensures var s := if failed then Yields(p) + [Fail] else Yields(p);
            Next(s) == if p != [] then Some(Ok(p[0])) else if failed then Some(Err(DbError)) else None
  {
    var s := if failed then Yields(p) + [Fail] else Yields(p);
    if p != [] {
      assert s[0] == Yield(p[0]);
    } else {
      assert s == if failed then [Fail] else [];
    }
  }

  /** `stream.take(n)`: at most the first `n` items, failures included. */
  function Take<T>(s: seq<Item<T>>, n: nat): (r: seq<Item<T>>)
    ensures |r| == if n <= |s| then n else |s|
    ensures r <= s
  {
    if n <= |s| then s[..n] else s
  }

  /** `stream.try_collect()`: every row in order, or the first failure. */
  function TryCollect<T>(s: seq<Item<T>>): (r: Result<seq<T>, DbError>)
    ensures r.Ok? <==> forall i | 0 <= i < |s| :: s[i].Yield?
    ensures r.Ok? ==> |r.value| == |s| && forall i | 0 <= i < |s| :: r.value[i] == s[i].value
  {
    if s == [] then Ok([])
    else match s[0]
      case Fail => Err(DbError)
      case Yield(v) =>
        match TryCollect(s[1..])
        case Ok(vs) => Ok([v] + vs)
        case Err(e) => Err(e)
  }

  /** Collecting a stream that never fails gives back its rows. */
  lemma CollectYields<T>(xs: seq<T>)
    ensures TryCollect(Yields(xs)) == Ok(xs)
  {
    var r := TryCollect(Yields(xs));
    assert r.Ok?;
    assert r.value == xs;
  }

  /** Collecting a stream that ends in a failure always fails. */
  lemma CollectFailing<T>(xs: seq<T>)
    ensures TryCollect(Yields(xs) + [Fail]) == Err(DbError)
  {
    var s := Yields(xs) + [Fail];
    assert !s[|s| - 1].Yield?;
    var r := TryCollect(s);
    assert r.Err?;
    assert r.error == DbError;
  }

  /** Taking `n` items from a stream of `xs`, possibly followed by a failure,
      and collecting them: the first `n` rows, or the failure when fewer than
      `n` rows precede it. */
  lemma TakeCollect<T>(xs: seq<T>, failing: bool, n: nat)
    ensures var s := if failing then Yields(xs) + [Fail] else Yields(xs);
            TryCollect(Take(s, n))
              == if n <= |xs| then Ok(xs[..n])
                 else if failing then Err(DbError)
                 else Ok(xs)
  {
    var s := if failing then Yields(xs) + [Fail] else Yields(xs);
    if n <= |xs| {
      assert Take(s, n) == Yields(xs[..n]);
      CollectYields(xs[..n]);
    } else if failing {
      assert Take(s, n) == s;
      CollectFailing(xs);
    } else {
      CollectYields(xs);
    }
  }
}
