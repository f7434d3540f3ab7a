/** The `TryExt` helpers of src/errors.rs: every failure, of a `Result` or of
    an `Option`, becomes one of two rejections. The wrapped error is only
    logged, never passed on. */
module Errors {
  import opened Prelude

  /** The rejections a request can end in. `Unauthorized` stands for the
      `crate::errors::Unauthorized` that src/routes.rs rejects with (src/errors.rs
      does not define it), and `InvalidHeader` for warp's own rejection of a
      header that is not valid text. */
  datatype Rejection = InternalServerError | NotFound | Unauthorized | InvalidHeader

  /** `Result::or_ise`. */
  function ResultOrIse<T, E>(x: Result<T, E>): (r: Result<T, Rejection>)
    ensures r.Ok? <==> x.Ok?
    ensures x.Ok? ==> r.value == x.value
    ensures r.Err? ==> r.error == InternalServerError
  {
    match x
    case Ok(v) => Ok(v)
    case Err(_) => Err(InternalServerError)
  }

  /** `Result::or_nf`. */
  function ResultOrNf<T, E>(x: Result<T, E>): (r: Result<T, Rejection>)
    ensures r.Ok? <==> x.Ok?
    ensures x.Ok? ==> r.value == x.value
    ensures r.Err? ==> r.error == NotFound
  {
    match x
    case Ok(v) => Ok(v)
    case Err(_) => Err(NotFound)
  }

  /** `Option::or_ise`. */
  function OptionOrIse<T>(x: Option<T>): (r: Result<T, Rejection>)
    ensures r.Ok? <==> x.Some?
    ensures x.Some? ==> r.value == x.value
    ensures r.Err? ==> r.error == InternalServerError
  {
    match x
    case Some(v) => Ok(v)
    case None => Err(InternalServerError)
  }

  /** `Option::or_nf`. */
  function OptionOrNf<T>(x: Option<T>): (r: Result<T, Rejection>)
    ensures r.Ok? <==> x.Some?
    ensures x.Some? ==> r.value == x.value
    ensures r.Err? ==> r.error == NotFound
  {
    match x
    case Some(v) => Ok(v)
    case None => Err(NotFound)
  }

  /** The helpers never produce `Unauthorized`, and the two flavours differ
      only in which rejection a failure turns into. */
  lemma OrIseOrNfDifferOnlyInRejection<T, E>(x: Result<T, E>, o: Option<T>)
    ensures ResultOrIse(x).Ok? ==> ResultOrIse(x) == ResultOrNf(x)
    ensures ResultOrIse(x).Err? ==> ResultOrNf(x) == Err(NotFound)
    ensures OptionOrIse(o).Ok? ==> OptionOrIse(o) == OptionOrNf(o)
    ensures OptionOrIse(o).Err? ==> OptionOrNf(o) == Err(NotFound)
    ensures ResultOrIse(x) != Err(Unauthorized) && ResultOrNf(x) != Err(Unauthorized)
  {
  }

  /** The `Option` helpers are the `Result` helpers applied to `ok_or(())`. */
  lemma OptionHelpersAreResultHelpers<T>(o: Option<T>)
    ensures OptionOrIse(o) == ResultOrIse(if o.Some? then Ok(o.value) else Err(()))
    ensures OptionOrNf(o) == ResultOrNf(if o.Some? then Ok(o.value) else Err(()))
  {
  }

  /** `x.or_nf()?.or_ise()` on a stream's next item, the shape used to answer
      "latest version": no item is not-found, a failed item is an internal
      error, and a row is passed through. */
  function NextOrNfOrIse<T, E>(x: Option<Result<T, E>>): (r: Result<T, Rejection>)
    ensures r == Err(NotFound) <==> x.None?
    ensures r == Err(InternalServerError) <==> x.Some? && x.value.Err?
    ensures r.Ok? <==> x.Some? && x.value.Ok?
    ensures r.Ok? ==> r.value == x.value.value
  {
    match OptionOrNf(x)
    case Err(rej) => Err(rej)
    case Ok(inner) => ResultOrIse(inner)
  }
}
