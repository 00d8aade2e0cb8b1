/** The `errs` type of the standalone command in `internal/errors`: a copy of
    `multierror.Errors` with the same message and matching rules, so both
    operations are given by the MultiError definitions. */
module Errs {
  import opened Common
  import MultiError

  /** `errs.Error()`: same text as `multierror.Errors.Error()`. */
  method Error(es: MultiError.Errors) returns (rt: string)
    ensures |es| == 0 ==> rt == ""
    ensures |es| == 1 ==> rt == Format(es[0])
    ensures |es| >= 2 ==> rt == MultiError.CompositeHeader + MultiError.Indented(MultiError.Texts(MultiError.NonNil(es)))
  {
    rt := MultiError.Error(es);
    if |es| >= 2 {
      MultiError.CompositeMessage(es);
    }
  }

  /** `errs.Is(target)`: some element matches the target; false on an empty list. */
  function Is(es: MultiError.Errors, matches: GoError -> bool): (r: bool)
    ensures r <==> exists i :: 0 <= i < |es| && matches(es[i])
  {
    MultiError.Is(es, matches)
  }
}
