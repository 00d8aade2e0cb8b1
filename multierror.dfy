/** `multierror.Errors`: a list of errors that is itself an error. Its message
    is empty for no errors, the one message for one error, and otherwise a
    "composite error:" header followed by one tab-indented line per non-nil
    error. */
module MultiError {
  import opened Common

  type Errors = seq<GoError>

  const CompositeHeader := "composite error:"

  /** The line that the composite message holds for one element (none for nil). */
  function Line(e: GoError): string {
    if e.Nil? then "" else "\n\t" + Format(e)
  }

  /** The lines of the composite message for a list, accumulated left to right
      as the source's loop does. */
  function Lines(es: Errors): string {
    if es == [] then "" else Lines(es[..|es| - 1]) + Line(es[|es| - 1])
  }

  /** The text that `Errors.Error()` returns. */
  function Message(es: Errors): string {
    if |es| == 0 then ""
    else if |es| == 1 then Format(es[0])
    else CompositeHeader + Lines(es)
  }

  /** `Errors.Error()`: the message built by reassigning `rt` in a loop. */
  method Error(es: Errors) returns (rt: string)
    ensures rt == Message(es)
  {
    if |es| == 0 {
      return "";
    } else if |es| == 1 {
      return Format(es[0]);
    }
    rt := CompositeHeader;
    for i := 0 to |es|
      invariant rt == CompositeHeader + Lines(es[..i])
    {
      LinesStep(es, i);
      if es[i] != Nil {
        rt := rt + "\n\t" + Format(es[i]);
      }
    }
    assert es[..|es|] == es;
  }

  /** The loop's step: the text so far followed by the element's line. */
  lemma LinesStep(es: Errors, i: int)
    requires 0 <= i < |es|
    ensures es[i] != Nil ==>
      CompositeHeader + Lines(es[..i + 1]) == CompositeHeader + Lines(es[..i]) + "\n\t" + Format(es[i])
    ensures es[i] == Nil ==> Lines(es[..i + 1]) == Lines(es[..i])
  {
    assert es[..i + 1][..i] == es[..i];
    var h, l := CompositeHeader, Lines(es[..i]);
    if es[i] != Nil {
      var m := Format(es[i]);
      assert Lines(es[..i + 1]) == l + ("\n\t" + m);
      assert h + (l + ("\n\t" + m)) == h + l + "\n\t" + m;
    } else {
      assert l + "" == l;
    }
  }

  // ---------------------------------------------------------------------------
  // An independent description of the composite lines
  // ---------------------------------------------------------------------------

  /** The non-nil elements, in order. */
  function NonNil(es: Errors): (r: Errors)
    ensures forall i :: 0 <= i < |r| ==> r[i] != Nil
    ensures |r| <= |es|
  {
    if es == [] then []
    else if es[0] == Nil then NonNil(es[1..])
    else [es[0]] + NonNil(es[1..])
  }

  /** Each message preceded by a newline and a tab, read front to back. */
  function Indented(msgs: seq<string>): string {
    if msgs == [] then "" else "\n\t" + msgs[0] + Indented(msgs[1..])
  }

  /** The `%v` text of each element, in order. */
  function Texts(es: Errors): seq<string> {
    if es == [] then [] else Texts(es[..|es| - 1]) + [Format(es[|es| - 1])]
  }

  lemma {:induction false} IndentedAppend(msgs: seq<string>, m: string)
    ensures Indented(msgs + [m]) == Indented(msgs) + "\n\t" + m
    decreases |msgs|
  {
    if msgs != [] {
      assert (msgs + [m])[1..] == msgs[1..] + [m];
      IndentedAppend(msgs[1..], m);
    }
  }

  lemma {:induction false} NonNilAppend(es: Errors, e: GoError)
    ensures NonNil(es + [e]) == NonNil(es) + (if e.Nil? then [] else [e])
    decreases |es|
  {
    if es == [] {
      assert [e][1..] == [];
    } else {
      assert (es + [e])[1..] == es[1..] + [e];
      NonNilAppend(es[1..], e);
    }
  }

  lemma TextsAppend(es: Errors, e: GoError)
    ensures Texts(es + [e]) == Texts(es) + [Format(e)]
  {
    assert (es + [e])[..|es|] == es;
  }

  /** One more element adds its line to the indented non-nil messages. */
  lemma IndentedNonNilAppend(es: Errors, e: GoError)
    ensures Indented(Texts(NonNil(es + [e]))) == Indented(Texts(NonNil(es))) + Line(e)
  {
    NonNilAppend(es, e);
    var ts := Texts(NonNil(es));
    if e != Nil {
      TextsAppend(NonNil(es), e);
      IndentedAppend(ts, Format(e));
      assert Indented(ts) + "\n\t" + Format(e) == Indented(ts) + ("\n\t" + Format(e));
    } else {
      assert NonNil(es) + [] == NonNil(es);
      assert Indented(ts) + "" == Indented(ts);
    }
  }

  lemma IndentedNonNilLast(es: Errors)
    requires es != []
    ensures Indented(Texts(NonNil(es))) == Indented(Texts(NonNil(es[..|es| - 1]))) + Line(es[|es| - 1])
  {
    IndentedNonNilAppend(es[..|es| - 1], es[|es| - 1]);
    assert es[..|es| - 1] + [es[|es| - 1]] == es;
  }

  /** The composite message lists exactly the messages of the non-nil
      elements, in their order, each on its own tab-indented line. */
  lemma {:induction false} LinesListNonNilInOrder(es: Errors)
    ensures Lines(es) == Indented(Texts(NonNil(es)))
    decreases |es|
  {
    if es != [] {
      LinesListNonNilInOrder(es[..|es| - 1]);
      IndentedNonNilLast(es);
    }
  }

  /** For two or more errors the message is the header followed by the
      indented non-nil messages; nil elements contribute nothing. */
  lemma CompositeMessage(es: Errors)
    requires |es| >= 2
    ensures Message(es) == CompositeHeader + Indented(Texts(NonNil(es)))
  {
    LinesListNonNilInOrder(es);
  }

  /** Appending to a list of two or more errors appends one line for a
      non-nil error and leaves the message unchanged for nil. */
  lemma MessageAppend(es: Errors, e: GoError)
    requires |es| >= 2
    ensures Message(es + [e]) == Message(es) + Line(e)
    ensures e.Nil? ==> Message(es + [e]) == Message(es)
  {
    assert (es + [e])[..|es|] == es;
  }

  // ---------------------------------------------------------------------------
  // Errors.Is
  // ---------------------------------------------------------------------------

  /** `Errors.Is(target)`: whether some element matches the target, where
      `matches` stands for `errors.Is(_, target)`; false on an empty list. */
  function Is(es: Errors, matches: GoError -> bool): (r: bool)
    ensures r <==> exists i :: 0 <= i < |es| && matches(es[i])
    ensures |es| == 0 ==> !r
  {
    if |es| == 0 then false
    else if matches(es[0]) then true
    else Is(es[1..], matches)
  }
}
