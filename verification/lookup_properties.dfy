/** What `lookup` promises its callers, stated over every detector, every
    handler table and every disabled-type list. "No handler is invoked" is
    stated as: the outcome is the same whatever the handler table holds. */
module LookupProperties {
  import opened Wrappers
  import opened ImageSize

  /** The registered handler for `t` answered with `outcome`. */
  predicate HandlerAnswered(table: HandlerTable, t: ImageType, input: seq<byte>, filepath: Option<string>,
                            outcome: Result<Option<SizeResult>, string>)
  {
    var k := HandlerIndex(table, t);
    k.Some? && table[k.value].1.calculate(input, filepath) == outcome
  }

  /** Undetected bytes are unsupported, whatever the handlers and the
      configuration. */
  lemma UndetectedIsUnsupported(detector: Detector, table1: HandlerTable, table2: HandlerTable,
                                disabled1: seq<ImageType>, disabled2: seq<ImageType>,
                                input: seq<byte>, filepath: Option<string>)
    requires detector(input).None?
    ensures Lookup(detector, table1, disabled1, input, filepath) == Failure(Unsupported(None, filepath))
    ensures Lookup(detector, table1, disabled1, input, filepath)
         == Lookup(detector, table2, disabled2, input, filepath)
  {
  }

  /** A disabled type is refused by name before any handler is consulted. */
  lemma DisabledIsRefused(detector: Detector, table1: HandlerTable, table2: HandlerTable,
                          disabled: seq<ImageType>, input: seq<byte>, filepath: Option<string>)
    requires detector(input).Some? && detector(input).value in disabled
    ensures Lookup(detector, table1, disabled, input, filepath) == Failure(Disabled(detector(input).value))
    ensures Lookup(detector, table1, disabled, input, filepath)
         == Lookup(detector, table2, disabled, input, filepath)
  {
  }

  /** The disabled check comes first: a disabled type with no handler at all
      is reported as disabled, not as unsupported. */
  lemma DisabledBeforeMissingHandler(detector: Detector, table: HandlerTable, disabled: seq<ImageType>,
                                     input: seq<byte>, filepath: Option<string>)
    requires detector(input).Some? && detector(input).value in disabled
    requires HandlerIndex(table, detector(input).value).None?
    ensures Lookup(detector, table, disabled, input, filepath).Failure?
    ensures Lookup(detector, table, disabled, input, filepath).error.Disabled?
  {
  }

  /** The disabled error arises exactly for a detected type on the list, and
      names that type. */
  lemma DisabledErrorExactly(detector: Detector, table: HandlerTable, disabled: seq<ImageType>,
                             input: seq<byte>, filepath: Option<string>, t: ImageType)
    ensures Lookup(detector, table, disabled, input, filepath) == Failure(Disabled(t))
        <==> detector(input) == Some(t) && t in disabled
  {
  }

  /** The unsupported error arises exactly when nothing was detected, or the
      detected type is enabled but has no handler, or its handler returned
      `undefined`; the error carries the detection and the file path. */
  lemma UnsupportedExactly(detector: Detector, table: HandlerTable, disabled: seq<ImageType>,
                           input: seq<byte>, filepath: Option<string>)
    ensures
      var r := Lookup(detector, table, disabled, input, filepath);
      (r.Failure? && r.error.Unsupported?)
        <==> (|| detector(input).None?
              || (&& detector(input).value !in disabled
                  && (|| HandlerIndex(table, detector(input).value).None?
                      || HandlerAnswered(table, detector(input).value, input, filepath, Success(None)))))
    ensures
      var r := Lookup(detector, table, disabled, input, filepath);
      r.Failure? && r.error.Unsupported? ==>
        r.error.detected == detector(input) && r.error.filepath == filepath
  {
  }

  /** An error thrown by the handler reaches the caller unchanged, and it is
      the only way a handler error can arise. */
  lemma HandlerErrorExactly(detector: Detector, table: HandlerTable, disabled: seq<ImageType>,
                            input: seq<byte>, filepath: Option<string>, message: string)
    ensures Lookup(detector, table, disabled, input, filepath) == Failure(HandlerError(message))
        <==> && detector(input).Some?
             && detector(input).value !in disabled
             && HandlerAnswered(table, detector(input).value, input, filepath, Failure(message))
  {
  }

  /** A success comes from the detected type's own handler: the type is
      enabled, the handler returned a size, and `lookup` returned that size
      with only the type tag filled in, the handler's own tag taking
      precedence over the detected one. */
  lemma SuccessComesFromHandler(detector: Detector, table: HandlerTable, disabled: seq<ImageType>,
                                input: seq<byte>, filepath: Option<string>)
    requires Lookup(detector, table, disabled, input, filepath).Success?
    ensures detector(input).Some? && detector(input).value !in disabled
    ensures HandlerIndex(table, detector(input).value).Some?
    ensures
      var r := Lookup(detector, table, disabled, input, filepath).value;
      var t := detector(input).value;
      var answer := table[HandlerIndex(table, t).value].1.calculate(input, filepath);
      && answer.Success? && answer.value.Some?
      && SameExceptType(r, answer.value.value)
      && r.imageType == (if answer.value.value.imageType.Some? then answer.value.value.imageType else Some(t))
  {
  }

  /** Conversely, an enabled type whose handler returns a size always
      succeeds, with that size and a type tag. */
  lemma HandlerSizeIsReturned(detector: Detector, table: HandlerTable, disabled: seq<ImageType>,
                              input: seq<byte>, filepath: Option<string>, size: SizeResult)
    requires detector(input).Some? && detector(input).value !in disabled
    requires HandlerAnswered(table, detector(input).value, input, filepath, Success(Some(size)))
    ensures Lookup(detector, table, disabled, input, filepath).Success?
    ensures SameExceptType(Lookup(detector, table, disabled, input, filepath).value, size)
    ensures size.imageType.Some? ==>
      Lookup(detector, table, disabled, input, filepath).value.imageType == size.imageType
    ensures size.imageType.None? ==>
      Lookup(detector, table, disabled, input, filepath).value.imageType == detector(input)
  {
  }

  /** Only membership in the disabled list matters: its order and any
      repetitions do not change an outcome. */
  lemma OnlyMembershipMatters(detector: Detector, table: HandlerTable,
                              disabled1: seq<ImageType>, disabled2: seq<ImageType>,
                              input: seq<byte>, filepath: Option<string>)
    requires forall x :: x in disabled1 <==> x in disabled2
    ensures Lookup(detector, table, disabled1, input, filepath)
         == Lookup(detector, table, disabled2, input, filepath)
  {
  }

  /** Disabling more types can only turn an outcome into the disabled error;
      every other outcome stays as it was. */
  lemma MoreDisabledOnlyRefuses(detector: Detector, table: HandlerTable,
                                disabled1: seq<ImageType>, disabled2: seq<ImageType>,
                                input: seq<byte>, filepath: Option<string>)
    requires forall x :: x in disabled1 ==> x in disabled2
    ensures
      var r2 := Lookup(detector, table, disabled2, input, filepath);
      || r2 == Lookup(detector, table, disabled1, input, filepath)
      || (r2.Failure? && r2.error.Disabled?)
  {
  }

  /** After `disableTypes([])`, and at start-up, no type is refused as
      disabled, and the outcome is the one any list not naming the detected
      type would give: the earlier list leaves no trace. */
  lemma EmptyListEnablesAll(detector: Detector, table: HandlerTable, earlier: seq<ImageType>,
                            input: seq<byte>, filepath: Option<string>)
    ensures
      var r := Lookup(detector, table, [], input, filepath);
      !(r.Failure? && r.error.Disabled?)
    ensures detector(input).None? || detector(input).value !in earlier ==>
      Lookup(detector, table, [], input, filepath) == Lookup(detector, table, earlier, input, filepath)
  {
  }

  /** `types` lists exactly the names `lookup` finds a handler for, and,
      the table's keys being distinct, lists each once. */
  lemma TypesAreTheHandledNames(table: HandlerTable, t: ImageType)
    ensures t in Types(table) <==> HandlerIndex(table, t).Some?
    ensures UniqueKeys(table) ==>
      forall i, j :: 0 <= i < j < |Types(table)| ==> Types(table)[i] != Types(table)[j]
  {
  }

  /** `disableTypes(types)` followed by `lookup`: a detected type on the new
      list is refused by name, a refused type is always on the new list
      whatever the earlier one held, and after `disableTypes([])` nothing is
      refused as disabled. */
  method DisableThenLookup(options: GlobalOptions, types: seq<ImageType>, detector: Detector,
                           table: HandlerTable, input: seq<byte>, filepath: Option<string>)
    returns (r: Result<SizeResult, LookupError>)
    modifies options
    ensures options.disabledTypes == types
    ensures detector(input).Some? && detector(input).value in types ==>
      r == Failure(Disabled(detector(input).value))
    ensures r.Failure? && r.error.Disabled? ==> r.error.imageType in types
    ensures types == [] ==> !(r.Failure? && r.error.Disabled?)
  {
    options.DisableTypes(types);
    r := options.LookupConfigured(detector, table, input, filepath);
  }

  /** Two `lookup` calls in a row, with no `disableTypes` between them, give
      the same outcome and leave the configuration unchanged. */
  method LookupTwice(options: GlobalOptions, detector: Detector, table: HandlerTable,
                     input: seq<byte>, filepath: Option<string>)
    returns (r1: Result<SizeResult, LookupError>, r2: Result<SizeResult, LookupError>)
    ensures r1 == r2
    ensures options.disabledTypes == old(options.disabledTypes)
  {
    r1 := options.LookupConfigured(detector, table, input, filepath);
    r2 := options.LookupConfigured(detector, table, input, filepath);
  }
}
