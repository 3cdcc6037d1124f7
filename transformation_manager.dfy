/**
 * clang_delta's `TransformationManager`: checking the counter options
 * before a run (`verify`), and the run itself (`doTransformation`): the
 * capability check for `--to-counter`, query-only mode, and the choice of
 * what to print once the transformation has run.
 *
 * Parsing the file with Clang is not modelled: the error state the
 * transformation ends in is a parameter of `DoTransformation`.
 */
module TransformationManagerModel {

  /** `ErrorInvalidCounter`, the exit code for a bad counter. */
  const ERROR_INVALID_COUNTER: int := 1

  /** `TransformationError`, the state a transformation ends in. */
  datatype TransError =
    | TransSuccess
    | TransInternalError
    | TransMaxInstanceError
    | TransMaxVarsError
    | TransMaxClassesError
    | TransNoValidVarsError
    | TransNoValidFunsError
    | TransNoValidParamsError
    | TransNoTextModificationError
    | TransToCounterTooBigError

  /** `isInvalidCounterError`: the counter asked for more instances than there are. */
  predicate IsInvalidCounterError(e: TransError)
  {
    e == TransMaxInstanceError || e == TransToCounterTooBigError
  }

  /** The error message: a fixed text, or the one `getTransErrorMsg` gives for an error state. */
  datatype Message = Text(text: string) | TransErrorText(error: TransError)

  /** What `doTransformation` writes to the output stream. */
  datatype Output = NoOutput | HintsOutput | TransformedSource | OriginalSource

  /** The counters a run may go ahead with: a positive counter, and no to-counter below it. */
  predicate CountersValid(counter: int, toCounter: int)
  {
    counter > 0 && (toCounter <= 0 || toCounter >= counter)
  }

  /**
   * The last step of `doTransformation`, once parsing ended in `e`:
   * whether it succeeds, what it prints, and the error it reports.
   */
  function Dispatch(e: TransError, generateHints: bool): (r: (bool, Output, Message, bool))
    ensures r.0 <==> e == TransSuccess || (e == TransInternalError && !generateHints)
    ensures r.0 ==> r.2 == Text("") && !r.3
    ensures e == TransSuccess ==> r.1 == (if generateHints then HintsOutput else TransformedSource)
    ensures e == TransInternalError && !generateHints ==> r.1 == OriginalSource
    ensures !r.0 ==> r.1 == NoOutput && r.2 == TransErrorText(e) && (r.3 <==> IsInvalidCounterError(e))
  {
    if e == TransSuccess && generateHints then (true, HintsOutput, Text(""), false)
    else if e == TransSuccess && !generateHints then (true, TransformedSource, Text(""), false)
    else if e == TransInternalError && !generateHints then (true, OriginalSource, Text(""), false)
    else (false, NoOutput, TransErrorText(e), IsInvalidCounterError(e))
  }

  /** The per-transformation fields the manager copies its options into. */
  class Transformation {
    const name: string
    /** `isMultipleRewritesEnabled`. */
    const multipleRewrites: bool
    /** `skipCounter`: the transformation takes no counter. */
    const skipsCounter: bool
    var transformationCounter: int
    var toCounter: int
    var queryInstanceOnly: bool
    var warnOnCounterOutOfBounds: bool
    var transError: TransError

    /** The constructor's defaults: no counter, no to-counter, no error. */
    constructor(name: string, multipleRewrites: bool, skipsCounter: bool)
      ensures this.name == name && this.multipleRewrites == multipleRewrites && this.skipsCounter == skipsCounter
      ensures transformationCounter == -1 && toCounter == -1
      ensures !queryInstanceOnly && !warnOnCounterOutOfBounds && transError == TransSuccess
    {
      this.name := name;
      this.multipleRewrites := multipleRewrites;
      this.skipsCounter := skipsCounter;
      transformationCounter := -1;
      toCounter := -1;
      queryInstanceOnly := false;
      warnOnCounterOutOfBounds := false;
      transError := TransSuccess;
    }
  }

  class TransformationManager {
    /** `CurrentTransformationImpl`; null until a transformation is chosen. */
    var impl: Transformation?
    var transformationCounter: int
    var toCounter: int
    var generateHints: bool
    var queryInstanceOnly: bool
    var warnOnCounterOutOfBounds: bool

    /** The constructor's defaults. */
    constructor()
      ensures impl == null && transformationCounter == -1 && toCounter == -1
      ensures !generateHints && !queryInstanceOnly && !warnOnCounterOutOfBounds
    {
      impl := null;
      transformationCounter := -1;
      toCounter := -1;
      generateHints := false;
      queryInstanceOnly := false;
      warnOnCounterOutOfBounds := false;
    }

    /**
     * `setTransformationCounter`. Its check that the counter is positive is
     * an `assert` compiled out of release builds, so any counter is stored
     * and a non-positive one is left for `Verify` to reject.
     */
    method SetTransformationCounter(counter: int)
      modifies this
      ensures transformationCounter == counter
      ensures impl == old(impl) && toCounter == old(toCounter) && generateHints == old(generateHints)
      ensures queryInstanceOnly == old(queryInstanceOnly) && warnOnCounterOutOfBounds == old(warnOnCounterOutOfBounds)
    {
      transformationCounter := counter;
    }

    /**
     * `setToCounter`. As above, the positivity check is a debug-build
     * `assert`; any to-counter is stored and `Verify` judges it.
     */
    method SetToCounter(counter: int)
      modifies this
      ensures toCounter == counter
      ensures impl == old(impl) && transformationCounter == old(transformationCounter)
      ensures generateHints == old(generateHints) && queryInstanceOnly == old(queryInstanceOnly)
      ensures warnOnCounterOutOfBounds == old(warnOnCounterOutOfBounds)
    {
      toCounter := counter;
    }

    /**
     * `verify`: a transformation must be chosen; one that takes no counter
     * always passes; otherwise the counters must be valid, and a bad counter
     * sets the error code to `ErrorInvalidCounter`. `errorMsg0` and
     * `errorCode0` are the caller's message and code before the call.
     */
    method Verify(errorMsg0: Message, errorCode0: int) returns (ok: bool, errorMsg: Message, errorCode: int)
      ensures ok <==> impl != null && (impl.skipsCounter || CountersValid(transformationCounter, toCounter))
      ensures impl == null ==> errorMsg == Text("Empty transformation instance!") && errorCode == errorCode0
      ensures !ok && impl != null ==> errorCode == ERROR_INVALID_COUNTER
      ensures !ok && impl != null && transformationCounter <= 0 ==> errorMsg == Text("Invalid transformation counter!")
      ensures !ok && impl != null && transformationCounter > 0 ==>
                errorMsg == Text("to-counter value cannot be smaller than counter value!")
      ensures ok ==> errorMsg == errorMsg0 && errorCode == errorCode0
    {
      errorMsg := errorMsg0;
      errorCode := errorCode0;
      if impl == null {
        errorMsg := Text("Empty transformation instance!");
        return false, errorMsg, errorCode;
      }
      if impl.skipsCounter {
        return true, errorMsg, errorCode;
      }
      if transformationCounter <= 0 {
        errorMsg := Text("Invalid transformation counter!");
        errorCode := ERROR_INVALID_COUNTER;
        return false, errorMsg, errorCode;
      }
      if toCounter > 0 && toCounter < transformationCounter {
        errorMsg := Text("to-counter value cannot be smaller than counter value!");
        errorCode := ERROR_INVALID_COUNTER;
        return false, errorMsg, errorCode;
      }
      return true, errorMsg, errorCode;
    }

    /**
     * `doTransformation`. The options are copied into the transformation;
     * a to-counter on a transformation without multiple rewrites fails
     * before parsing; `parsed` is the error state parsing leaves behind;
     * query-only mode stops there; otherwise `Dispatch` decides.
     */
    method DoTransformation(parsed: TransError, errorCode0: int)
      returns (ok: bool, errorMsg: Message, errorCode: int, output: Output)
      requires impl != null
      modifies impl
      ensures impl.transformationCounter == transformationCounter
      ensures impl.queryInstanceOnly == queryInstanceOnly
      ensures impl.warnOnCounterOutOfBounds == warnOnCounterOutOfBounds
      ensures impl.toCounter == (if toCounter > 0 && impl.multipleRewrites then toCounter else old(impl.toCounter))
      ensures toCounter > 0 && !impl.multipleRewrites ==>
                !ok && output == NoOutput && errorCode == errorCode0 && impl.transError == old(impl.transError) &&
                errorMsg == Text("current transformation[" + impl.name + "] does not support multiple rewrites!")
      ensures (toCounter <= 0 || impl.multipleRewrites) ==> impl.transError == parsed
      ensures (toCounter <= 0 || impl.multipleRewrites) && queryInstanceOnly ==>
                ok && output == NoOutput && errorMsg == Text("") && errorCode == errorCode0
      ensures (toCounter <= 0 || impl.multipleRewrites) && !queryInstanceOnly ==>
                var d := Dispatch(parsed, generateHints);
                ok == d.0 && output == d.1 && errorMsg == d.2 &&
                errorCode == (if d.3 then ERROR_INVALID_COUNTER else errorCode0)
    {
      errorMsg := Text("");
      errorCode := errorCode0;
      output := NoOutput;
      impl.warnOnCounterOutOfBounds := warnOnCounterOutOfBounds;
      impl.queryInstanceOnly := queryInstanceOnly;
      impl.transformationCounter := transformationCounter;
      if toCounter > 0 {
        if impl.multipleRewrites {
          impl.toCounter := toCounter;
        } else {
          errorMsg := Text("current transformation[" + impl.name + "] does not support multiple rewrites!");
          return false, errorMsg, errorCode, output;
        }
      }
      impl.transError := parsed;
      if queryInstanceOnly {
        return true, errorMsg, errorCode, output;
      }
      ok := true;
      if impl.transError == TransSuccess && generateHints {
        output := HintsOutput;
      } else if impl.transError == TransSuccess && !generateHints {
        output := TransformedSource;
      } else if impl.transError == TransInternalError && !generateHints {
        output := OriginalSource;
      } else {
        errorMsg := TransErrorText(impl.transError);
        if IsInvalidCounterError(impl.transError) {
          errorCode := ERROR_INVALID_COUNTER;
        }
        ok := false;
      }
    }
  }
}
