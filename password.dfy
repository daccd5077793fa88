/** The password sampler: checks the request, then fills a buffer of the
    requested length with charset bytes at indices drawn from a secure random
    source. */
module Password {
  import opened Charset

  /** The shortest password the generator produces. */
  const MinLength := 8

  /** The ways one generation can fail. */
  datatype Error =
    | InvalidLength                 // the requested length is below MinLength
    | EmptyCharset                  // no character class was selected
    | RandomSource(cause: string)   // the random source failed; its own error, unchanged

  /** The text each error carries. */
  function Message(e: Error): string {
    match e
    case InvalidLength => "minimum length is 8"
    case EmptyCharset => "illegal choices"
    case RandomSource(cause) => cause
  }

  /** A password or the error that prevented it; an error carries no password. */
  datatype Result<T> = Ok(value: T) | Err(error: Error)

  /** The outcome of one call of the random source. */
  datatype Draw = Index(value: int) | Failure(cause: string)

  /** The secure random source as the sampler sees it: the outcome of its
      call-th draw (counting from 0) when asked for an index below max. */
  type Source = (nat, nat) -> Draw

  /** The random source's contract: for a positive bound max, a draw either
      fails or yields an index in [0, max). */
  ghost predicate DrawsInRange(source: Source) {
    forall call: nat, max: nat :: 0 < max && source(call, max).Index? ==> 0 <= source(call, max).value < max
  }

  /** The first `count` draws with bound max all succeed. */
  predicate AllDrawn(source: Source, max: nat, count: int) {
    forall call: nat :: call < count ==> source(call, max).Index?
  }

  /** Draw number `call` is the first one with bound max to fail. */
  predicate FirstFailure(source: Source, max: nat, call: nat) {
    source(call, max).Failure? && AllDrawn(source, max, call)
  }

  /** Generates a password of `length` bytes taken from `charset`; the length
      is checked before the charset, and the first failing draw aborts. */
  method GeneratePassword(length: int, charset: seq<byte>, source: Source) returns (r: Result<seq<byte>>)
    requires DrawsInRange(source)
    ensures length < MinLength ==> r == Err(InvalidLength)
    ensures length >= MinLength && |charset| == 0 ==> r == Err(EmptyCharset)
    ensures length < MinLength ==> Message(r.error) == "minimum length is 8"
    ensures length >= MinLength && |charset| == 0 ==> Message(r.error) == "illegal choices"
    ensures r.Ok? <==> length >= MinLength && |charset| > 0 && AllDrawn(source, |charset|, length)
    ensures r.Ok? ==> |r.value| == length
    ensures r.Ok? ==> forall i :: 0 <= i < |r.value| ==> r.value[i] in charset
    ensures r.Ok? ==> forall i :: 0 <= i < |r.value| ==>
              var d := source(i, |charset|);
              d.Index? && 0 <= d.value < |charset| && r.value[i] == charset[d.value]
    ensures r.Ok? && |charset| == 1 ==> forall i :: 0 <= i < |r.value| ==> r.value[i] == charset[0]
    ensures r.Err? && length >= MinLength && |charset| > 0 ==>
              exists call: nat :: call < length && FirstFailure(source, |charset|, call)
                                && r.error == RandomSource(source(call, |charset|).cause)
                                && Message(r.error) == source(call, |charset|).cause
  {
    if length < MinLength {
      return Err(InvalidLength);
    }
    if |charset| == 0 {
      return Err(EmptyCharset);
    }
    var password := new byte[length];
    for i := 0 to length
      invariant AllDrawn(source, |charset|, i)
      invariant forall k :: 0 <= k < i ==> password[k] == charset[source(k, |charset|).value]
    {
      var d := source(i, |charset|);
      if d.Failure? {
        assert FirstFailure(source, |charset|, i);
        return Err(RandomSource(d.cause));
      }
      password[i] := charset[d.value];
    }
    return Ok(password[..]);
  }

  /** The generator end to end, as the command line drives it: build the
      charset from the toggles, then sample the password from it. */
  method Generate(length: int, useUpper: bool, useLower: bool, useNumber: bool, useSymbol: bool, source: Source)
    returns (r: Result<seq<byte>>)
    requires DrawsInRange(source)
    ensures length < MinLength ==> r == Err(InvalidLength)
    ensures length >= MinLength && !useUpper && !useLower && !useNumber && !useSymbol ==> r == Err(EmptyCharset)
    ensures length < MinLength ==> Message(r.error) == "minimum length is 8"
    ensures length >= MinLength && !useUpper && !useLower && !useNumber && !useSymbol ==> Message(r.error) == "illegal choices"
    ensures r.Ok? <==> length >= MinLength && (useUpper || useLower || useNumber || useSymbol)
                       && AllDrawn(source, |ExpectedCharset(useUpper, useLower, useNumber, useSymbol)|, length)
    ensures r.Err? && length >= MinLength && (useUpper || useLower || useNumber || useSymbol) ==>
              var n := |ExpectedCharset(useUpper, useLower, useNumber, useSymbol)|;
              exists call: nat :: call < length && FirstFailure(source, n, call)
                                && r.error == RandomSource(source(call, n).cause)
    ensures r.Ok? ==> |r.value| == length
    ensures r.Ok? ==> var cs := ExpectedCharset(useUpper, useLower, useNumber, useSymbol);
              forall i :: 0 <= i < |r.value| ==>
                source(i, |cs|).Index? && 0 <= source(i, |cs|).value < |cs| && r.value[i] == cs[source(i, |cs|).value]
    ensures r.Ok? ==> forall i :: 0 <= i < |r.value| ==>
              Admitted(r.value[i] as int, useUpper, useLower, useNumber, useSymbol)
              && IsPrintable(r.value[i] as int)
  {
    var charset := GenerateCharset(useUpper, useLower, useNumber, useSymbol);
    CharsetEmpty(useUpper, useLower, useNumber, useSymbol);
    r := GeneratePassword(length, charset, source);
    if r.Ok? {
      forall i | 0 <= i < |r.value|
        ensures Admitted(r.value[i] as int, useUpper, useLower, useNumber, useSymbol)
      {
        CharsetMember(useUpper, useLower, useNumber, useSymbol, r.value[i]);
      }
    }
  }
}
