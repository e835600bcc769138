// The client of the data-enhancement server: the XOR decryption of its
// address, the retry policy of a request, and the feature check. Python
// strings are sequences of code points; the Base64-and-UTF-8 decoding of the
// encrypted address, the HTTP session and the configuration are parameters.

module OopServer {
  import opened Wrappers

  /** A Unicode code point, the unit of a Python string (`chr` accepts exactly these). */
  type CodePoint = x: int | 0 <= x < 0x11_0000

  /** `ord(a) ^ ord(b)`: bitwise exclusive or, one bit at a time from the lowest. */
  function Xor(a: nat, b: nat): nat
    decreases a + b
  {
    if a == 0 && b == 0 then 0 else 2 * Xor(a / 2, b / 2) + (a % 2 + b % 2) % 2
  }

  /** The lowest bit of an exclusive or, and the exclusive or of the higher bits. */
  lemma {:induction false} XorBits(a: nat, b: nat)
    ensures Xor(a, b) / 2 == Xor(a / 2, b / 2)
    ensures Xor(a, b) % 2 == (a % 2 + b % 2) % 2
  {
    if !(a == 0 && b == 0) {
      var y := Xor(a / 2, b / 2);
      var c := (a % 2 + b % 2) % 2;
      assert Xor(a, b) == 2 * y + c;
    }
  }

  lemma {:induction false} BitTwice(p: nat, q: nat)
    requires p < 2 && q < 2
    ensures ((p + q) % 2 + q) % 2 == p
  {
  }

  /** Two naturals with the same lowest bit and the same higher bits are equal. */
  lemma {:induction false} SameBits(r: nat, a: nat)
    requires r / 2 == a / 2 && r % 2 == a % 2
    ensures r == a
  {
  }

  /** Exclusive or with the same number twice gives back the first. */
  lemma {:induction false} XorTwice(a: nat, b: nat)
    ensures Xor(Xor(a, b), b) == a
    decreases a + b
  {
    if !(a == 0 && b == 0) {
      var x := Xor(a, b);
      XorBits(a, b);
      XorTwice(a / 2, b / 2);
      XorBits(x, b);
      BitTwice(a % 2, b % 2);
      SameBits(Xor(x, b), a);
    }
  }

  /** The per-character XOR step: character i against key character i mod |key|. */
  function XorText(text: seq<CodePoint>, key: seq<CodePoint>): (r: seq<nat>)
    requires |key| > 0
  {
    seq(|text|, i requires 0 <= i < |text| => Xor(text[i], key[i % |key|]))
  }

  /** Every character of the XOR step is a code point `chr` accepts. */
  predicate AllCodePoints(s: seq<nat>) {
    forall i | 0 <= i < |s| :: s[i] < 0x11_0000
  }

  /** Why decryption fails: a `ValueError`/`TypeError` re-raised as `RuntimeError`, or a division by an empty key. */
  datatype DecryptError = RuntimeError | ZeroDivisionError

  /**
   * `_decrypt_string`. `decoded` is the Base64-decoded, UTF-8-decoded text,
   * or None when either decoding raised `ValueError`.
   */
  function Decrypt(decoded: Option<seq<CodePoint>>, key: seq<CodePoint>): (r: Result<seq<CodePoint>, DecryptError>)
    ensures decoded.None? ==> r == Err(RuntimeError)
    ensures r == Err(ZeroDivisionError) <==> decoded.Some? && decoded.value != [] && key == []
    ensures r.Ok? ==> decoded.Some? && |r.value| == |decoded.value|
    ensures r.Ok? && key != [] ==>
      forall i | 0 <= i < |r.value| :: r.value[i] == Xor(decoded.value[i], key[i % |key|])
  {
    if decoded.None? then Err(RuntimeError)
    else if decoded.value == [] then Ok([])
    else if key == [] then Err(ZeroDivisionError)
    else
      var x := XorText(decoded.value, key);
      if AllCodePoints(x) then Ok(seq(|x|, i requires 0 <= i < |x| => x[i] as CodePoint))
      else Err(RuntimeError)
  }

  /** The decryption loop, character by character; the first character `chr` refuses stops it. */
  method DecryptString(decoded: Option<seq<CodePoint>>, key: seq<CodePoint>) returns (r: Result<seq<CodePoint>, DecryptError>)
    ensures r == Decrypt(decoded, key)
  {
    if decoded.None? {
      return Err(RuntimeError);
    }
    var text := decoded.value;
    var chars: seq<CodePoint> := [];
    var i := 0;
    while i < |text|
      invariant 0 <= i <= |text|
      invariant key == [] ==> i == 0
      invariant |chars| == i
      invariant key != [] ==> forall j | 0 <= j < i :: chars[j] == XorText(text, key)[j]
    {
      if |key| == 0 {
        return Err(ZeroDivisionError);
      }
      var c := Xor(text[i], key[i % |key|]);
      if c >= 0x11_0000 {
        assert XorText(text, key)[i] == c;
        return Err(RuntimeError);
      }
      chars := chars + [c];
      i := i + 1;
    }
    if text != [] {
      var x := XorText(text, key);
      assert AllCodePoints(x) by {
        forall j | 0 <= j < |text|
          ensures x[j] < 0x11_0000
        {
          assert chars[j] == x[j];
        }
      }
      assert chars == seq(|x|, j requires 0 <= j < |x| => x[j] as CodePoint);
    }
    return Ok(chars);
  }

  /**
   * Decrypting twice with the same key gives the text back: the XOR step is
   * its own inverse, so the address can be encrypted with the same routine.
   */
  lemma {:induction false} DecryptInvolution(text: seq<CodePoint>, key: seq<CodePoint>)
    requires Decrypt(Some(text), key).Ok?
    ensures Decrypt(Some(Decrypt(Some(text), key).value), key) == Ok(text)
  {
    var once := Decrypt(Some(text), key).value;
    if text != [] {
      var twice := XorText(once, key);
      forall i | 0 <= i < |text|
        ensures twice[i] == text[i]
      {
        XorTwice(text[i], key[i % |key|]);
      }
      assert AllCodePoints(twice);
      assert seq(|twice|, j requires 0 <= j < |twice| => twice[j] as CodePoint) == text;
    }
  }

  /** A decoding failure surfaces as `RuntimeError`, never as the original exception. */
  lemma {:induction false} DecodingFailureIsRuntimeError(key: seq<CodePoint>)
    ensures Decrypt(None, key) == Err(RuntimeError)
  {
  }

  // ---------------------------------------------------------------------
  // make_request

  /** What one `session.request` followed by `raise_for_status` does. */
  datatype Outcome =
    | Sent(status: int)             // a response came back
    | RequestFailed(error: string)  // httpx.RequestError: transport failure
    | OtherFailure(error: string)   // any other exception from the session

  /** `raise_for_status` lets only a 2xx status through. */
  predicate IsSuccess(status: int) {
    200 <= status < 300
  }

  /** The outcome of `make_request`. */
  datatype RequestResult =
    | Returned(status: int)          // the response is returned
    | StatusError(status: int)       // HTTPStatusError, not retried
    | Raised(error: string)          // any other exception, not retried
    | RequestError(error: string)    // the last RequestError, after the last attempt
    | NoResponse                     // no attempt at all: `return None`

  /**
   * The attempts from `attempt` on, with `last` the RequestError of the
   * previous attempt: the result and the number of attempts made in all.
   */
  function RequestFrom(maxRetries: int, send: nat -> Outcome, attempt: nat, last: Option<string>): (r: (RequestResult, nat))
    ensures attempt <= r.1
    ensures attempt < maxRetries ==> r.1 <= maxRetries
    ensures attempt >= maxRetries ==> r.1 == attempt
    decreases maxRetries - attempt
  {
    if attempt >= maxRetries then
      (if last.Some? then RequestError(last.value) else NoResponse, attempt)
    else
      match send(attempt)
      case Sent(status) =>
        (if IsSuccess(status) then Returned(status) else StatusError(status), attempt + 1)
      case RequestFailed(e) => RequestFrom(maxRetries, send, attempt + 1, Some(e))
      case OtherFailure(e) => (Raised(e), attempt + 1)
  }

  /** `make_request` as specified: attempt `i` answers `send(i)`. */
  function MakeRequestSpec(maxRetries: int, send: nat -> Outcome): (RequestResult, nat) {
    RequestFrom(maxRetries, send, 0, None)
  }

  /** The retry loop of `make_request`; the back-off sleeps are not modelled. */
  method MakeRequest(maxRetries: int, send: nat -> Outcome) returns (result: RequestResult, attempts: nat)
    ensures (result, attempts) == MakeRequestSpec(maxRetries, send)
  {
    var last: Option<string> := None;
    var attempt: nat := 0;
    while attempt < maxRetries
      invariant attempt == 0 || attempt <= maxRetries
      invariant RequestFrom(maxRetries, send, attempt, last) == MakeRequestSpec(maxRetries, send)
      decreases maxRetries - attempt
    {
      var outcome := send(attempt);
      match outcome {
        case Sent(status) =>
          if IsSuccess(status) {
            return Returned(status), attempt + 1;
          }
          return StatusError(status), attempt + 1;
        case RequestFailed(e) =>
          last := Some(e);
        case OtherFailure(e) =>
          return Raised(e), attempt + 1;
      }
      attempt := attempt + 1;
    }
    result := if last.Some? then RequestError(last.value) else NoResponse;
    attempts := attempt;
  }

  /** Every attempt before `n` failed with a RequestError. */
  predicate AllRequestFailed(send: nat -> Outcome, from: nat, n: nat) {
    forall j: nat | from <= j < n :: send(j).RequestFailed?
  }

  /**
   * Only a RequestError leads to another attempt: every attempt but the
   * last one made failed with a RequestError.
   */
  lemma {:induction false} RetriesOnlyOnRequestError(maxRetries: int, send: nat -> Outcome, attempt: nat, last: Option<string>)
    ensures var r := RequestFrom(maxRetries, send, attempt, last);
      r.1 == 0 || AllRequestFailed(send, attempt, r.1 - 1)
    decreases maxRetries - attempt
  {
    if attempt < maxRetries && send(attempt).RequestFailed? {
      RetriesOnlyOnRequestError(maxRetries, send, attempt + 1, Some(send(attempt).error));
    }
  }

  /**
   * The last RequestError is raised exactly when every one of the
   * `maxRetries` attempts failed with one, and it is the error of the last
   * attempt.
   */
  lemma {:induction false} ReraisesLastRequestError(maxRetries: int, send: nat -> Outcome, attempt: nat, last: Option<string>)
    requires attempt < maxRetries
    ensures RequestFrom(maxRetries, send, attempt, last).0.RequestError? <==> AllRequestFailed(send, attempt, maxRetries)
    ensures AllRequestFailed(send, attempt, maxRetries) ==>
      RequestFrom(maxRetries, send, attempt, last) == (RequestError(send(maxRetries - 1).error), maxRetries)
    decreases maxRetries - attempt
  {
    if send(attempt).RequestFailed? && attempt + 1 < maxRetries {
      ReraisesLastRequestError(maxRetries, send, attempt + 1, Some(send(attempt).error));
    }
  }

  /** At most `maxRetries` attempts; none at all, and no response, when `maxRetries` is not positive. */
  lemma {:induction false} AttemptsBounded(maxRetries: int, send: nat -> Outcome)
    ensures MakeRequestSpec(maxRetries, send).1 <= if maxRetries < 0 then 0 else maxRetries
    ensures maxRetries <= 0 ==> MakeRequestSpec(maxRetries, send) == (NoResponse, 0)
    ensures maxRetries > 0 ==> MakeRequestSpec(maxRetries, send).0 != NoResponse
  {
    if maxRetries > 0 {
      NeverNoResponse(maxRetries, send, 0, None);
    }
  }

  /** Once an attempt has been made, `make_request` never returns None. */
  lemma {:induction false} NeverNoResponse(maxRetries: int, send: nat -> Outcome, attempt: nat, last: Option<string>)
    requires attempt < maxRetries
    ensures RequestFrom(maxRetries, send, attempt, last).0 != NoResponse
    decreases maxRetries - attempt
  {
    if send(attempt).RequestFailed? && attempt + 1 < maxRetries {
      NeverNoResponse(maxRetries, send, attempt + 1, Some(send(attempt).error));
    }
  }

  // ---------------------------------------------------------------------
  // check_feature

  /** `MachineIDFeature`. */
  datatype Feature = Feature(machineId: Option<string>, featureName: Option<string>, enabled: bool)

  /**
   * `check_feature`: the feature and whether a request was made. The
   * request's outcome, the configured machine id and the parsing of the
   * response body (None when constructing the feature from it raises) are
   * parameters.
   */
  function CheckFeature(name: string, machineId: Option<string>, response: RequestResult, parsed: Option<Feature>): (r: (Feature, bool))
    ensures r.1 <==> name != ""
    ensures r.0.enabled ==> response == Returned(200) && parsed.Some? && r.0 == parsed.value
  {
    if name == "" then (Feature(None, None, false), false)
    else if response.Returned? && response.status == 200 then
      if parsed.Some? then (parsed.value, true) else (Feature(None, Some(name), false), true)
    else if response.Returned? || response.NoResponse? then (Feature(machineId, Some(name), false), true)
    else (Feature(None, Some(name), false), true)
  }

  /** An empty feature name is disabled without a request, whatever the server would say. */
  lemma {:induction false} EmptyNameDisabled(machineId: Option<string>, response: RequestResult, parsed: Option<Feature>)
    ensures CheckFeature("", machineId, response, parsed) == (Feature(None, None, false), false)
  {
  }

  /** A failed request disables the feature but keeps its name. */
  lemma {:induction false} FailureKeepsName(name: string, machineId: Option<string>, response: RequestResult, parsed: Option<Feature>)
    requires name != "" && !response.Returned?
    ensures !CheckFeature(name, machineId, response, parsed).0.enabled
    ensures CheckFeature(name, machineId, response, parsed).0.featureName == Some(name)
  {
  }
}
