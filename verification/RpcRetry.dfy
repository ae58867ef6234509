/** The RPC call with its bounded retries and jittered exponential backoff. */
module RpcRetry {
  import opened Common

  datatype Body<T> = Unparsable | Envelope(errorCode: Option<int>, result: Option<T>)

  datatype Response<T> = NoResponse | Reply(status: nat, body: Body<T>)

  datatype RpcError =
    | ClientError(status: nat)
    | HttpError(attempt: nat, status: nat)
    | ParseError
    | NonRetryable(code: int)
    | RpcFailed(code: int)
    | EmptyResult
    | TransportFailed

  predicate ClientErrorStatus(status: nat) { 400 <= status < 500 }

  predicate SuccessStatus(status: nat) { 200 <= status < 300 }

  const TOO_MANY_REQUESTS: nat := 429

  predicate NonRetryableCode(code: int) {
    code == -32700 || code == -32600 || code == -32601 || code == -32602
  }

  /** The answers worth another try: none, too many requests, a server-side status, an error or a result that may pass. */
  ghost predicate Transient<T>(r: Response<T>) {
    match r
    case NoResponse => true
    case Reply(status, body) =>
      || status == 429 || status < 200 || 300 <= status < 400 || 500 <= status
      || (&& 200 <= status < 300 && body.Envelope?
          && match body.errorCode
             case Some(code) => code !in {-32700, -32600, -32601, -32602}
             case None => body.result.None?)
  }

  /** What the call answers when it ends on this response. */
  function Verdict<T>(r: Response<T>, attempt: nat): Result<T, RpcError> {
    if r.NoResponse? then Err(TransportFailed)
    else if ClientErrorStatus(r.status) && r.status != TOO_MANY_REQUESTS then Err(ClientError(r.status))
    else if !SuccessStatus(r.status) then Err(HttpError(attempt, r.status))
    else if r.body.Unparsable? then Err(ParseError)
    else if r.body.errorCode.Some? then
      var code := r.body.errorCode.value;
      Err(if NonRetryableCode(code) then NonRetryable(code) else RpcFailed(code))
    else if r.body.result.Some? then Ok(r.body.result.value)
    else Err(EmptyResult)
  }

  /** A call answers a value exactly for a 2xx status with a result and no error in the envelope. */
  lemma AnswersIff<T>(r: Response<T>, attempt: nat, value: T)
    ensures Verdict(r, attempt) == Ok(value) <==>
            r.Reply? && 200 <= r.status < 300 && r.body == Envelope(None, Some(value))
  {
  }

  /** Which failure a call reports. */
  lemma FailureReported<T>(status: nat, body: Body<T>, attempt: nat, code: int)
    ensures Verdict(Response<T>.NoResponse, attempt) == Err(TransportFailed)
    ensures 400 <= status < 500 && status != 429 ==> Verdict(Reply(status, body), attempt) == Err(ClientError(status))
    ensures status == 429 || status < 200 || 300 <= status < 400 || 500 <= status ==>
              Verdict(Reply(status, body), attempt) == Err(HttpError(attempt, status))
    ensures 200 <= status < 300 ==>
              && Verdict(Reply(status, Body<T>.Unparsable), attempt) == Err(ParseError)
              && Verdict(Reply(status, Body<T>.Envelope(None, None)), attempt) == Err(EmptyResult)
    ensures 200 <= status < 300 && body.Envelope? && body.errorCode == Some(code) ==>
              Verdict(Reply(status, body), attempt)
              == Err(if code in {-32700, -32600, -32601, -32602} then NonRetryable(code) else RpcFailed(code))
  {
  }

  const U64: nat := 0x1_0000_0000_0000_0000

  /** Constructor settings: at least one attempt, a base delay of at least 50 ms, a jitter factor. */
  datatype Settings = Settings(retryAttempts: nat, baseDelayMs: nat, jitter: real) {
    function Attempts(): nat { Max(retryAttempts, 1) }

    function Base(): nat { Max(baseDelayMs, 50) }

    /** The base delay times 2^k as a 64-bit product; it wraps when it does not fit. */
    function Scaled(k: nat): nat { Base() * Pow2(k) % U64 }

    /** Cap on the delay after the given attempt, counted from 1. */
    function CapMs(attempt: nat): nat
      requires attempt >= 1
    {
      Min(Scaled(Min(attempt - 1, 10)), 60000)
    }

    function JitterRange(cap: nat): int {
      if jitter > 0.0 then (cap as real * jitter).Floor else 0
    }

    /** The delay after the given attempt lies in the jitter range below its cap. */
    predicate DelayAllowed(attempt: nat, delay: int)
      requires attempt >= 1
    {
      CapMs(attempt) - JitterRange(CapMs(attempt)) <= delay <= CapMs(attempt)
    }
  }

  lemma JitterWithinCap(s: Settings, cap: nat)
    requires 0.0 <= s.jitter <= 1.0
    ensures 0 <= s.JitterRange(cap) <= cap
  {
    var x := cap as real * s.jitter;
    assert 0.0 <= x <= cap as real;
    assert x.Floor as real <= x;
  }

  /**
   `draw(k, n)` is the random number between 0 and n drawn after attempt k.
   The call ends on the first response that is not transient, or on the last allowed attempt.
   */
  method RpcCall<T>(s: Settings, responses: nat -> Response<T>, draw: (nat, nat) -> nat)
    returns (result: Result<T, RpcError>, tries: nat, delays: seq<int>)
    requires 0.0 <= s.jitter <= 1.0
    requires forall k, n :: draw(k, n) <= n
    ensures 1 <= tries <= Max(s.retryAttempts, 1)
    ensures forall k :: 0 <= k < tries - 1 ==> Transient(responses(k))
    ensures Transient(responses(tries - 1)) ==> tries == Max(s.retryAttempts, 1)
    ensures result == Verdict(responses(tries - 1), tries)
    ensures |delays| == tries - 1 && forall k :: 0 <= k < |delays| ==> s.DelayAllowed(k + 1, delays[k])
  {
    var attempt := 0;
    delays := [];
    while true
      invariant attempt < s.Attempts() && |delays| == attempt
      invariant forall k :: 0 <= k < attempt ==> Transient(responses(k))
      invariant forall k :: 0 <= k < attempt ==> s.DelayAllowed(k + 1, delays[k])
      decreases s.Attempts() - attempt
    {
      var response := responses(attempt);
      attempt := attempt + 1;
      match response {
        case Reply(status, body) =>
          if ClientErrorStatus(status) && status != TOO_MANY_REQUESTS {
            return Err(ClientError(status)), attempt, delays;
          }
          if !SuccessStatus(status) {
            if attempt >= s.Attempts() {
              return Err(HttpError(attempt, status)), attempt, delays;
            }
          } else {
            if body.Unparsable? {
              return Err(ParseError), attempt, delays;
            }
            if body.errorCode.Some? {
              if NonRetryableCode(body.errorCode.value) {
                return Err(NonRetryable(body.errorCode.value)), attempt, delays;
              }
              if attempt >= s.Attempts() {
                return Err(RpcFailed(body.errorCode.value)), attempt, delays;
              }
            } else if body.result.Some? {
              return Ok(body.result.value), attempt, delays;
            } else if attempt >= s.Attempts() {
              return Err(EmptyResult), attempt, delays;
            }
          }
        case NoResponse =>
          if attempt >= s.Attempts() {
            return Err(TransportFailed), attempt, delays;
          }
      }
      var delay := Backoff(s, attempt, draw);
      delays := delays + [delay];
    }
  }

  method Backoff(s: Settings, attempt: nat, draw: (nat, nat) -> nat) returns (delay: int)
    requires attempt >= 1 && 0.0 <= s.jitter <= 1.0
    requires forall k, n :: draw(k, n) <= n
    ensures s.DelayAllowed(attempt, delay)
    ensures s.jitter == 0.0 ==> delay == s.CapMs(attempt)
    ensures s.jitter > 0.0 ==>
              var range := (s.CapMs(attempt) as real * s.jitter).Floor;
              range >= 0 && delay == s.CapMs(attempt) - range + draw(attempt, range)
  {
    var capMs := s.CapMs(attempt);
    JitterWithinCap(s, capMs);
    var jitterRange := s.JitterRange(capMs);
    delay := capMs;
    if s.jitter > 0.0 {
      var deterministic := if capMs >= jitterRange then capMs - jitterRange else 0;
      var drawn := draw(attempt, jitterRange);
      assert drawn <= jitterRange;
      delay := deterministic + drawn;
    }
  }

  lemma ProductFits(base: nat, factor: nat)
    requires base * 1024 < U64 && factor <= 1024
    ensures (base * factor) % U64 == base * factor
  {
    MulMonotone(factor, 1024, base);
    SmallModulo(base * factor, U64);
  }

  lemma SmallFactor(k: nat)
    requires k <= 10
    ensures Pow2(k) <= 1024
  {
    Pow2Monotone(k, 10);
    assert Pow2(10) == 1024;
  }

  lemma ScaledFits(s: Settings, k: nat)
    requires s.Base() * 1024 < U64 && k <= 10
    ensures s.Scaled(k) == s.Base() * Pow2(k)
  {
    SmallFactor(k);
    ProductFits(s.Base(), Pow2(k));
  }

  /** Without overflow the caps never shrink. */
  lemma CapsGrow(s: Settings, i: nat, j: nat)
    requires 1 <= i <= j && s.Base() * 1024 < U64
    ensures s.CapMs(i) <= s.CapMs(j)
  {
    var a, b := Min(i - 1, 10), Min(j - 1, 10);
    ScaledFits(s, a);
    ScaledFits(s, b);
    Pow2Monotone(a, b);
    MulMonotone(Pow2(a), Pow2(b), s.Base());
  }

  lemma ScaledDoubles(s: Settings, k: nat)
    requires s.Base() * 1024 < U64 && k < 10
    ensures s.Scaled(k + 1) == 2 * s.Scaled(k)
  {
    ScaledFits(s, k);
    ScaledFits(s, k + 1);
    DoubleFactor(s.Base(), Pow2(k));
  }

  /** The caps in numbers: the base delay of at least 50 ms, doubled ten times at most, never above a minute. */
  lemma CapsDouble(s: Settings, attempt: nat)
    requires 1 <= attempt && s.Base() * 1024 < U64
    ensures s.CapMs(1) == Min(Max(s.baseDelayMs, 50), 60000)
    ensures s.CapMs(attempt + 1) == if attempt <= 10 then Min(2 * s.CapMs(attempt), 60000) else s.CapMs(attempt)
  {
    ScaledFits(s, 0);
    if attempt <= 10 {
      ScaledDoubles(s, attempt - 1);
      var x := s.Scaled(attempt - 1);
      assert s.CapMs(attempt) == Min(x, 60000) && s.CapMs(attempt + 1) == Min(2 * x, 60000);
    }
  }

  /** No product up to 2^10 overflows, or none that does drops below the limit of a minute. */
  predicate CapsSafe(s: Settings) {
    s.Base() * 1024 < U64 || forall k :: 0 <= k <= 10 ==> s.Scaled(k) >= 60000
  }

  /** For every 64-bit base delay, the caps grow from retry to retry exactly under this condition. */
  lemma CapsGrowIff(s: Settings)
    requires s.Base() < U64
    ensures (forall i: nat, j: nat :: 1 <= i <= j ==> s.CapMs(i) <= s.CapMs(j)) <==> CapsSafe(s)
  {
    if s.Base() * 1024 < U64 {
      forall i: nat, j: nat | 1 <= i <= j
        ensures s.CapMs(i) <= s.CapMs(j)
      {
        CapsGrow(s, i, j);
      }
    } else {
      LargeBaseGrowsIff(s);
    }
  }

  lemma LargeBaseGrowsIff(s: Settings)
    requires U64 <= s.Base() * 1024 && s.Base() < U64
    ensures (forall i: nat, j: nat :: 1 <= i <= j ==> s.CapMs(i) <= s.CapMs(j)) <==>
            forall k :: 0 <= k <= 10 ==> s.Scaled(k) >= 60000
  {
    forall k | 0 <= k <= 10
      ensures s.CapMs(1) == 60000 && s.CapMs(k + 1) == Min(s.Scaled(k), 60000)
    {
      LargeBase(s, k);
    }
    if forall i: nat, j: nat :: 1 <= i <= j ==> s.CapMs(i) <= s.CapMs(j) {
      forall k | 0 <= k <= 10
        ensures s.Scaled(k) >= 60000
      {
        assert s.CapMs(1) <= s.CapMs(k + 1);
      }
    }
  }

  lemma LargeBase(s: Settings, k: nat)
    requires U64 <= s.Base() * 1024 && s.Base() < U64 && k <= 10
    ensures s.CapMs(1) == 60000 && s.CapMs(k + 1) == Min(s.Scaled(k), 60000)
  {
    SmallModulo(s.Base(), U64);
    assert Pow2(0) == 1 && s.Scaled(0) == s.Base();
  }

  /** A base delay of 2^54 ms wraps to no delay at all from the eleventh attempt on. */
  lemma OverflowDropsDelay(s: Settings)
    requires s.Base() == 0x40_0000_0000_0000
    ensures s.CapMs(1) == 60000 && s.CapMs(11) == 0
  {
    assert Pow2(10) == 1024 && Pow2(0) == 1;
  }

  /** A whole call never sleeps longer than a minute per retry. */
  lemma {:induction false} TotalDelayBound(s: Settings, delays: seq<int>)
    requires forall k :: 0 <= k < |delays| ==> s.DelayAllowed(k + 1, delays[k])
    ensures Sum(delays) <= 60000 * |delays|
  {
    if delays != [] {
      TotalDelayBound(s, delays[..|delays| - 1]);
      assert s.DelayAllowed(|delays|, delays[|delays| - 1]);
    }
  }
}
