/** The primality service: every line a client sends is a JSON request
    `{"method":"isPrime","number":N}`, answered with one JSON line saying
    whether N is prime, or with the bare text `error` when the request is
    malformed or asks for another method. */
module PrimeTime {
  import opened Numeric
  import opened Wrappers
  import opened Text

  /** A JSON number as serde_json holds it: a non-negative integer that fits
      in 64 bits, a negative one that fits in 64 bits, or a float (which is
      also what any wider integer becomes). */
  datatype Number = PosInt(u: uint64) | NegInt(i: int64) | Float

  /** A request line once deserialised: its method name and its number. */
  datatype Request = Request(name: string, number: Number)

  const MethodName: string := "isPrime"
  const ErrorReply: string := "error"

  /** `d` divides `n`. */
  ghost predicate Divides(d: nat, n: nat)
  {
    d > 0 && n % d == 0
  }

  /** A prime: at least 2, and divisible only by 1 and itself. */
  ghost predicate Prime(n: nat)
  {
    n >= 2 && forall d :: 1 <= d <= n && Divides(d, n) ==> d == 1 || d == n
  }

  /** `is_prime`: trial division by every candidate from 2 up to n - 1,
      returning as soon as one divides. */
  method IsPrime(n: uint64) returns (b: bool)
    ensures b <==> Prime(n)
  {
    if n < 2 {
      return false;
    }
    for i := 2 to n
      invariant forall d :: 2 <= d < i ==> n % d != 0
    {
      if n % i == 0 {
        assert Divides(i, n);
        return false;
      }
    }
    return true;
  }

  /** What `validate` decides for a line: `None` is a line that is not a
      request at all. */
  ghost function Decision(request: Option<Request>): Result<bool, string>
  {
    match request
    case None => Err(ErrorReply)
    case Some(req) =>
      if req.name != MethodName then Err(ErrorReply)
      else if req.number.PosInt? then Ok(Prime(req.number.u))
      else Ok(false)
  }

  /** `validate` after deserialisation: a line that is not a request, or a
      request for another method, is an error; a number that is not a 64-bit
      unsigned integer is answered `false`, never an error. */
  method Validate(request: Option<Request>) returns (r: Result<bool, string>)
    ensures r == Decision(request)
    ensures r.Err? <==> request.None? || request.value.name != MethodName
    ensures r.Err? ==> r.error == ErrorReply
    ensures r == Ok(true) <==>
              && request.Some? && request.value.name == MethodName
              && request.value.number.PosInt? && Prime(request.value.number.u)
  {
    if request.None? {
      return Err(ErrorReply);
    }
    var req := request.value;
    if req.name != MethodName {
      return Err(ErrorReply);
    }
    match req.number {
      case PosInt(n) =>
        var b := IsPrime(n);
        r := Ok(b);
      case NegInt(_) =>
        r := Ok(false);
      case Float =>
        r := Ok(false);
    }
  }

  /** The serialised response object `{"method":"isPrime","prime":…}`. */
  function ResponseBody(prime: bool): string
  {
    "{\"method\":\"" + MethodName + "\",\"prime\":" + (if prime then "true" else "false") + "}"
  }

  /** What the handler writes for a decision: the response object and a
      newline, or the error text as it is, with no newline. */
  function Reply(decision: Result<bool, string>): string
  {
    match decision
    case Ok(prime) => ResponseBody(prime) + "\n"
    case Err(e) => e
  }

  /** A success reply is exactly one line, and it tells the two answers
      apart. */
  lemma SuccessReplyIsOneLine(prime: bool)
    ensures var reply := Reply(Ok(prime));
            EndsWith(reply, '\n') && '\n' !in reply[..|reply| - 1]
    ensures Reply(Ok(true)) != Reply(Ok(false))
  {
    var reply := Reply(Ok(prime));
    assert reply[..|reply| - 1] == ResponseBody(prime);
    assert forall i :: 0 <= i < |ResponseBody(prime)| ==> ResponseBody(prime)[i] != '\n';
    assert Reply(Ok(true))[29] != Reply(Ok(false))[29];
  }

  /** The error reply is the bare word `error`: no newline ends it. */
  lemma ErrorReplyHasNoNewline()
    ensures Reply(Err(ErrorReply)) == "error"
    ensures '\n' !in Reply(Err(ErrorReply))
  {
  }

  /** The replies of the service's own tests, byte for byte. */
  lemma ReplyExamples()
    ensures Reply(Ok(false)) == "{\"method\":\"isPrime\",\"prime\":false}\n"
    ensures Reply(Ok(true)) == "{\"method\":\"isPrime\",\"prime\":true}\n"
  {
  }

  /** The reply to each line read; `parse` stands for deserialisation. */
  ghost function Answer(parse: string -> Option<Request>): string -> string
  {
    line => Reply(Decision(parse(line)))
  }

  /** Everything the handler writes for everything it reads: one reply per
      line, a line being what `read_until` returns (newline included, or the
      rest of the stream at its end). */
  ghost function Serve(input: string, parse: string -> Option<Request>): string
  {
    Responses(input, Answer(parse))
  }

  /** The handler's writes for one decision, in the order it makes them: the
      serialised response, then a newline, or the error text. It writes
      exactly `Reply`, which is where the bytes of a reply are defined. */
  method WriteReply(decision: Result<bool, string>) returns (written: string)
    ensures written == Reply(decision)
  {
    match decision {
      case Ok(prime) =>
        var body := ResponseBody(prime);
        written := body;
        written := written + "\n";
      case Err(e) =>
        written := e;
    }
  }

  /** One turn of the handler's loop on a stream that has not ended: read a
      line into the cleared buffer, validate it and write the reply. What is
      written, followed by the replies to what is left, is the replies to the
      whole stream. */
  method ServeLine(rest: string, parse: string -> Option<Request>) returns (written: string, next: string)
    requires |rest| > 0
    ensures |next| < |rest|
    ensures written + Serve(next, parse) == Serve(rest, parse)
  {
    var n := LineLength(rest);
    var buffer := rest[..n];
    next := rest[n..];
    var v := Validate(parse(buffer));
    written := WriteReply(v);
    assert written == Answer(parse)(buffer);
  }

  /** `handler`: answer line after line until `read_until` reads nothing. */
  method Handler(input: string, parse: string -> Option<Request>) returns (output: string)
    ensures output == Serve(input, parse)
  {
    output := "";
    var rest := input;
    while true
      invariant output + Serve(rest, parse) == Serve(input, parse)
      decreases |rest|
    {
      if |rest| == 0 {
        break;
      }
      var written;
      written, rest := ServeLine(rest, parse);
      output := output + written;
    }
  }

  /** Eleven is prime. */
  lemma ElevenIsPrime()
    ensures Prime(11)
  {
    forall d | 1 <= d <= 11 && Divides(d, 11)
      ensures d == 1 || d == 11
    {
    }
  }

  /** Ten is not prime: 2 divides it. */
  lemma TenIsNotPrime()
    ensures !Prime(10)
  {
    assert Divides(2, 10);
  }

  /** 123 is not prime: 3 divides it. */
  lemma OneTwentyThreeIsNotPrime()
    ensures !Prime(123)
  {
    assert Divides(3, 123);
  }

  /** The service's own tests: 123 is answered `false`, 11 (sent without a
      newline) `true`, and a request for another method `error`. */
  lemma HandlerExamples(parse: string -> Option<Request>, line: string)
    requires |line| > 0 && '\n' !in line
    ensures parse(line + "\n") == Some(Request(MethodName, PosInt(123)))
            ==> Serve(line + "\n", parse) == "{\"method\":\"isPrime\",\"prime\":false}\n"
    ensures parse(line) == Some(Request(MethodName, PosInt(11)))
            ==> Serve(line, parse) == "{\"method\":\"isPrime\",\"prime\":true}\n"
    ensures parse(line) == Some(Request("aaaa", PosInt(11)))
            ==> Serve(line, parse) == "error"
  {
    ResponsesLines([line], Answer(parse));
    assert Unlines([line]) == line + "\n";
    ResponsesLastLine(line, Answer(parse));
    OneTwentyThreeIsNotPrime();
    ElevenIsPrime();
    ReplyExamples();
  }
}
