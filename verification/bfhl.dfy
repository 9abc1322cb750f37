/**
 The `POST /bfhl` handler as a pure function: the body-shape checks, the
 routing on the single key, the per-key value checks with their error texts,
 and the JSON envelope. The outbound language-model call is not performed:
 its outcome is a parameter, and so is the configured `official_email`.
 */
module Bfhl {
  import opened Seqs
  import opened Arith
  import opened Toolkit
  import opened AiText

  /** A JSON value, as far as the handler tells values apart. */
  datatype Value =
    | Int(i: int)               // a number for which `Number.isInteger` holds
    | NonInteger                // any other number
    | IntArray(items: seq<int>) // an array (of integers)
    | Str(s: string)
    | Other                     // true, false, null or an object

  /**
   The parsed body: either it fails `!req.body || typeof req.body !== "object"`,
   or it is an object given by its own keys, in `Object.keys` order, with their values.
   */
  datatype Body = NotAnObject | Object(entries: seq<(string, Value)>)

  /** What the outbound call to the language model gave: the first candidate's first text part, or the error it threw. */
  datatype Reply = Text(text: string) | Thrown(message: string)

  /** The `data` field of a successful response; `NaN` is written out by `res.json` as `null`. */
  datatype Data = Series(items: seq<int>) | Number(value: int) | Null | Word(word: string)

  /** The handler's outcome; `NoResponse` when it never reaches `res.json`. */
  datatype Response = Success(email: string, data: Data) | Failure(message: string) | NoResponse

  const EmptyBodyMessage := "Invalid or empty request body"
  const KeyCountMessage := "Request must contain exactly one key"
  const FibonacciMessage := "Invalid fibonacci input"
  const PrimeMessage := "Prime expects an array"
  const LcmMessage := "LCM expects an array"
  const HcfMessage := "HCF expects an array"
  const AiMessage := "AI expects a string"
  const InvalidKeyMessage := "Invalid key"
  /** The text of the `TypeError` that `reduce` without an initial value throws on an empty array. */
  const EmptyReduceMessage := "Reduce of empty array with no initial value"

  /** Every failure text the handler produces itself, as opposed to relaying the language-model call's error. */
  const OwnMessages: set<string> := {
    EmptyBodyMessage, KeyCountMessage, FibonacciMessage, PrimeMessage,
    LcmMessage, HcfMessage, AiMessage, InvalidKeyMessage, EmptyReduceMessage
  }

  /** The `switch (key)` of the handler, for a body with exactly one key. */
  function Route(email: string, key: string, v: Value, reply: Reply): (r: Response)
    ensures r.Success? ==> r.email == email
    ensures r.Failure? ==>
      r.message in OwnMessages - {EmptyBodyMessage, KeyCountMessage} || (reply.Thrown? && r.message == reply.message)
    ensures r.NoResponse? ==> key == "lcm" && v.IntArray?
  {
    if key == "fibonacci" then
      if v.Int? && v.i >= 0 then Success(email, Series(Fibonacci(v.i)))
      else Failure(FibonacciMessage)
    else if key == "prime" then
      if v.IntArray? then Success(email, Series(Filter(IsPrime, v.items)))
      else Failure(PrimeMessage)
    else if key == "lcm" then
      if !v.IntArray? then Failure(LcmMessage)
      else if v.items == [] then Failure(EmptyReduceMessage)
      else
        match Lcm(v.items)
        case Finite(m) => Success(email, Number(m))
        case NotANumber => Success(email, Null)
        case Diverges => NoResponse
    else if key == "hcf" then
      if !v.IntArray? then Failure(HcfMessage)
      else if v.items == [] then Failure(EmptyReduceMessage)
      else Success(email, Number(Hcf(v.items)))
    else if key == "AI" then
      if !v.Str? then Failure(AiMessage)
      else
        match reply
        case Thrown(m) => Failure(m)
        case Text(t) => Success(email, Word(Normalize(t)))
    else Failure(InvalidKeyMessage)
  }

  /** The whole handler: shape checks first, then routing on the only key. */
  function Handle(email: string, body: Body, reply: Reply): (r: Response)
    ensures r.Success? ==> r.email == email
    ensures r.Failure? ==> r.message in OwnMessages || (reply.Thrown? && r.message == reply.message)
    ensures r.NoResponse? ==> body.Object? && |body.entries| == 1 && body.entries[0].0 == "lcm"
  {
    match body
    case NotAnObject => Failure(EmptyBodyMessage)
    case Object(entries) =>
      if |entries| != 1 then Failure(KeyCountMessage)
      else Route(email, entries[0].0, entries[0].1, reply)
  }

  /** A body holding exactly the one key `key`, with value `v`. */
  predicate Single(body: Body, key: string, v: Value) {
    body == Object([(key, v)])
  }

  // ---------------------------------------------------------------- properties

  /**
   The two shape failures, each exactly when its condition holds (unless the
   language-model call throws an error carrying that very text).
   */
  lemma ShapeFailures(email: string, body: Body, reply: Reply)
    requires reply.Thrown? ==> reply.message !in {EmptyBodyMessage, KeyCountMessage}
    ensures Handle(email, body, reply) == Failure(EmptyBodyMessage) <==> body.NotAnObject?
    ensures Handle(email, body, reply) == Failure(KeyCountMessage) <==> body.Object? && |body.entries| != 1
  {
    if body.Object? && |body.entries| == 1 {
      NoOwnMessageClash(email, body.entries[0].0, body.entries[0].1, reply);
    }
  }

  /** Routing never produces the shape failures itself, except by relaying a thrown error. */
  lemma NoOwnMessageClash(email: string, key: string, v: Value, reply: Reply)
    requires reply.Thrown? ==> reply.message !in {EmptyBodyMessage, KeyCountMessage}
    ensures Route(email, key, v, reply) != Failure(EmptyBodyMessage)
    ensures Route(email, key, v, reply) != Failure(KeyCountMessage)
  {
  }

  /**
   `fibonacci` succeeds exactly on a non-negative integer `n`, answering the
   first `n` Fibonacci numbers; anything else is "Invalid fibonacci input".
   */
  lemma FibonacciBranch(email: string, body: Body, v: Value, reply: Reply)
    requires Single(body, "fibonacci", v)
    ensures Handle(email, body, reply).Success? <==> v.Int? && v.i >= 0
    ensures !(v.Int? && v.i >= 0) ==> Handle(email, body, reply) == Failure(FibonacciMessage)
    ensures Handle(email, body, reply).Success? ==>
      && Handle(email, body, reply).data.Series?
      && |Handle(email, body, reply).data.items| == v.i
      && FibPrefix(Handle(email, body, reply).data.items)
  {
  }

  /**
   `prime` on an array answers its prime elements in their original order, each
   as often as it occurs, and the array itself exactly when all its elements
   are prime; on anything else it is "Prime expects an array".
   */
  lemma PrimeBranch(email: string, body: Body, v: Value, reply: Reply)
    requires Single(body, "prime", v)
    ensures !v.IntArray? ==> Handle(email, body, reply) == Failure(PrimeMessage)
    ensures v.IntArray? ==>
      && Handle(email, body, reply).Success?
      && Handle(email, body, reply).data.Series?
      && IsSubsequence(Handle(email, body, reply).data.items, v.items)
      && (forall x :: multiset(Handle(email, body, reply).data.items)[x] == if Prime(x) then multiset(v.items)[x] else 0)
      && (Handle(email, body, reply).data.items == v.items <==> forall i :: 0 <= i < |v.items| ==> Prime(v.items[i]))
  {
    if v.IntArray? {
      FilterSpec(IsPrime, v.items);
      FilterAllPass(IsPrime, v.items);
      forall x {
        IsPrimeIsPrimality(x);
      }
    }
  }

  /**
   `hcf` on a non-empty array answers a common divisor of the elements that
   every common divisor divides (non-negative when the elements are); an empty
   array fails with the `reduce` error, a non-array with "HCF expects an array".
   */
  lemma HcfBranch(email: string, body: Body, v: Value, reply: Reply)
    requires Single(body, "hcf", v)
    ensures !v.IntArray? ==> Handle(email, body, reply) == Failure(HcfMessage)
    ensures v == IntArray([]) ==> Handle(email, body, reply) == Failure(EmptyReduceMessage)
    ensures v.IntArray? && v.items != [] ==>
      && Handle(email, body, reply).Success?
      && Handle(email, body, reply).data.Number?
      && CommonDivisor(Handle(email, body, reply).data.value, v.items)
      && (forall d :: CommonDivisor(d, v.items) ==> Divides(d, Handle(email, body, reply).data.value))
      && ((forall x :: x in v.items ==> x >= 0) ==> Handle(email, body, reply).data.value >= 0)
  {
    if v.IntArray? && v.items != [] {
      HcfIsGreatestCommonDivisor(v.items);
    }
  }

  /**
   `lcm` on a non-empty array: with at most one zero it answers a common
   multiple that divides every common multiple (positive for positive
   elements); with more zeros the fold reaches NaN, answered as `null`, unless
   a non-zero element follows the second zero, in which case no response is
   ever sent. An empty array fails with the `reduce` error.
   */
  lemma LcmBranch(email: string, body: Body, v: Value, reply: Reply)
    requires Single(body, "lcm", v)
    ensures !v.IntArray? ==> Handle(email, body, reply) == Failure(LcmMessage)
    ensures v == IntArray([]) ==> Handle(email, body, reply) == Failure(EmptyReduceMessage)
    ensures v.IntArray? && v.items != [] ==>
      && (Handle(email, body, reply).Success? && Handle(email, body, reply).data.Number?
          <==> multiset(v.items)[0] <= 1)
      && (Handle(email, body, reply) == Success(email, Null)
          <==> multiset(v.items)[0] > 1 && !ZeroZeroNonzero(v.items))
      && (Handle(email, body, reply) == NoResponse <==> ZeroZeroNonzero(v.items))
    ensures v.IntArray? && v.items != [] && Handle(email, body, reply).Success? && Handle(email, body, reply).data.Number? ==>
      && CommonMultiple(Handle(email, body, reply).data.value, v.items)
      && forall c :: CommonMultiple(c, v.items) ==> Divides(Handle(email, body, reply).data.value, c)
    ensures v.IntArray? && v.items != [] && (forall x :: x in v.items ==> x > 0) ==>
      && Handle(email, body, reply).Success? && Handle(email, body, reply).data.Number?
      && Handle(email, body, reply).data.value > 0
  {
    if v.IntArray? && v.items != [] {
      var xs := v.items;
      LcmFiniteIff(xs);
      LcmDivergesIff(xs);
      if Lcm(xs).Finite? {
        LcmIsLeastCommonMultiple(xs);
      }
      if forall x :: x in xs ==> x > 0 {
        LcmPositive(xs);
      }
    }
  }

  /**
   `AI` on a string relays the call's error, or answers the first word of the
   reply: ASCII letters only, a prefix of the cleaned reply that ends at its
   first space or at its end, empty only when the reply has no letter. Anything else is "AI expects a string".
   */
  lemma AiBranch(email: string, body: Body, v: Value, reply: Reply)
    requires Single(body, "AI", v)
    ensures !v.Str? ==> Handle(email, body, reply) == Failure(AiMessage)
    ensures v.Str? && reply.Thrown? ==> Handle(email, body, reply) == Failure(reply.message)
    ensures v.Str? && reply.Text? ==>
      && Handle(email, body, reply).Success?
      && Handle(email, body, reply).data.Word?
      && (forall c :: c in Handle(email, body, reply).data.word ==> IsAsciiLetter(c))
      && Handle(email, body, reply).data.word <= Cleaned(reply.text)
      && ' ' !in Handle(email, body, reply).data.word
      && (|Handle(email, body, reply).data.word| == |Cleaned(reply.text)|
          || Cleaned(reply.text)[|Handle(email, body, reply).data.word|] == ' ')
      && (Handle(email, body, reply).data.word == [] <==> forall c :: c in reply.text ==> !IsAsciiLetter(c))
  {
    if v.Str? && reply.Text? {
      NormalizeSpec(reply.text);
    }
  }

  /** Any key other than the five is "Invalid key", whatever its value. */
  lemma UnknownKey(email: string, body: Body, key: string, v: Value, reply: Reply)
    requires Single(body, key, v)
    ensures Handle(email, body, reply) == Failure(InvalidKeyMessage)
      <==> key !in {"fibonacci", "prime", "lcm", "hcf", "AI"} || (reply.Thrown? && reply.message == InvalidKeyMessage && key == "AI" && v.Str?)
  {
  }

  /** The language model's reply can only matter for an `AI` key with a string value. */
  lemma ReplyOnlyMattersForAi(email: string, body: Body, r1: Reply, r2: Reply)
    requires Handle(email, body, r1) != Handle(email, body, r2)
    ensures body.Object? && |body.entries| == 1
    ensures body.entries[0].0 == "AI" && body.entries[0].1.Str?
  {
  }

  /**
   Every failure the handler produces is one of its own fixed messages, except
   the relayed error of the language-model call; and no response at all is
   possible only for `lcm`.
   */
  lemma OutcomesAreClosed(email: string, body: Body, reply: Reply)
    ensures Handle(email, body, reply).Failure? ==>
      Handle(email, body, reply).message in OwnMessages || (reply.Thrown? && Handle(email, body, reply).message == reply.message)
    ensures Handle(email, body, reply).NoResponse? ==>
      && body.Object? && |body.entries| == 1 && body.entries[0].0 == "lcm"
      && body.entries[0].1.IntArray? && ZeroZeroNonzero(body.entries[0].1.items)
  {
    if Handle(email, body, reply).NoResponse? {
      LcmDivergesIff(body.entries[0].1.items);
    }
  }

  // ---------------------------------------------------------------- envelope

  datatype Option<T> = None | Some(value: T)

  /** A field value of the response JSON. */
  datatype Json = JBool(b: bool) | JString(s: string) | JData(d: Data)

  /** The status code and the JSON object `res.status(..).json(..)` sends. */
  datatype HttpReply = HttpReply(status: int, fields: seq<(string, Json)>)

  function Lookup(fields: seq<(string, Json)>, key: string): (r: Option<Json>)
    ensures r.Some? <==> exists i :: 0 <= i < |fields| && fields[i].0 == key
  {
    if fields == [] then None
    else if fields[0].0 == key then Some(fields[0].1)
    else Lookup(fields[1..], key)
  }

  /** The envelope written for a finished request. */
  function Render(r: Response): (h: HttpReply)
    requires !r.NoResponse?
    ensures h.status == 200 <==> r.Success?
    ensures Lookup(h.fields, "is_success") == Some(JBool(r.Success?))
  {
    match r
    case Success(email, data) =>
      HttpReply(200, [("is_success", JBool(true)), ("official_email", JString(email)), ("data", JData(data))])
    case Failure(message) =>
      HttpReply(400, [("is_success", JBool(false)), ("message", JString(message))])
  }

  /**
   Every answered request carries `is_success`, true exactly with status 200;
   a success carries the configured email and the data and no message; a
   failure carries the message and neither email nor data.
   */
  lemma EnvelopeShape(email: string, body: Body, reply: Reply)
    requires !Handle(email, body, reply).NoResponse?
    ensures var r := Handle(email, body, reply); var h := Render(r);
      && Lookup(h.fields, "is_success") == Some(JBool(r.Success?))
      && (h.status == 200 <==> r.Success?)
      && (h.status == 400 <==> r.Failure?)
      && (r.Success? ==> Lookup(h.fields, "official_email") == Some(JString(email)))
      && (r.Success? ==> Lookup(h.fields, "data").Some? && Lookup(h.fields, "message").None?)
      && (r.Failure? ==> Lookup(h.fields, "message") == Some(JString(r.message)))
      && (r.Failure? ==> Lookup(h.fields, "data").None? && Lookup(h.fields, "official_email").None?)
  {
    var r := Handle(email, body, reply);
    var h := Render(r);
    if r.Success? {
      assert h.fields[2].0 == "data";
      assert forall i :: 0 <= i < |h.fields| ==> h.fields[i].0 != "message";
    } else {
      assert forall i :: 0 <= i < |h.fields| ==> h.fields[i].0 != "data" && h.fields[i].0 != "official_email";
    }
  }

  lemma PrimeFilterExample()
    ensures Filter(IsPrime, [2, 3, 4, 5, 6]) == [2, 3, 5]
  {
    ToolkitExamples();
    var xs := [2, 3, 4, 5, 6];
    assert Filter(IsPrime, xs[4..]) == [];
    assert Filter(IsPrime, xs[3..]) == [5] + Filter(IsPrime, xs[4..]);
    assert Filter(IsPrime, xs[2..]) == Filter(IsPrime, xs[3..]);
    assert Filter(IsPrime, xs[1..]) == [3] + Filter(IsPrime, xs[2..]);
    assert Filter(IsPrime, xs) == [2] + Filter(IsPrime, xs[1..]);
  }

  /** Sample successful numeric requests and their answers. */
  lemma SampleSuccesses(email: string, reply: Reply)
    ensures Handle(email, Object([("fibonacci", Int(5))]), reply) == Success(email, Series([0, 1, 1, 2, 3]))
    ensures Handle(email, Object([("hcf", IntArray([12, 18, 24]))]), reply) == Success(email, Number(6))
    ensures Handle(email, Object([("lcm", IntArray([4, 6]))]), reply) == Success(email, Number(12))
  {
    FibonacciSmall();
    ToolkitExamples();
  }

  /** A sample `prime` request: `[2, 3, 4, 5, 6]` answers `[2, 3, 5]`. */
  lemma SamplePrime(email: string, reply: Reply)
    ensures Handle(email, Object([("prime", IntArray([2, 3, 4, 5, 6]))]), reply) == Success(email, Series([2, 3, 5]))
  {
    PrimeFilterExample();
    var xs := [2, 3, 4, 5, 6];
    assert Route(email, "prime", IntArray(xs), reply) == Success(email, Series(Filter(IsPrime, xs)));
  }

  /** Sample failing requests and their answers. */
  lemma SampleFailures(email: string, reply: Reply)
    ensures Handle(email, Object([]), reply) == Failure(KeyCountMessage)
    ensures Handle(email, Object([("fibonacci", Int(-3))]), reply) == Failure(FibonacciMessage)
    ensures Handle(email, Object([("foo", Int(1))]), reply) == Failure(InvalidKeyMessage)
  {
  }
}
