# A verified model of the `/bfhl` qualifier API

The service is one Express file. One endpoint, `POST /bfhl`, takes a JSON body
with exactly one key. It routes on that key to a small numeric toolkit or to a
generative-language model:

- `fibonacci` answers the first `n` Fibonacci numbers.
- `prime` filters an array down to its primes.
- `lcm` and `hcf` fold an array with the Euclidean gcd.
- `AI` sends a prompt to the language model and answers the first word of its reply.

Every answer is wrapped in a uniform envelope: `is_success`, then either
`official_email` and `data`, or `message`.

This project models that core in Dafny as pure functions. It proves what each
function computes in mathematical terms.

| module | file | models |
|---|---|---|
| `Arith` | `arith.dfy` | divisibility (`Divides`) and JavaScript's `%` on integers (`JsRem`, truncated, with the sign of the dividend) |
| `Seqs` | `seqs.dfy` | order-preserving `Filter`, the shape of `Array.prototype.filter` and of a global regex deletion |
| `Toolkit` | `toolkit.dfy` | `fibonacci`, `isPrime`, `gcd`, `hcf`, `lcm` (index.js lines 13-43) |
| `AiText` | `ai_text.dfy` | `.replace(/[^a-zA-Z ]/g, "").trim().split(" ")[0]` (index.js lines 121-124) |
| `Bfhl` | `bfhl.dfy` | the handler (index.js lines 54-143) as `Handle(email, body, reply)`, and the envelope `Render` |

Decisions that shape the model:

- **Integers and `%`.** Integers are mathematical. `%` is JavaScript's truncated
  remainder, so `gcd` is total over all integers. The loop ends because `|b|`
  shrinks at every step.
  - For negative inputs, `gcd` can return a negative number. Every property
    about divisors is sign-agnostic. Non-negativity is proved for non-negative
    inputs.
- **`lcm` with zeros.** These arrays are modelled as the code behaves, not
  excluded by a precondition.
  - `gcd(0, 0)` is `0`, so a step `0 * 0 / 0` yields NaN. `res.json` writes NaN
    as `null`.
  - After NaN, the next step with a non-zero `b` calls `gcd(NaN, b)`. That call
    swaps NaN into `b`, so `b !== 0` stays true and the loop never ends. The
    loop runs synchronously inside the handler, so it blocks Node's only
    thread: this request gets no response, and neither does any later request
    to the same server process.
  - `Toolkit.LcmValue` has three cases: `Finite`, `NotANumber` and `Diverges`.
    `Bfhl.Response` has a `NoResponse` case.
- **Empty arrays.** `reduce` without an initial value throws a `TypeError` on
  an empty array. The handler catches it and returns its text, "Reduce of empty
  array with no initial value". The model does the same.
- **The language model.** The outbound call is not modelled. Its outcome is the
  parameter `reply`: either the first candidate's text, or the message of the
  error it threw, which the handler relays.
- **`hcf` and the order of the array.** A highest common factor is expected
  not to depend on the order of the array. The code keeps that only for
  non-negative elements: `hcf([4, -4])` is `-4` and `hcf([-4, 4])`
  is `4` (`Toolkit.HcfOrderChangesSign`). The model follows the code. It proves
  that order cannot change the magnitude, and cannot change the value when the
  elements are non-negative (`Toolkit.HcfPermutationInvariant`).
- **Two forms of each loop.** `Fibonacci`, `IsPrime` and `Gcd` are the
  functions the handler uses. `FibonacciLoop`, `IsPrimeLoop` and `GcdLoop`
  follow the JavaScript loops statement by statement. Each is proved to compute
  the same result as its function.

## Model

| member | source | states |
|---|---|---|
| Arith.JsRem | index.js:32 | the remainder pairs with the truncated quotient (`a == b*q + r`), is smaller than the divisor in magnitude, and has the sign of the dividend |
| Toolkit.Fibonacci | index.js:13-20 | the answer has `max(n, 0)` terms, and term `i` is the `i`-th Fibonacci number |
| Toolkit.Grow | index.js:15-18 | growing a correct seeded series term by term keeps every term equal to its Fibonacci number and reaches `n` terms |
| Toolkit.FibonacciLoop | index.js:13-20 | the `for` loop plus `slice(0, n)` yields `max(n, 0)` terms with `s[0] == 0`, `s[1] == 1` and `s[i] == s[i-1] + s[i-2]`; it equals `Fibonacci(n)` |
| Toolkit.FibonacciSmall | index.js:14-19 | `n <= 0` gives `[]`, 1 gives `[0]`, 2 gives `[0, 1]`, 5 gives `[0, 1, 1, 2, 3]` |
| Toolkit.NoDivisorFrom | index.js:24-27 | trial division from `i` is true exactly when no `j >= i` with `j*j <= num` divides `num` |
| Toolkit.IsPrime | index.js:22-28 | true exactly when `num > 1` and no `i >= 2` with `i*i <= num` divides `num` |
| Toolkit.IsPrimeIsPrimality | index.js:22-28 | `isPrime` holds exactly for the primes: numbers of at least 2 with no divisor strictly between 1 and themselves |
| Toolkit.IsPrimeLoop | index.js:22-28 | the loop with its early `return false` agrees with `IsPrime` and with primality |
| Toolkit.ToolkitExamples | index.js:22-43 | 2, 3, 5, 7, 11 are prime and 1, 4, 6, 8, 9 are not; `hcf([12, 18, 24]) == 6`; `lcm([4, 6]) == 12` |
| Toolkit.Gcd | index.js:30-35 | the result is zero exactly when both inputs are, and non-negative for non-negative inputs |
| Toolkit.GcdIsGreatestCommonDivisor | index.js:30-35 | the result divides both inputs, and every common divisor of the inputs divides it |
| Toolkit.GcdBezout | index.js:30-35 | the result is an integer combination `a*x + b*y` of the inputs |
| Toolkit.GcdLoop | index.js:30-35 | the `while` loop terminates, returns `a` when `b == 0`, returns a common divisor, and agrees with `Gcd` |
| Toolkit.GcdFold | index.js:37-39 | the gcd fold over non-negative numbers is non-negative |
| Toolkit.Hcf | index.js:37-39 | `hcf` of non-negative elements is non-negative |
| Toolkit.GcdFoldIsGreatest | index.js:37-39 | the fold divides its seed and every element, and every common divisor of them divides it |
| Toolkit.HcfIsGreatestCommonDivisor | index.js:37-39 | `hcf` divides every element, and every common divisor of the elements divides it |
| Toolkit.HcfPermutationInvariant | index.js:37-39 | reordering the array keeps `|hcf|`, and keeps `hcf` itself for non-negative elements |
| Toolkit.HcfOrderChangesSign | index.js:30-39 | `hcf([4, -4]) == -4` while `hcf([-4, 4]) == 4` |
| Toolkit.LcmStep | index.js:42 | when the gcd is not zero, `(a*b)/gcd(a, b)` is an exact division whose result times the gcd is `a*b`; when it is zero the step is NaN |
| Toolkit.LcmFold | index.js:41-43 | once the `reduce` has left the integers (NaN or a loop that never ends) it never returns to an integer, and once it never ends it stays so |
| Toolkit.Lcm | index.js:41-43 | no contract of its own; specified by `Toolkit.LcmIsLeastCommonMultiple`, `Toolkit.LcmPositive`, `Toolkit.LcmFiniteIff` and `Toolkit.LcmDivergesIff` |
| Toolkit.LcmStepIsLeast | index.js:42 | one step is a multiple of both inputs and divides each of their common multiples |
| Toolkit.LcmFoldIsLeast | index.js:41-43 | an integer fold result is a multiple of the seed and of every element, and divides all their common multiples |
| Toolkit.LcmIsLeastCommonMultiple | index.js:41-43 | an integer `lcm` is a multiple of every element and divides every common multiple of the elements |
| Toolkit.LcmPositive | index.js:41-43 | on positive elements `lcm` is a positive integer |
| Toolkit.NotANumberFold | index.js:30-43 | once the fold holds NaN it stays NaN over zeros and never finishes after a non-zero element |
| Toolkit.LcmFiniteIff | index.js:30-43 | `lcm` is an integer exactly when the array has at most one zero |
| Toolkit.LcmDivergesIff | index.js:30-43 | `lcm` never finishes exactly when two zeros are later followed by a non-zero element |
| Seqs.Filter | index.js:88 | `filter` keeps only passing elements, and every passing element of the input occurs in the result |
| Seqs.FilterSpec | index.js:88 | a filter keeps order, and keeps every occurrence of a passing element and none of a failing one |
| Seqs.FilterAllPass | index.js:88 | a filter returns its input unchanged exactly when every element passes |
| AiText.TrimStart | index.js:123 | `trim` starts at the first character that is not ECMAScript whitespace, or at the end |
| AiText.TrimEnd | index.js:123 | `trim` ends just after the last character that is not whitespace, with only whitespace after it |
| AiText.Trim | index.js:123 | `trim` answers the unbroken stretch of the input after its longest whitespace prefix, followed only by whitespace; the stretch neither starts nor ends with whitespace, keeps every other character, and is the input itself when that is unpadded |
| AiText.Stretch | index.js:123 | a stretch with whitespace on both sides and none at its ends keeps every non-whitespace character |
| AiText.TrimIsTheStretch | index.js:123 | any stretch `s[i..j]` with only whitespace outside it and none at its ends is exactly `trim`'s answer, so the contract of `Trim` determines it |
| AiText.SpaceIndex | index.js:124 | finds the first space, or the length when there is none |
| AiText.FirstSegment | index.js:124 | `split(" ")[0]` is the longest space-free prefix |
| AiText.Cleaned | index.js:121-123 | the cleaned reply holds only ASCII letters and spaces, all from the reply, and neither starts nor ends with a space |
| AiText.Normalize | index.js:121-124 | the answer holds only ASCII letters, all from the reply |
| AiText.LetterGivesWord | index.js:121-124 | a reply with an ASCII letter anywhere gives a non-empty answer |
| AiText.NormalizeSpec | index.js:121-124 | the `AI` answer has only ASCII letters and no space, is the longest space-free prefix of the trimmed filtered reply, and is empty exactly when the reply has no ASCII letter |
| Bfhl.Route | index.js:76-130 | routing succeeds only with the configured email, fails only with one of its own seven texts or the relayed call error, and leaves the request unanswered only for `lcm` on an array |
| Bfhl.Handle | index.js:54-143 | the handler succeeds only with the configured email, fails only with one of its nine texts or the relayed call error, and leaves the request unanswered only for a single `lcm` key |
| Bfhl.Render | index.js:132-141 | status 200 exactly for a success, and `is_success` holds whether the request succeeded |
| Bfhl.ShapeFailures | index.js:56-71 | "Invalid or empty request body" exactly for a non-object body; "Request must contain exactly one key" exactly for an object without exactly one key |
| Bfhl.NoOwnMessageClash | index.js:76-130 | routing never produces the two shape messages itself |
| Bfhl.FibonacciBranch | index.js:77-82 | `fibonacci` succeeds exactly on a non-negative integer `n` and answers `n` Fibonacci numbers; otherwise "Invalid fibonacci input" |
| Bfhl.PrimeBranch | index.js:84-89 | `prime` on an array answers its primes in order with their multiplicities, and the array itself exactly when every element is prime; otherwise "Prime expects an array" |
| Bfhl.LcmBranch | index.js:91-96 | `lcm` fails on a non-array and on an empty array; otherwise it gives an integer least common multiple iff there is at most one zero, `null` iff more zeros with no later non-zero, and no response iff a non-zero follows two zeros |
| Bfhl.HcfBranch | index.js:98-103 | `hcf` fails on a non-array and on an empty array; otherwise it answers a greatest common divisor of the elements |
| Bfhl.AiBranch | index.js:105-126 | `AI` fails on a non-string; it relays the call's error, or answers a letters-only prefix of the cleaned reply that ends at its first space or at its end, empty exactly when the reply has no letter |
| Bfhl.UnknownKey | index.js:128-129 | "Invalid key" answers exactly the keys outside the five, apart from an `AI` call that throws that same text |
| Bfhl.ReplyOnlyMattersForAi | index.js:105-126 | if two model replies give different outcomes, the body is a single `AI` key with a string |
| Bfhl.OutcomesAreClosed | index.js:54-143 | every failure message is one of the handler's nine texts or the relayed call error; no response happens only for `lcm` with two zeros then a non-zero |
| Bfhl.EnvelopeShape | index.js:132-141 | `is_success` is present and true exactly with status 200; a success carries the email and data and no message; a failure carries the message and neither email nor data |
| Bfhl.SampleSuccesses | index.js:77-103 | `{"fibonacci": 5}` answers `[0, 1, 1, 2, 3]`, `{"hcf": [12, 18, 24]}` answers 6, `{"lcm": [4, 6]}` answers 12 |
| Bfhl.SamplePrime | index.js:84-89 | `{"prime": [2, 3, 4, 5, 6]}` answers `[2, 3, 5]` |
| Bfhl.SampleFailures | index.js:66-129 | `{}` fails on the key count, `{"fibonacci": -3}` with "Invalid fibonacci input", `{"foo": 1}` with "Invalid key" |

## Left out

- Express setup, CORS, JSON body parsing, `app.listen` and its log line, and the `GET /health` route: HTTP plumbing with no logic of its own.
- The `axios.post` call to the language model and the `GEMINI_API_KEY` it uses: a network call. Its outcome is the `reply` parameter of `Handle`.
- Reading `OFFICIAL_EMAIL` from the environment: it is the `email` parameter. When it is unset, JavaScript omits the field from the JSON; this case is not modelled.
- JavaScript's double-precision numbers: rounding above 2^53, `Infinity` for large Fibonacci terms or `lcm` products, and the rounding of `Math.sqrt`. `i <= Math.sqrt(num)` is modelled as `i * i <= num`, which is exact over mathematical integers.
- Array elements that are not integers. Fractions, strings and nested values would be coerced by JavaScript's `%`, `*` and `<=`. `Bfhl.Value.IntArray` holds integers only.
- Arrays sent as the whole body. They pass `typeof body === "object"`, and their keys are the indices. The caller gives them as an `Object` whose entries are those index keys.
- `Bfhl.Body.Object` entries are assumed to have distinct keys, as `Object.keys` guarantees. The key-count check is `|entries| != 1`.
- `Bfhl.Handle` models one request at a time. `NoResponse` says that this request is never answered; it cannot express that the endless `lcm` loop also blocks every later request to the server process, so the model makes no promise about the server staying available.
- `-0` is not distinguished from `0`. JavaScript treats the two alike in `!== 0` and in JSON output.
- Toolkit.HcfPermutationInvariant: states order-independence only up to sign for arrays with negative elements, because the code does not keep the exact promise there (see `Toolkit.HcfOrderChangesSign`).
