/** agents/mobility/json_fixer.py: asking the model to repair a broken JSON
    string, with up to three retries after rate-limit errors. The model is a
    sequence of outcomes, one per call; each sleep is recorded as its
    duration in seconds. */
module JsonFixer {
  import opened Text
  import opened JsonValues
  import opened Agents
  import JsonUtils

  const MaxRetries: nat := 3

  const FixSystemPrompt: string :=
    "You are a JSON Repair Expert. Your ONLY job is to fix malformed JSON.\n" +
    "    \n" +
    "    The user will provide:\n" +
    "    1. A broken JSON string\n" +
    "    2. An error message explaining what's wrong\n" +
    "    3. (Optional) The expected schema/context\n" +
    "    \n" +
    "    YOUR RULES:\n" +
    "    - You must return ONLY valid, parseable JSON.\n" +
    "    - Do not add any markdown formatting, no ```json blocks.\n" +
    "    - Do not add any conversational text.\n" +
    "    - Preserve the original data as much as possible.\n" +
    "    - Fix syntax errors (missing commas, unclosed quotes/braces).\n" +
    "    - Ensure all keys and string values are properly double-quoted.\n" +
    "    "

  const FixHead: string := "I have some malformed JSON that failed to parse.\n        \nERROR: "
  const BrokenHeader: string := "\n\nBROKEN JSON:\n"
  const ContextHeader: string := "\n\nEXPECTED SCHEMA/CONTEXT:\n"
  const FixTail: string := "\n\nPlease fix the JSON errors and return the valid JSON object.\n"

  /** The human message of every repair attempt. */
  function FixPrompt(errorMsg: string, brokenJson: string, contextPrompt: string): string {
    FixHead + errorMsg + BrokenHeader + brokenJson + ContextHeader + contextPrompt + FixTail
  }

  function FixRequest(errorMsg: string, brokenJson: string, contextPrompt: string): ChatRequest {
    ChatRequest(FixSystemPrompt, FixPrompt(errorMsg, brokenJson, contextPrompt))
  }

  // ---------------------------------------------------------------------------
  // Rate limits and the wait before a retry

  /** An error counts as a rate limit when it mentions "429", or "rate_limit"
      in any letter case. */
  predicate IsRateLimit(e: string) {
    Contains(e, "429") || Contains(Lower(e), "rate_limit")
  }

  const HintText: string := "try again in "

  /** A character of the `[\d.]` class (decimal digits taken as ASCII). */
  predicate IsNumberChar(c: char) {
    '0' <= c <= '9' || c == '.'
  }

  /** The end of the run of number characters starting at k. */
  function NumberEnd(s: string, k: nat): (r: nat)
    requires k <= |s|
    ensures k <= r <= |s|
    ensures r < |s| ==> !IsNumberChar(s[r])
    decreases |s| - k
  {
    if k < |s| && IsNumberChar(s[k]) then NumberEnd(s, k + 1) else k
  }

  /** The pattern `try again in ([\d.]+)([ms])` matches at p. The greedy number
      group can only give back number characters, none of which is 'm' or 's',
      so a match at p takes the whole run and needs the unit right after it. */
  predicate HintAt(s: string, p: int) {
    IsAt(s, HintText, p) &&
    var a := p + |HintText|;
    var b := NumberEnd(s, a);
    a < b < |s| && (s[b] == 'm' || s[b] == 's')
  }

  /** re.search: the first position from `from` on where the pattern matches,
      or -1. */
  function HintFrom(s: string, from: nat): (r: int)
    ensures r == -1 || (from <= r && HintAt(s, r))
    decreases |s| - from
  {
    if from >= |s| then -1
    else if HintAt(s, from) then from
    else HintFrom(s, from + 1)
  }

  /** The two groups of a match: the number text and the unit letter. */
  datatype Hint = Hint(number: string, unit: char)

  function FindHint(s: string): Option<Hint> {
    var p := HintFrom(s, 0);
    if p == -1 then None
    else
      var a := p + |HintText|;
      var b := NumberEnd(s, a);
      Some(Hint(s[a..b], s[b]))
  }

  /** re.search misses no earlier match, and -1 means there is none. */
  lemma HintFromLeast(s: string, from: nat)
    ensures HintFrom(s, from) == -1 ==> forall k :: from <= k ==> !HintAt(s, k)
    ensures forall k :: from <= k < HintFrom(s, from) ==> !HintAt(s, k)
  {
    HintFromNone(s, from);
    HintFromFirst(s, from);
  }

  /** -1 means no match from `from` on. */
  lemma {:induction false} HintFromNone(s: string, from: nat)
    ensures HintFrom(s, from) == -1 ==> forall k :: from <= k ==> !HintAt(s, k)
    decreases |s| - from
  {
    if from < |s| && !HintAt(s, from) {
      HintFromNone(s, from + 1);
      assert HintFrom(s, from) == HintFrom(s, from + 1);
    }
  }

  /** No match lies between `from` and the position returned. */
  lemma {:induction false} HintFromFirst(s: string, from: nat)
    ensures forall k :: from <= k < HintFrom(s, from) ==> !HintAt(s, k)
    decreases |s| - from
  {
    if from < |s| && !HintAt(s, from) {
      HintFromFirst(s, from + 1);
      assert HintFrom(s, from) == HintFrom(s, from + 1);
    }
  }

  /** The first match from `from` on is what HintFrom returns. */
  lemma HintFromIs(s: string, from: nat, r: int)
    requires from <= r && HintAt(s, r)
    requires forall k :: from <= k < r ==> !HintAt(s, k)
    ensures HintFrom(s, from) == r
  {
    HintFromLeast(s, from);
  }

  /** The hint text does not start anywhere inside p (nor run from p into a
      hint text that follows it). */
  predicate NoHintTextIn(p: string) {
    forall k :: 0 <= k < |p| ==> !IsAt(p + HintText, HintText, k)
  }

  /** Text without the letter 't' holds no start of the hint text. */
  lemma NoHintTextWithoutT(p: string)
    requires 't' !in p
    ensures NoHintTextIn(p)
  {
    forall k | 0 <= k < |p|
      ensures !IsAt(p + HintText, HintText, k)
    {
      if k + |HintText| <= |p + HintText| {
        assert (p + HintText)[k..k + |HintText|][0] == p[k];
      }
    }
  }

  // ---------------------------------------------------------------------------
  // float() on the number group

  predicate AllDigits(s: string) {
    forall k :: 0 <= k < |s| ==> '0' <= s[k] <= '9'
  }

  function DigitValue(c: char): nat
    requires '0' <= c <= '9'
  {
    c as int - '0' as int
  }

  /** The value of a string of decimal digits ("" counts as 0). */
  function DigitsValue(s: string): nat
    requires AllDigits(s)
  {
    if |s| == 0 then 0 else DigitsValue(s[..|s| - 1]) * 10 + DigitValue(s[|s| - 1])
  }

  function Pow10(n: nat): (r: nat)
    ensures r >= 1
  {
    if n == 0 then 1 else 10 * Pow10(n - 1)
  }

  /** float(t) for a string of digits and dots: it parses when there is at
      most one dot and at least one digit ("1", "1.", ".5", "1.5"); "." and
      "1.2.3" raise ValueError. The value is the exact decimal. */
  function ParseDecimal(t: string): (r: Option<real>)
    requires forall k :: 0 <= k < |t| ==> IsNumberChar(t[k])
    ensures r.Some? ==> r.value >= 0.0
  {
    if AllDigits(t) then
      if |t| == 0 then None else Some(DigitsValue(t) as real)
    else
      var dot := IndexOf(t, '.');
      if dot == -1 then None
      else
        var whole, frac := t[..dot], t[dot + 1..];
        if AllDigits(whole) && AllDigits(frac) && |t| > 1 then Some(DecimalValue(whole, frac)) else None
  }

  /** The value of the decimal "<whole>.<frac>". */
  function DecimalValue(whole: string, frac: string): real
    requires AllDigits(whole) && AllDigits(frac)
  {
    DigitsValue(whole) as real + DigitsValue(frac) as real / Pow10(|frac|) as real
  }

  function Pow2(n: nat): (r: nat)
    ensures r >= 1
  {
    if n == 0 then 1 else 2 * Pow2(n - 1)
  }

  function Min(a: real, b: real): real {
    if a <= b then a else b
  }

  const MaxWait: real := 15.0
  const SleepBuffer: real := 0.5

  /** The wait before retry `attempt + 1`, or the ValueError float() raises. */
  datatype Wait = Seconds(seconds: real) | FloatError(message: string)

  /** The wait: the hinted number of seconds ('s') or of milliseconds ('m'),
      else 2 * 2^attempt; either way at most 15 seconds. */
  function WaitTime(e: string, attempt: nat): (r: Wait)
    ensures r.Seconds? ==> 0.0 <= r.seconds <= MaxWait
  {
    match FindHint(e)
    case None => Seconds(Min((2 * Pow2(attempt)) as real, MaxWait))
    case Some(hint) =>
      assert forall k :: 0 <= k < |hint.number| ==> IsNumberChar(hint.number[k]) by {
        HintNumberChars(e);
      }
      match ParseDecimal(hint.number)
      case None => FloatError("could not convert string to float: '" + hint.number + "'")
      case Some(v) => Seconds(Min(if hint.unit == 's' then v else v / 1000.0, MaxWait))
  }

  lemma HintNumberChars(e: string)
    requires FindHint(e).Some?
    ensures forall k :: 0 <= k < |FindHint(e).value.number| ==> IsNumberChar(FindHint(e).value.number[k])
  {
    var p := HintFrom(e, 0);
    var a := p + |HintText|;
    NumberRun(e, a);
    var n := FindHint(e).value.number;
    assert forall k :: 0 <= k < |n| ==> n[k] == e[a + k];
  }

  lemma {:induction false} NumberRun(s: string, k: nat)
    requires k <= |s|
    ensures forall x :: k <= x < NumberEnd(s, k) ==> IsNumberChar(s[x])
    decreases |s| - k
  {
    if k < |s| && IsNumberChar(s[k]) {
      NumberRun(s, k + 1);
    }
  }

  // ---------------------------------------------------------------------------
  // The retry loop

  /** How fix_json ends: it returns (data, None) or ({}, message), or the
      ValueError of float() escapes from its exception handler. */
  datatype FixOutcome = Returned(data: JsonObject, error: Option<string>) | RaisedValueError(message: string)

  /** The outcome with the sleeps and the chat requests of the run. */
  datatype FixRun = FixRun(outcome: FixOutcome, sleeps: seq<real>, requests: seq<ChatRequest>)

  const FailedPrefix: string := "Fix attempts failed: "
  const RepairPrefix: string := "Error during JSON repair: "

  /** What one attempt decides: the call's result ends the loop, or a rate
      limit sends it round again after a wait. */
  datatype Step = Finish(outcome: FixOutcome) | Retry(seconds: real)

  /** The body of one attempt, given what the model call did: a reply is
      extracted and parsed (a parse failure ends the loop at once); a raised
      error is retried only when it is a rate limit and attempts remain. */
  function Attempt(decode: Decoder, reply: LlmOutcome, attempt: nat): (r: Step)
    ensures r.Retry? ==> attempt < MaxRetries && 0.0 <= r.seconds <= MaxWait
    ensures r.Retry? ==> reply.Raised? && IsRateLimit(reply.message) && WaitTime(reply.message, attempt) == Seconds(r.seconds)
    ensures reply.Raised? && IsRateLimit(reply.message) && attempt < MaxRetries ==>
      (WaitTime(reply.message, attempt).Seconds? ==> r == Retry(WaitTime(reply.message, attempt).seconds)) &&
      (WaitTime(reply.message, attempt).FloatError? ==> r == Finish(RaisedValueError(WaitTime(reply.message, attempt).message)))
    ensures reply.Raised? && !(IsRateLimit(reply.message) && attempt < MaxRetries) ==>
      r == Finish(Returned(map[], Some(RepairPrefix + reply.message)))
    ensures r.Finish? && r.outcome.Returned? && r.outcome.error.None? <==>
      reply.Reply? && JsonUtils.SafeJsonParse(decode, JsonUtils.ExtractJsonFromText(reply.content)).error == ""
    ensures r.Finish? && r.outcome.Returned? && r.outcome.error.Some? ==> r.outcome.data == map[]
  {
    match reply
    case Reply(content) =>
      var parsed := JsonUtils.SafeJsonParse(decode, JsonUtils.ExtractJsonFromText(content));
      if parsed.error != "" then Finish(Returned(map[], Some(FailedPrefix + parsed.error)))
      else Finish(Returned(parsed.data, None))
    case Raised(e) =>
      if IsRateLimit(e) && attempt < MaxRetries then
        match WaitTime(e, attempt)
        case FloatError(message) => Finish(RaisedValueError(message))
        case Seconds(w) => Retry(w)
      else Finish(Returned(map[], Some(RepairPrefix + e)))
  }

  /** The decision of every attempt, attempt k being decided by the k-th
      model outcome. */
  function StepsOf(replies: nat -> LlmOutcome, decode: Decoder): nat -> Step {
    (k: nat) => Attempt(decode, replies(k), k)
  }

  /** Only attempts before the last can be retried. */
  ghost predicate Bounded(steps: nat -> Step) {
    forall k: nat :: steps(k).Retry? ==> k < MaxRetries
  }

  /** The run from attempt `attempt` on, for given decisions: a finishing
      attempt ends it, a retry sleeps and goes on. */
  function Run(steps: nat -> Step, request: ChatRequest, attempt: nat): (r: FixRun)
    requires attempt <= MaxRetries && Bounded(steps)
    decreases MaxRetries - attempt
  {
    match steps(attempt)
    case Finish(outcome) => FixRun(outcome, [], [request])
    case Retry(w) =>
      var rest := Run(steps, request, attempt + 1);
      FixRun(rest.outcome, [w + SleepBuffer] + rest.sleeps, [request] + rest.requests)
  }

  lemma StepsBounded(replies: nat -> LlmOutcome, decode: Decoder)
    ensures Bounded(StepsOf(replies, decode))
  {
    forall k: nat | StepsOf(replies, decode)(k).Retry?
      ensures k < MaxRetries
    {
      assert StepsOf(replies, decode)(k) == Attempt(decode, replies(k), k);
    }
  }

  /** The run of fix_json from attempt `attempt` on, where `replies(k)` is the
      outcome of the model call of attempt k. */
  function FixFrom(replies: nat -> LlmOutcome, decode: Decoder, request: ChatRequest, attempt: nat): FixRun
    requires attempt <= MaxRetries
  {
    StepsBounded(replies, decode);
    Run(StepsOf(replies, decode), request, attempt)
  }

  /** Attempts m .. n-1 all hit a rate limit and were sent round again. */
  ghost predicate RetriedBetween(steps: nat -> Step, m: nat, n: nat) {
    forall k: nat :: m <= k < n ==> steps(k).Retry?
  }

  /** The sleeps of attempts m .. n-1 when all of them were retried. */
  ghost function Sleeps(steps: nat -> Step, m: nat, n: nat): seq<real>
    requires m <= n && RetriedBetween(steps, m, n)
    decreases n - m
  {
    if m == n then [] else [steps(m).seconds + SleepBuffer] + Sleeps(steps, m + 1, n)
  }

  /** `n` copies of the same request. */
  function Repeat(request: ChatRequest, n: nat): (r: seq<ChatRequest>)
    ensures |r| == n
    ensures forall k :: 0 <= k < n ==> r[k] == request
  {
    seq(n, _ => request)
  }

  /** A run whose attempts m .. n-1 are retried and whose attempt n finishes:
      one request per attempt, one sleep per retry. */
  lemma {:induction false} RunAfterRetries(steps: nat -> Step, request: ChatRequest, m: nat, n: nat, outcome: FixOutcome)
    requires m <= n <= MaxRetries && Bounded(steps)
    requires RetriedBetween(steps, m, n)
    requires steps(n) == Finish(outcome)
    ensures Run(steps, request, m) == FixRun(outcome, Sleeps(steps, m, n), Repeat(request, n - m + 1))
    decreases n - m
  {
    if m < n {
      RunAfterRetries(steps, request, m + 1, n, outcome);
      assert [request] + Repeat(request, n - m) == Repeat(request, n - m + 1);
    } else {
      assert [request] == Repeat(request, 1);
    }
  }

  /** One more retry adds its sleep at the end. */
  lemma {:induction false} SleepsSnoc(steps: nat -> Step, m: nat, n: nat)
    requires m <= n && RetriedBetween(steps, m, n + 1)
    ensures Sleeps(steps, m, n + 1) == Sleeps(steps, m, n) + [steps(n).seconds + SleepBuffer]
    decreases n - m
  {
    if m < n {
      SleepsSnoc(steps, m + 1, n);
    }
  }

  /** fix_json: builds the fix prompt once, then runs the retry loop with it. */
  method FixJson(replies: nat -> LlmOutcome, decode: Decoder, brokenJson: string, errorMsg: string, contextPrompt: string)
    returns (outcome: FixOutcome, sleeps: seq<real>, requests: seq<ChatRequest>)
    ensures FixRun(outcome, sleeps, requests) == FixFrom(replies, decode, FixRequest(errorMsg, brokenJson, contextPrompt), 0)
  {
    var request := ChatRequest(FixSystemPrompt, FixPrompt(errorMsg, brokenJson, contextPrompt));
    outcome, sleeps, requests := RetryLoop(replies, decode, request);
  }

  /** The `for attempt in range(max_retries + 1)` loop of fix_json, which
      always leaves through a return. */
  method RetryLoop(replies: nat -> LlmOutcome, decode: Decoder, request: ChatRequest)
    returns (outcome: FixOutcome, sleeps: seq<real>, requests: seq<ChatRequest>)
    ensures FixRun(outcome, sleeps, requests) == FixFrom(replies, decode, request, 0)
  {
    ghost var steps := StepsOf(replies, decode);
    StepsBounded(replies, decode);
    sleeps, requests := [], [];
    for attempt := 0 to MaxRetries + 1
      invariant attempt <= MaxRetries
      invariant RetriedBetween(steps, 0, attempt)
      invariant sleeps == Sleeps(steps, 0, attempt)
      invariant requests == Repeat(request, attempt)
    {
      var step := Attempt(decode, replies(attempt), attempt);
      assert step == steps(attempt);
      assert step.Retry? ==> 0.0 <= step.seconds;
      requests := requests + [request];
      if step.Finish? {
        outcome := step.outcome;
        RunAfterRetries(steps, request, 0, attempt, outcome);
        assert requests == Repeat(request, attempt + 1);
        return;
      }
      // Rate limited with attempts left: sleep, then go round again.
      SleepsSnoc(steps, 0, attempt);
      sleeps := sleeps + [step.seconds + SleepBuffer];
    }
  }

  // ---------------------------------------------------------------------------
  // Properties of a run

  /** Every wait the decisions ask for is within the 15-second cap. */
  ghost predicate WaitsCapped(steps: nat -> Step) {
    forall k: nat :: steps(k).Retry? ==> 0.0 <= steps(k).seconds <= MaxWait
  }

  lemma AttemptWaitsCapped(replies: nat -> LlmOutcome, decode: Decoder)
    ensures WaitsCapped(StepsOf(replies, decode))
  {
    forall k: nat | StepsOf(replies, decode)(k).Retry?
      ensures 0.0 <= StepsOf(replies, decode)(k).seconds <= MaxWait
    {
      assert StepsOf(replies, decode)(k) == Attempt(decode, replies(k), k);
    }
  }

  /** A run makes between one and MaxRetries + 1 - m calls, all with the same
      request, and sleeps once between consecutive calls. */
  lemma {:induction false} RunCalls(steps: nat -> Step, request: ChatRequest, m: nat)
    requires m <= MaxRetries && Bounded(steps)
    ensures var r := Run(steps, request, m);
      1 <= |r.requests| <= MaxRetries - m + 1 &&
      |r.sleeps| == |r.requests| - 1 &&
      r.requests == Repeat(request, |r.requests|)
    decreases MaxRetries - m
  {
    if steps(m).Retry? {
      RunCalls(steps, request, m + 1);
      var n := |Run(steps, request, m + 1).requests|;
      assert [request] + Repeat(request, n) == Repeat(request, n + 1);
    }
  }

  /** Every sleep lasts between half a second and 15.5 seconds. */
  predicate SleepsInRange(sleeps: seq<real>) {
    forall i :: 0 <= i < |sleeps| ==> SleepBuffer <= sleeps[i] <= MaxWait + SleepBuffer
  }

  /** Every sleep of a run lasts the capped wait plus half a second. */
  lemma {:induction false} RunSleepsBounded(steps: nat -> Step, request: ChatRequest, m: nat)
    requires m <= MaxRetries && Bounded(steps) && WaitsCapped(steps)
    ensures SleepsInRange(Run(steps, request, m).sleeps)
    decreases MaxRetries - m
  {
    if steps(m).Retry? {
      RunSleepsBounded(steps, request, m + 1);
      var w := steps(m).seconds;
      var rest := Run(steps, request, m + 1).sleeps;
      var sleeps := Run(steps, request, m).sleeps;
      assert sleeps == [w + SleepBuffer] + rest;
      assert 0.0 <= w <= MaxWait;
      forall i | 0 <= i < |sleeps|
        ensures SleepBuffer <= sleeps[i] <= MaxWait + SleepBuffer
      {
        if i == 0 {
          assert sleeps[0] == w + SleepBuffer;
        } else {
          assert sleeps[i] == rest[i - 1];
        }
      }
    }
  }

  /** The i-th sleep of a run is the wait asked for by retried attempt m + i,
      plus half a second. */
  lemma {:induction false} RunSleepsAre(steps: nat -> Step, request: ChatRequest, m: nat)
    requires m <= MaxRetries && Bounded(steps)
    ensures var sleeps := Run(steps, request, m).sleeps;
      forall i :: 0 <= i < |sleeps| ==> steps(m + i).Retry? && sleeps[i] == steps(m + i).seconds + SleepBuffer
    decreases MaxRetries - m
  {
    if steps(m).Retry? {
      RunSleepsAre(steps, request, m + 1);
      var rest := Run(steps, request, m + 1).sleeps;
      var sleeps := Run(steps, request, m).sleeps;
      assert sleeps == [steps(m).seconds + SleepBuffer] + rest;
      forall i | 0 <= i < |sleeps|
        ensures steps(m + i).Retry? && sleeps[i] == steps(m + i).seconds + SleepBuffer
      {
        if i > 0 {
          assert sleeps[i] == rest[i - 1];
          assert m + i == (m + 1) + (i - 1);
        }
      }
    }
  }

  /** Each sleep of fix_json is the wait read from the rate-limit error of
      that attempt (its hint, or the exponential backoff), plus half a
      second. */
  lemma FixJsonSleepsFollowWaits(replies: nat -> LlmOutcome, decode: Decoder, request: ChatRequest)
    ensures var r := FixFrom(replies, decode, request, 0);
      forall i :: 0 <= i < |r.sleeps| ==>
        replies(i).Raised? && IsRateLimit(replies(i).message) &&
        WaitTime(replies(i).message, i) == Seconds(r.sleeps[i] - SleepBuffer)
  {
    StepsBounded(replies, decode);
    AttemptRetriesWait(replies, decode);
    RunSleepsFollowWaits(StepsOf(replies, decode), replies, request);
  }

  lemma RunSleepsFollowWaits(steps: nat -> Step, replies: nat -> LlmOutcome, request: ChatRequest)
    requires Bounded(steps) && RetriesWait(steps, replies)
    ensures var sleeps := Run(steps, request, 0).sleeps;
      forall i :: 0 <= i < |sleeps| ==>
        replies(i).Raised? && IsRateLimit(replies(i).message) &&
        WaitTime(replies(i).message, i) == Seconds(sleeps[i] - SleepBuffer)
  {
    var sleeps := Run(steps, request, 0).sleeps;
    forall i | 0 <= i < |sleeps|
      ensures replies(i).Raised? && IsRateLimit(replies(i).message) &&
        WaitTime(replies(i).message, i) == Seconds(sleeps[i] - SleepBuffer)
    {
      SleepAt(steps, request, i);
      var w := steps(i).seconds;
      assert sleeps[i] - SleepBuffer == w;
      assert WaitTime(replies(i).message, i) == Seconds(w);
    }
  }

  /** The i-th sleep of a run from the first attempt belongs to retried attempt i. */
  lemma SleepAt(steps: nat -> Step, request: ChatRequest, i: nat)
    requires Bounded(steps) && i < |Run(steps, request, 0).sleeps|
    ensures steps(i).Retry? && Run(steps, request, 0).sleeps[i] == steps(i).seconds + SleepBuffer
  {
    RunSleepsAre(steps, request, 0);
  }

  /** Every retried attempt was a rate limit, and waits what WaitTime reads
      from its message. */
  ghost predicate RetriesWait(steps: nat -> Step, replies: nat -> LlmOutcome) {
    forall k: nat :: steps(k).Retry? ==>
      replies(k).Raised? && IsRateLimit(replies(k).message) && WaitTime(replies(k).message, k) == Seconds(steps(k).seconds)
  }

  /** fix_json's decisions retry only with the wait WaitTime reads. */
  lemma AttemptRetriesWait(replies: nat -> LlmOutcome, decode: Decoder)
    ensures RetriesWait(StepsOf(replies, decode), replies)
  {
    forall k: nat | StepsOf(replies, decode)(k).Retry?
      ensures replies(k).Raised? && IsRateLimit(replies(k).message) &&
        WaitTime(replies(k).message, k) == Seconds(StepsOf(replies, decode)(k).seconds)
    {
      assert StepsOf(replies, decode)(k) == Attempt(decode, replies(k), k);
    }
  }

  /** A run ends with the decision of its last call, and every call before
      that was retried. */
  lemma {:induction false} RunEndsAtLastCall(steps: nat -> Step, request: ChatRequest, m: nat)
    requires m <= MaxRetries && Bounded(steps)
    ensures var r := Run(steps, request, m);
      var last := m + |r.requests| - 1;
      m <= last <= MaxRetries && steps(last) == Finish(r.outcome) && RetriedBetween(steps, m, last)
    decreases MaxRetries - m
  {
    if steps(m).Retry? {
      RunEndsAtLastCall(steps, request, m + 1);
    }
  }

  /** fix_json calls the model at most four times, always with the same
      system prompt and fix prompt, and sleeps between consecutive calls for
      between 0.5 and 15.5 seconds. */
  lemma FixJsonCalls(replies: nat -> LlmOutcome, decode: Decoder, brokenJson: string, errorMsg: string, contextPrompt: string)
    ensures var request := FixRequest(errorMsg, brokenJson, contextPrompt);
      var r := FixFrom(replies, decode, request, 0);
      1 <= |r.requests| <= MaxRetries + 1 &&
      |r.sleeps| == |r.requests| - 1 &&
      (forall i :: 0 <= i < |r.requests| ==> r.requests[i] == request) &&
      SleepsInRange(r.sleeps)
  {
    var request := FixRequest(errorMsg, brokenJson, contextPrompt);
    StepsBounded(replies, decode);
    AttemptWaitsCapped(replies, decode);
    RunCalls(StepsOf(replies, decode), request, 0);
    RunSleepsBounded(StepsOf(replies, decode), request, 0);
  }

  /** Only rate-limit errors are retried: every call before the last raised
      an error mentioning "429" or "rate_limit". */
  lemma FixJsonRetriesOnlyRateLimits(replies: nat -> LlmOutcome, decode: Decoder, request: ChatRequest)
    ensures var r := FixFrom(replies, decode, request, 0);
      forall k :: 0 <= k < |r.requests| - 1 ==> replies(k).Raised? && IsRateLimit(replies(k).message)
  {
    var steps := StepsOf(replies, decode);
    StepsBounded(replies, decode);
    RunEndsAtLastCall(steps, request, 0);
    forall k | 0 <= k < |FixFrom(replies, decode, request, 0).requests| - 1
      ensures replies(k).Raised? && IsRateLimit(replies(k).message)
    {
      assert steps(k) == Attempt(decode, replies(k), k);
    }
  }

  /** What a finishing attempt hands back: the parsed object and no error
      exactly when the reply parsed to an object; otherwise an empty dict with
      a "Fix attempts failed: " or "Error during JSON repair: " message, or
      the ValueError of a rate-limit hint float() cannot read. */
  lemma AttemptFinishes(decode: Decoder, reply: LlmOutcome, attempt: nat)
    requires Attempt(decode, reply, attempt).Finish?
    ensures var o := Attempt(decode, reply, attempt).outcome;
      (o.Returned? && o.error.None? <==>
        reply.Reply? && JsonUtils.SafeJsonParse(decode, JsonUtils.ExtractJsonFromText(reply.content)).error == "") &&
      (o.Returned? && o.error.None? ==>
        decode(JsonUtils.ExtractJsonFromText(JsonUtils.ExtractJsonFromText(reply.content))) == Parsed(JObject(o.data))) &&
      (o.Returned? && o.error.Some? ==>
        o.data == map[] &&
        (if reply.Reply? then StartsWith(o.error.value, FailedPrefix) else o.error.value == RepairPrefix + reply.message)) &&
      (o.RaisedValueError? ==> reply.Raised? && IsRateLimit(reply.message) && attempt < MaxRetries)
  {
  }

  /** What a finished run's outcome says about the reply that ended it: no
      error exactly when the reply parsed to an object, and an empty dict
      whenever an error is returned. */
  ghost predicate OutcomeMeans(decode: Decoder, reply: LlmOutcome, o: FixOutcome) {
    (o.Returned? && o.error.None? <==>
      reply.Reply? && JsonUtils.SafeJsonParse(decode, JsonUtils.ExtractJsonFromText(reply.content)).error == "") &&
    (o.Returned? && o.error.Some? ==> o.data == map[])
  }

  /** fix_json returns no error exactly when its last call got a reply that
      parses to an object; with an error, the dict it returns is empty. */
  lemma FixJsonOutcome(replies: nat -> LlmOutcome, decode: Decoder, request: ChatRequest)
    returns (r: FixRun, last: nat)
    ensures r == FixFrom(replies, decode, request, 0) && last == |r.requests| - 1
    ensures OutcomeMeans(decode, replies(last), r.outcome)
  {
    StepsBounded(replies, decode);
    AttemptFinishesMean(replies, decode);
    r, last := LastDecision(StepsOf(replies, decode), request);
    MeansAt(StepsOf(replies, decode), replies, decode, last, r.outcome);
  }

  /** The last call of a run is the one whose decision finished it. */
  lemma LastDecision(steps: nat -> Step, request: ChatRequest) returns (r: FixRun, last: nat)
    requires Bounded(steps)
    ensures r == Run(steps, request, 0) && last == |r.requests| - 1
    ensures steps(last) == Finish(r.outcome)
  {
    RunEndsAtLastCall(steps, request, 0);
    r := Run(steps, request, 0);
    last := |r.requests| - 1;
  }

  /** A decision that finishes means what OutcomeMeans says. */
  lemma MeansAt(steps: nat -> Step, replies: nat -> LlmOutcome, decode: Decoder, k: nat, o: FixOutcome)
    requires FinishesMean(steps, replies, decode) && steps(k) == Finish(o)
    ensures OutcomeMeans(decode, replies(k), o)
  {
  }

  /** Every finishing decision of fix_json means what OutcomeMeans says. */
  ghost predicate FinishesMean(steps: nat -> Step, replies: nat -> LlmOutcome, decode: Decoder) {
    forall k: nat :: steps(k).Finish? ==> OutcomeMeans(decode, replies(k), steps(k).outcome)
  }

  lemma AttemptFinishesMean(replies: nat -> LlmOutcome, decode: Decoder)
    ensures FinishesMean(StepsOf(replies, decode), replies, decode)
  {
    forall k: nat | StepsOf(replies, decode)(k).Finish?
      ensures OutcomeMeans(decode, replies(k), StepsOf(replies, decode)(k).outcome)
    {
      var st := StepsOf(replies, decode)(k);
      assert st == Attempt(decode, replies(k), k);
      FinishMeaning(decode, replies(k), k, st.outcome);
    }
  }

  /** The outcome of a finishing attempt means what OutcomeMeans says. */
  lemma FinishMeaning(decode: Decoder, reply: LlmOutcome, attempt: nat, o: FixOutcome)
    requires Attempt(decode, reply, attempt) == Finish(o)
    ensures OutcomeMeans(decode, reply, o)
  {
  }

  /** A reply to the first call always ends the loop: one call, no sleep. */
  lemma FixJsonReplyEndsLoop(replies: nat -> LlmOutcome, decode: Decoder, request: ChatRequest)
    requires replies(0).Reply?
    ensures var r := FixFrom(replies, decode, request, 0);
      r.requests == [request] && r.sleeps == [] && r.outcome.Returned?
  {
    StepsBounded(replies, decode);
    assert StepsOf(replies, decode)(0) == Attempt(decode, replies(0), 0);
  }

  /** A reply the extractor leaves without code fences is parsed as if it had
      been extracted once: the second extraction inside safe_json_parse
      changes nothing. */
  lemma DoubleExtractionHarmless(decode: Decoder, content: string)
    requires !Contains(content, JsonUtils.Fence)
    ensures JsonUtils.SafeJsonParse(decode, JsonUtils.ExtractJsonFromText(content)) == JsonUtils.SafeJsonParse(decode, content)
  {
    JsonUtils.ExtractIdempotent(content);
  }

  /** When every call is rate limited without a wait hint, fix_json calls
      four times, backs off for 2, 4 and 8 seconds (plus the half-second
      buffer) and returns the last error. */
  lemma FixJsonRateLimitedThroughout(replies: nat -> LlmOutcome, decode: Decoder, request: ChatRequest, e: string)
    requires forall k: nat :: k <= MaxRetries ==> replies(k) == Raised(e)
    requires IsRateLimit(e) && FindHint(e) == None
    ensures FixFrom(replies, decode, request, 0) ==
      FixRun(Returned(map[], Some(RepairPrefix + e)), [2.5, 4.5, 8.5], Repeat(request, 4))
  {
    var steps := StepsOf(replies, decode);
    StepsBounded(replies, decode);
    assert steps(0) == Attempt(decode, replies(0), 0) == Retry(2.0);
    assert steps(1) == Attempt(decode, replies(1), 1) == Retry(4.0);
    assert steps(2) == Attempt(decode, replies(2), 2) == Retry(8.0);
    assert steps(3) == Attempt(decode, replies(3), 3);
    assert RetriedBetween(steps, 0, 3);
    RunAfterRetries(steps, request, 0, 3, Returned(map[], Some(RepairPrefix + e)));
  }

  // ---------------------------------------------------------------------------
  // Properties of the prompt and of the wait

  /** The fix prompt carries the error message, the broken JSON and the
      context verbatim, between fixed headers. */
  lemma FixPromptCarries(errorMsg: string, brokenJson: string, contextPrompt: string)
    ensures var p := FixPrompt(errorMsg, brokenJson, contextPrompt);
      var i := |FixHead|;
      var j := i + |errorMsg| + |BrokenHeader|;
      var k := j + |brokenJson| + |ContextHeader|;
      k + |contextPrompt| + |FixTail| == |p| &&
      p[..i] == FixHead && p[i..i + |errorMsg|] == errorMsg &&
      p[j..j + |brokenJson|] == brokenJson &&
      p[k..k + |contextPrompt|] == contextPrompt &&
      p[k + |contextPrompt|..] == FixTail
  {
    var p := FixPrompt(errorMsg, brokenJson, contextPrompt);
    var a := FixHead + errorMsg;
    var b := a + BrokenHeader + brokenJson;
    var c := b + ContextHeader + contextPrompt;
    assert p == c + FixTail;
    assert c[..|b| + |ContextHeader|] == b + ContextHeader;
    assert b[..|a| + |BrokenHeader|] == a + BrokenHeader;
  }

  /** The number run starting at a ends where the given run of number
      characters does, when a non-number character follows it. */
  lemma {:induction false} NumberEndAfter(s: string, a: nat, t: string)
    requires a + |t| < |s| && s[a..a + |t|] == t
    requires forall k :: 0 <= k < |t| ==> IsNumberChar(t[k])
    requires !IsNumberChar(s[a + |t|])
    ensures NumberEnd(s, a) == a + |t|
    decreases |t|
  {
    if |t| > 0 {
      assert s[a] == t[0];
      assert s[a + 1..a + 1 + |t[1..]|] == t[1..];
      NumberEndAfter(s, a + 1, t[1..]);
    }
  }

  /** An error text whose first hint follows a prefix p is read as that
      number and unit. */
  lemma HintRead(p: string, t: string, unit: char, rest: string)
    requires NoHintTextIn(p)
    requires |t| > 0 && forall k :: 0 <= k < |t| ==> IsNumberChar(t[k])
    requires unit == 'm' || unit == 's'
    ensures FindHint(p + HintText + t + [unit] + rest) == Some(Hint(t, unit))
  {
    IsAtAfter(p, HintText, t, unit, rest);
    Pieces(p + HintText, t, unit, rest);
    FirstHint(p + HintText + t + [unit] + rest, p, t, unit);
  }

  /** The first match in e follows p, and its groups are t and the unit. */
  lemma FirstHint(e: string, p: string, t: string, unit: char)
    requires NoHintTextIn(p)
    requires |t| > 0 && forall k :: 0 <= k < |t| ==> IsNumberChar(t[k])
    requires unit == 'm' || unit == 's'
    requires |p| + |HintText| + |t| < |e| && IsAt(e, HintText, |p|)
    requires e[..|p| + |HintText|] == p + HintText
    requires e[|p| + |HintText|..|p| + |HintText| + |t|] == t && e[|p| + |HintText| + |t|] == unit
    ensures FindHint(e) == Some(Hint(t, unit))
  {
    var a := |p| + |HintText|;
    NumberEndAfter(e, a, t);
    HintAtRun(e, |p|, |t|);
    NoHintBefore(p, e);
    HintFromIs(e, 0, |p|);
  }

  /** m occurs where x ends in x + m + y + [u] + z. */
  lemma IsAtAfter(x: string, m: string, y: string, u: char, z: string)
    ensures IsAt(x + m + y + [u] + z, m, |x|)
  {
    assert (x + m + y + [u] + z)[|x|..|x| + |m|] == m;
  }

  /** The pieces of x + t + [u] + rest sit where they were put. */
  lemma Pieces(x: string, t: string, u: char, rest: string)
    ensures var e := x + t + [u] + rest;
      e[..|x|] == x && e[|x|..|x| + |t|] == t && e[|x| + |t|] == u
  {
    var e := x + t + [u] + rest;
    assert e[..|x|] == x;
    assert e[|x|..|x| + |t|] == t;
  }

  /** The pattern matches where the hint text is followed by a non-empty
      number run and a unit letter. */
  lemma HintAtRun(e: string, p: nat, n: nat)
    requires IsAt(e, HintText, p) && n > 0
    requires p + |HintText| + n < |e| && NumberEnd(e, p + |HintText|) == p + |HintText| + n
    requires e[p + |HintText| + n] == 'm' || e[p + |HintText| + n] == 's'
    ensures HintAt(e, p)
  {
  }

  /** A text that begins with p and then the hint text has no hint inside p. */
  lemma NoHintBefore(p: string, e: string)
    requires NoHintTextIn(p)
    requires |p| + |HintText| <= |e| && e[..|p| + |HintText|] == p + HintText
    ensures forall k :: 0 <= k < |p| ==> !HintAt(e, k)
  {
    forall k | 0 <= k < |p|
      ensures !IsAt(e, HintText, k)
    {
      if k + |HintText| <= |e| && e[k..k + |HintText|] == HintText {
        assert e[k..k + |HintText|] == (p + HintText)[k..k + |HintText|];
        assert IsAt(p + HintText, HintText, k);
      }
    }
  }

  /** "... try again in <t>s ..." waits float(t) seconds, at most 15. */
  lemma WaitHintSeconds(p: string, t: string, rest: string, attempt: nat)
    requires NoHintTextIn(p)
    requires |t| > 0 && forall k :: 0 <= k < |t| ==> IsNumberChar(t[k])
    requires ParseDecimal(t).Some?
    ensures WaitTime(p + HintText + t + "s" + rest, attempt) == Seconds(Min(ParseDecimal(t).value, MaxWait))
  {
    HintRead(p, t, 's', rest);
  }

  /** "... try again in <t>m ..." waits float(t) milliseconds, at most 15
      seconds. A unit of minutes, as in "2m30s", is read the same way: the
      unit group stops at the 'm', so the wait is 2 milliseconds. */
  lemma WaitHintMilliseconds(p: string, t: string, rest: string, attempt: nat)
    requires NoHintTextIn(p)
    requires |t| > 0 && forall k :: 0 <= k < |t| ==> IsNumberChar(t[k])
    requires ParseDecimal(t).Some?
    ensures WaitTime(p + HintText + t + "m" + rest, attempt) == Seconds(Min(ParseDecimal(t).value / 1000.0, MaxWait))
  {
    HintRead(p, t, 'm', rest);
  }

  /** A hint float() cannot read ("1.2.3", ".") raises ValueError, which
      leaves the exception handler and so fix_json. */
  lemma WaitHintUnreadable(p: string, t: string, unit: char, rest: string, attempt: nat)
    requires NoHintTextIn(p)
    requires |t| > 0 && forall k :: 0 <= k < |t| ==> IsNumberChar(t[k])
    requires unit == 'm' || unit == 's'
    requires !HasDigit(t) || HasTwoDots(t)
    ensures WaitTime(p + HintText + t + [unit] + rest, attempt) == FloatError("could not convert string to float: '" + t + "'")
  {
    HintRead(p, t, unit, rest);
    ParseDecimalAccepts(t);
  }

  /** "... try again in <w>.<f>s ..." waits w + f / 10^|f| seconds, at most 15. */
  lemma WaitHintDecimal(p: string, w: string, f: string, rest: string, attempt: nat)
    requires NoHintTextIn(p)
    requires AllDigits(w) && AllDigits(f) && |w| + |f| > 0
    ensures WaitTime(p + HintText + (w + "." + f) + "s" + rest, attempt) == Seconds(Min(DecimalValue(w, f), MaxWait))
  {
    ParseDecimalPoint(w, f);
    WaitHintSeconds(p, w + "." + f, rest, attempt);
  }

  /** A hint of "1.2s", as in "Error code: 429 - please try again in 1.2s.",
      makes the retry wait 1.2 seconds. */
  lemma WaitHintDecimalExample(p: string, rest: string, attempt: nat)
    requires NoHintTextIn(p)
    ensures WaitTime(p + HintText + "1.2s" + rest, attempt) == Seconds(1.2)
  {
    WaitHintDecimal(p, "1", "2", rest, attempt);
    OnePointTwo();
    assert ("1" + "." + "2") + "s" == "1.2s";
    assert p + HintText + ("1" + "." + "2") + "s" + rest == p + HintText + "1.2s" + rest;
  }

  /** The decimal "1.2" has the value 1.2. */
  lemma OnePointTwo()
    ensures DecimalValue("1", "2") == 1.2
  {
    assert DigitsValue("1") == 1 && DigitsValue("2") == 2 by {
      assert "1"[..0] == "" && "2"[..0] == "";
    }
    assert Pow10(1) == 10;
  }

  // ---------------------------------------------------------------------------
  // Properties of float()

  predicate HasDigit(t: string) {
    exists k :: 0 <= k < |t| && '0' <= t[k] <= '9'
  }

  predicate HasTwoDots(t: string) {
    exists i, j :: 0 <= i < j < |t| && t[i] == '.' && t[j] == '.'
  }

  /** float() reads a string of digits and dots exactly when it has a digit
      and at most one dot. */
  lemma ParseDecimalAccepts(t: string)
    requires forall k :: 0 <= k < |t| ==> IsNumberChar(t[k])
    ensures ParseDecimal(t).Some? <==> HasDigit(t) && !HasTwoDots(t)
  {
    if AllDigits(t) {
      if |t| > 0 {
        assert '0' <= t[0] <= '9';
      }
      assert forall k :: 0 <= k < |t| ==> t[k] != '.';
    } else {
      var x :| 0 <= x < |t| && !('0' <= t[x] <= '9');
      assert t[x] == '.';
      var dot := IndexOf(t, '.');
      IndexOfFirst(t, '.');
      var whole, frac := t[..dot], t[dot + 1..];
      assert AllDigits(whole);
      if AllDigits(frac) {
        assert forall k :: 0 <= k < |t| && k != dot ==> '0' <= t[k] <= '9' by {
          forall k | 0 <= k < |t| && k != dot
            ensures '0' <= t[k] <= '9'
          {
            if k > dot {
              assert t[k] == frac[k - dot - 1];
            }
          }
        }
        if |t| > 1 {
          var d := if dot == 0 then 1 else 0;
          assert '0' <= t[d] <= '9';
        }
      } else {
        var y :| 0 <= y < |frac| && !('0' <= frac[y] <= '9');
        assert t[dot] == '.' && t[dot + 1 + y] == '.';
      }
    }
  }

  /** A decimal digit string reads back as the number it shows. */
  lemma {:induction false} DigitsValueOfNat(n: nat)
    ensures DigitsValue(NatToString(n)) == n
  {
    if n >= 10 {
      DigitsValueOfNat(n / 10);
      var s := NatToString(n);
      assert s[..|s| - 1] == NatToString(n / 10);
    }
  }

  /** float(str(n)) == n. */
  lemma ParseDecimalOfNat(n: nat)
    ensures ParseDecimal(NatToString(n)) == Some(n as real)
  {
    DigitsValueOfNat(n);
  }

  /** float("<w>.<f>") for digit strings w and f, not both empty, is w plus
      f / 10^|f|. */
  lemma ParseDecimalPoint(w: string, f: string)
    requires AllDigits(w) && AllDigits(f) && |w| + |f| > 0
    ensures forall k :: 0 <= k < |w + "." + f| ==> IsNumberChar((w + "." + f)[k])
    ensures ParseDecimal(w + "." + f) == Some(DecimalValue(w, f))
  {
    var t := w + "." + f;
    assert t[|w|] == '.';
    forall k | 0 <= k < |t|
      ensures IsNumberChar(t[k])
    {
      if k < |w| {
        assert t[k] == w[k];
      } else if k > |w| {
        assert t[k] == f[k - |w| - 1];
      }
    }
    assert !AllDigits(t);
    assert forall k :: 0 <= k < |w| ==> t[k] == w[k] && t[k] != '.';
    IndexOfUnique(t, '.', |w|);
    assert t[..|w|] == w;
    assert t[|w| + 1..] == f;
    ParseDecimalAtDot(t, |w|);
  }

  /** float() of digits around the first dot. */
  lemma ParseDecimalAtDot(t: string, d: nat)
    requires forall k :: 0 <= k < |t| ==> IsNumberChar(t[k])
    requires d < |t| && t[d] == '.' && IndexOf(t, '.') == d
    requires AllDigits(t[..d]) && AllDigits(t[d + 1..]) && |t| > 1
    ensures ParseDecimal(t) == Some(DecimalValue(t[..d], t[d + 1..]))
  {
    assert !AllDigits(t);
  }
}
