/**
 `ValidateWithFeedback` of internal/schema/validator.go. The JSON Schema library
 is a parameter: `check` gives its complaint about a text, or none.
 */
module Validation {
  import opened Common
  import opened JsonGrammar
  import opened BracketScanner
  import opened ExtractJson

  type Check = (bytes, bytes) -> Option<bytes>

  /** Why an output was refused; the wording around the inner message is not modelled. */
  datatype Feedback = NoJsonFound | Mismatch(message: bytes) | ActivityFailed(message: bytes)

  datatype ValidationResult = Accepted(output: bytes) | Refused(output: bytes, feedback: Feedback)

  function Verdict(data: bytes, schema: bytes, check: Check): ValidationResult {
    match Extraction(data)
    case Err(_) => Refused(data, NoJsonFound)
    case Ok(text) =>
      match check(text, schema)
      case Some(message) => Refused(text, Mismatch(message))
      case None => Accepted(text)
  }

  /** The container that is validated: the object at the first `{`, failing that the array at the first `[`. */
  ghost predicate Subject(data: bytes, v: Value) {
    AtFirst(data, Brace, v) || (AtFirst(data, Bracket, v) && forall u :: !AtFirst(data, Brace, u))
  }

  /** The result for any subject, and for data that have none. */
  ghost predicate Validated(data: bytes, schema: bytes, check: Check, r: ValidationResult) {
    && (r == Refused(data, NoJsonFound) <==> forall k, v :: !AtFirst(data, k, v))
    && (forall v :: Subject(data, v) ==>
          var text := Print(Strip(v));
          match check(text, schema)
          case Some(message) => r == Refused(text, Mismatch(message))
          case None => r == Accepted(text))
  }

  lemma VerdictIsValidated(data: bytes, schema: bytes, check: Check)
    ensures Validated(data, schema, check, Verdict(data, schema, check))
  {
    hide AtFirst, Extraction, Print, Strip;
    ExtractionCharacterised(data);
  }

  method ValidateWithFeedback(data: bytes, schema: bytes, check: Check) returns (r: ValidationResult)
    ensures r == Verdict(data, schema, check) && Validated(data, schema, check, r)
  {
    VerdictIsValidated(data, schema, check);
    hide Validated;
    var extracted := ExtractJSON(data);
    if extracted.Err? {
      return Refused(data, NoJsonFound);
    }
    var complaint := check(extracted.value, schema);
    if complaint.Some? {
      return Refused(extracted.value, Mismatch(complaint.value));
    }
    return Accepted(extracted.value);
  }

  /**
   What is accepted is the compact text of a container the data holds and the
   schema has no complaint about; an accepted object is accepted again, unchanged.
   */
  lemma AcceptedIsSound(data: bytes, schema: bytes, check: Check)
    requires Verdict(data, schema, check).Accepted?
    ensures var out := Verdict(data, schema, check).output;
            && check(out, schema) == None
            && (exists k, v :: AtFirst(data, k, v) && out == Print(Strip(v)))
            && (Sought(data, Brace).Some? || Sought(out, Brace).None? ==> Verdict(out, schema, check) == Accepted(out))
  {
    var k := if Sought(data, Brace).Some? then Brace else Bracket;
    SoughtIsAtFirst(data, k, Sought(data, k).value);
    IdempotentIff(data);
  }
}

/**
 `CodingTaskWorkflow` of internal/workflow/task.go with the activities of
 internal/workflow/activities.go, over every outcome of every activity, composed
 with the pool. The scheduler's retries are sequences of attempts.
 */
module TaskWorkflow {
  import opened Common
  import opened PoolTypes
  import opened AllocationCaches
  import opened PoolManagers
  import opened ExtractJson
  import opened Validation

  const MAX_VALIDATION_RETRIES: nat := 3
  const MAX_ATTEMPTS: nat := 3

  datatype TaskInput = TaskInput(userID: bytes, prompt: bytes, outputSchema: bytes)

  datatype TaskOutput = TaskOutput(sessionID: bytes, result: bytes, tokensUsed: int, duration: int)

  datatype ExecutionResult = ExecutionResult(output: bytes, tokensUsed: int)

  /** A prompt as the model is asked it; a retry quotes what went wrong. */
  datatype Prompt = Original(request: bytes) | Retry(request: bytes, failedOutput: bytes, feedback: Feedback, schema: bytes)

  datatype Failure = AllocationFailed | SessionFailed | PromptFailed | RetryPromptFailed(attempt: nat) | ValidationFailed(last: Feedback)

  /** The activities a run executes, in order. */
  datatype Call = Allocate | CreateSession(sandbox: Name) | Execute(prompt: Prompt) | Validate(output: bytes) | Release(sandbox: Name)

  /** One try of AllocateSandboxActivity: the session id it draws, its clock, the provider's answer. */
  datatype Attempt = Attempt(session: Session, now: int, created: Option<Sandbox>)

  /** What the outside world answers, whatever it is asked. */
  datatype World = World(
    start: int,                                         // the clock when the workflow starts
    finish: int,                                        // and when its result is complete
    allocations: seq<Attempt>,                          // the tries the scheduler makes at most
    session: Option<bytes>,                             // CreateSessionActivity, after its retries
    execute: (nat, Prompt) -> Option<ExecutionResult>,  // the k-th prompt
    check: Check,
    lost: nat -> Option<bytes>,                         // a k-th validation that fails for another reason
    deletions: seq<bool>)                               // provider deletes, one for each try of the release

  // ---- prompting and validating ----

  /** What ValidateOutputActivity returns for its `k`th call. */
  function Judgement(world: World, schema: bytes, k: nat, output: bytes): ValidationResult {
    if world.lost(k).Some? then Refused(output, ActivityFailed(world.lost(k).value)) else Verdict(output, schema, world.check)
  }

  /** The output of the `k`th prompt of a dialogue. */
  function Answer(world: World, prompts: seq<Prompt>, k: nat): Option<ExecutionResult>
    requires k < |prompts|
  {
    world.execute(k, prompts[k])
  }

  /** Every prompt after the first was answered by a refused output and asks again with its feedback. */
  ghost predicate Dialogue(world: World, input: TaskInput, prompts: seq<Prompt>) {
    && (prompts != [] ==> prompts[0] == Original(input.prompt))
    && forall k :: 0 < k < |prompts| ==> FollowsUp(world, input, prompts, k)
  }

  ghost predicate FollowsUp(world: World, input: TaskInput, prompts: seq<Prompt>, k: nat)
    requires 0 < k < |prompts|
  {
    var answer := Answer(world, prompts, k - 1);
    answer.Some?
    && var judged := Judgement(world, input.outputSchema, k - 1, answer.value.output);
       judged.Refused? && prompts[k] == Retry(input.prompt, answer.value.output, judged.feedback, input.outputSchema)
  }

  /** The tokens of all answered prompts. */
  function Spent(world: World, prompts: seq<Prompt>): int {
    if prompts == [] then 0
    else
      var k := |prompts| - 1;
      Spent(world, prompts[..k]) + match Answer(world, prompts, k) case Some(r) => r.tokensUsed case None => 0
  }

  lemma SpentSnoc(world: World, prompts: seq<Prompt>, p: Prompt)
    ensures Spent(world, prompts + [p]) == Spent(world, prompts)
            + match world.execute(|prompts|, p) case Some(r) => r.tokensUsed case None => 0
  {
    assert (prompts + [p])[..|prompts|] == prompts;
  }

  /** What one prompt cost; one that was not answered cost nothing. */
  function Cost(world: World, prompts: seq<Prompt>, k: nat): int
    requires k < |prompts|
  {
    if Answer(world, prompts, k).Some? then Answer(world, prompts, k).value.tokensUsed else 0
  }

  lemma SpentStep(world: World, prompts: seq<Prompt>)
    requires prompts != []
    ensures var k := |prompts| - 1; Spent(world, prompts) == Spent(world, prompts[..k]) + Cost(world, prompts, k)
  {
  }

  lemma CostBefore(world: World, prompts: seq<Prompt>, n: nat, k: nat)
    requires k < n <= |prompts|
    ensures Cost(world, prompts[..n], k) == Cost(world, prompts, k)
  {
  }

  /** The sum for the at most three prompts of a run. */
  lemma {:induction false} SpentIs(world: World, prompts: seq<Prompt>)
    requires |prompts| <= 3
    ensures Spent(world, prompts) == (if |prompts| > 0 then Cost(world, prompts, 0) else 0)
                                   + (if |prompts| > 1 then Cost(world, prompts, 1) else 0)
                                   + (if |prompts| > 2 then Cost(world, prompts, 2) else 0)
  {
    if prompts == [] {
    } else {
      hide *;
      var k := |prompts| - 1;
      SpentStep(world, prompts);
      SpentIs(world, prompts[..k]);
      if k > 0 { CostBefore(world, prompts, k, 0); }
      if k > 1 { CostBefore(world, prompts, k, 1); }
    }
  }

  lemma DialogueSnoc(world: World, input: TaskInput, prompts: seq<Prompt>, p: Prompt)
    requires Dialogue(world, input, prompts) && prompts != [] && FollowsUp(world, input, prompts + [p], |prompts|)
    ensures Dialogue(world, input, prompts + [p])
  {
    var all := prompts + [p];
    forall k | 0 < k < |all| ensures FollowsUp(world, input, all, k) {
      if k < |prompts| { assert FollowsUp(world, input, prompts, k); }
    }
  }

  function PromptsOf(calls: seq<Call>): seq<Prompt> {
    if calls == [] then []
    else
      var before, c := PromptsOf(calls[..|calls| - 1]), calls[|calls| - 1];
      if c.Execute? then before + [c.prompt] else before
  }

  function Validations(calls: seq<Call>): nat {
    if calls == [] then 0 else Validations(calls[..|calls| - 1]) + if calls[|calls| - 1].Validate? then 1 else 0
  }

  lemma CallsSnoc(calls: seq<Call>, c: Call)
    ensures PromptsOf(calls + [c]) == if c.Execute? then PromptsOf(calls) + [c.prompt] else PromptsOf(calls)
    ensures Validations(calls + [c]) == Validations(calls) + if c.Validate? then 1 else 0
  {
    assert (calls + [c])[..|calls|] == calls;
  }

  /** How the prompting ended: what the result is, and when there is one. */
  ghost predicate Concluded(world: World, input: TaskInput, prompts: seq<Prompt>, result: Result<bytes, Failure>) {
    && 1 <= |prompts| <= (if input.outputSchema == [] then 1 else MAX_VALIDATION_RETRIES) && Dialogue(world, input, prompts)
    && var k := |prompts| - 1;
       match Answer(world, prompts, k)
       case None => result == Err(if k == 0 then PromptFailed else RetryPromptFailed(k))
       case Some(last) =>
         if input.outputSchema == [] then result == Ok(last.output)
         else
           match Judgement(world, input.outputSchema, k, last.output)
           case Accepted(text) => result == Ok(text)
           case Refused(_, feedback) => |prompts| == MAX_VALIDATION_RETRIES && result == Err(ValidationFailed(feedback))
  }

  /** Allocated, then a session on that sandbox, then prompts and validations only. */
  ghost predicate Orderly(calls: seq<Call>, sandbox: Name) {
    && |calls| >= 2 && calls[0] == Allocate && calls[1] == CreateSession(sandbox)
    && forall i :: 2 <= i < |calls| ==> calls[i].Execute? || calls[i].Validate?
  }

  method ValidateOutput(world: World, k: nat, output: bytes, schema: bytes) returns (r: ValidationResult)
    ensures r == Judgement(world, schema, k, output)
    ensures match world.lost(k)
            case Some(message) => r == Refused(output, ActivityFailed(message))
            case None => Validated(output, schema, world.check, r)
  {
    hide Validated, Verdict;
    if world.lost(k).Some? {
      return Refused(output, ActivityFailed(world.lost(k).value));
    }
    r := ValidateWithFeedback(output, schema, world.check);
  }

  /** The calls so far: `asked` prompts, the last one answered by `last`, and `checked` validations. */
  ghost predicate Talking(world: World, input: TaskInput, calls: seq<Call>, tokens: int, asked: nat, checked: nat, last: ExecutionResult) {
    var prompts := PromptsOf(calls);
    && |prompts| == asked >= 1 && Dialogue(world, input, prompts) && Answer(world, prompts, asked - 1) == Some(last)
    && tokens == Spent(world, prompts) && Validations(calls) == checked
  }

  /** Every answered prompt is validated once if there is a schema, and every answered prompt is paid for. */
  ghost predicate Finished(world: World, input: TaskInput, calls: seq<Call>, tokens: int, result: Result<bytes, Failure>) {
    var prompts := PromptsOf(calls);
    && Concluded(world, input, prompts, result) && tokens == Spent(world, prompts)
    && Validations(calls) == if input.outputSchema == [] then 0
                             else if Answer(world, prompts, |prompts| - 1).Some? then |prompts| else |prompts| - 1
  }

  lemma FirstPrompt(world: World, input: TaskInput, calls: seq<Call>)
    requires PromptsOf(calls) == [] && Validations(calls) == 0
    ensures var p := Original(input.prompt);
            match world.execute(0, p)
            case Some(first) => Talking(world, input, calls + [Execute(p)], first.tokensUsed, 1, 0, first)
            case None => Finished(world, input, calls + [Execute(p)], 0, Err(PromptFailed))
  {
    hide PromptsOf, Validations;
    var p := Original(input.prompt);
    CallsSnoc(calls, Execute(p));
    SpentSnoc(world, [], p);
    assert [] + [p] == [p];
  }

  lemma Checked(world: World, input: TaskInput, calls: seq<Call>, tokens: int, asked: nat, checked: nat, last: ExecutionResult)
    requires Talking(world, input, calls, tokens, asked, checked, last)
    ensures Talking(world, input, calls + [Validate(last.output)], tokens, asked, checked + 1, last)
  {
    hide Dialogue, Spent, PromptsOf, Validations;
    CallsSnoc(calls, Validate(last.output));
  }

  lemma AskedAgain(world: World, input: TaskInput, calls: seq<Call>, tokens: int, asked: nat, last: ExecutionResult)
    requires Talking(world, input, calls, tokens, asked, asked, last) && asked < MAX_VALIDATION_RETRIES
    requires input.outputSchema != [] && Judgement(world, input.outputSchema, asked - 1, last.output).Refused?
    ensures var judged := Judgement(world, input.outputSchema, asked - 1, last.output);
            var p := Retry(input.prompt, last.output, judged.feedback, input.outputSchema);
            match world.execute(asked, p)
            case Some(again) => Talking(world, input, calls + [Execute(p)], tokens + again.tokensUsed, asked + 1, asked, again)
            case None => Finished(world, input, calls + [Execute(p)], tokens, Err(RetryPromptFailed(asked)))
  {
    var judged := Judgement(world, input.outputSchema, asked - 1, last.output);
    hide Judgement, Spent, PromptsOf, Validations, Dialogue;
    var p := Retry(input.prompt, last.output, judged.feedback, input.outputSchema);
    var prompts := PromptsOf(calls);
    CallsSnoc(calls, Execute(p));
    SpentSnoc(world, prompts, p);
    assert Answer(world, prompts + [p], asked - 1) == Answer(world, prompts, asked - 1);
    DialogueSnoc(world, input, prompts, p);
  }

  lemma Concludes(world: World, input: TaskInput, calls: seq<Call>, tokens: int, asked: nat, checked: nat, last: ExecutionResult)
    requires Talking(world, input, calls, tokens, asked, checked, last) && asked <= MAX_VALIDATION_RETRIES
    requires checked == if input.outputSchema == [] then 0 else asked
    ensures input.outputSchema == [] && asked == 1 ==> Finished(world, input, calls, tokens, Ok(last.output))
    ensures input.outputSchema != [] ==>
              match Judgement(world, input.outputSchema, asked - 1, last.output)
              case Accepted(text) => Finished(world, input, calls, tokens, Ok(text))
              case Refused(_, feedback) =>
                asked == MAX_VALIDATION_RETRIES ==> Finished(world, input, calls, tokens, Err(ValidationFailed(feedback)))
  {
    hide Judgement, Spent, PromptsOf, Validations, Dialogue;
  }

  /** The prompt and, with a schema, the loop of validations and retries. */
  method PromptAndValidate(world: World, input: TaskInput, before: seq<Call>, ghost sandbox: Name)
    returns (result: Result<bytes, Failure>, tokensUsed: int, calls: seq<Call>)
    requires Orderly(before, sandbox) && PromptsOf(before) == [] && Validations(before) == 0
    ensures Orderly(calls, sandbox) && Finished(world, input, calls, tokensUsed, result)
  {
    hide Judgement, Talking, Finished, Concluded, Dialogue, PromptsOf, Validations;
    FirstPrompt(world, input, before);
    calls := before + [Execute(Original(input.prompt))];
    var first := world.execute(0, Original(input.prompt));
    if first.None? {
      return Err(PromptFailed), 0, calls;
    }
    var execResult := first.value;
    tokensUsed := execResult.tokensUsed;
    if input.outputSchema == [] {
      Concludes(world, input, calls, tokensUsed, 1, 0, execResult);
      return Ok(execResult.output), tokensUsed, calls;
    }
    var lastErr: Option<Feedback> := None;
    var attempt := 1;
    while attempt <= MAX_VALIDATION_RETRIES
      invariant 1 <= attempt <= MAX_VALIDATION_RETRIES + 1 && Orderly(calls, sandbox)
      invariant attempt <= MAX_VALIDATION_RETRIES ==> Talking(world, input, calls, tokensUsed, attempt, attempt - 1, execResult)
      invariant attempt > MAX_VALIDATION_RETRIES ==>
                  lastErr.Some? && Finished(world, input, calls, tokensUsed, Err(ValidationFailed(lastErr.value)))
    {
      var judged := ValidateOutput(world, attempt - 1, execResult.output, input.outputSchema);
      Checked(world, input, calls, tokensUsed, attempt, attempt - 1, execResult);
      calls := calls + [Validate(execResult.output)];
      Concludes(world, input, calls, tokensUsed, attempt, attempt, execResult);
      if judged.Accepted? {
        return Ok(judged.output), tokensUsed, calls;
      }
      lastErr := Some(judged.feedback);
      if attempt < MAX_VALIDATION_RETRIES {
        AskedAgain(world, input, calls, tokensUsed, attempt, execResult);
        var retryPrompt := Retry(input.prompt, execResult.output, judged.feedback, input.outputSchema);
        calls := calls + [Execute(retryPrompt)];
        var again := world.execute(attempt, retryPrompt);
        if again.None? {
          return Err(RetryPromptFailed(attempt)), tokensUsed, calls;
        }
        execResult := again.value;
        tokensUsed := tokensUsed + execResult.tokensUsed;
      }
      attempt := attempt + 1;
    }
    return Err(ValidationFailed(lastErr.value)), tokensUsed, calls;
  }

  /**
   Success with a schema means that the answer to the last prompt holds the
   result, that the schema has no complaint about it, and that every earlier
   answer was refused.
   */
  lemma SuccessIsSound(world: World, input: TaskInput, calls: seq<Call>, tokens: int, text: bytes)
    requires Finished(world, input, calls, tokens, Ok(text)) && input.outputSchema != []
    ensures var prompts := PromptsOf(calls); var k := |prompts| - 1;
            && 1 <= |prompts| <= 3 && Validations(calls) == |prompts| && Answer(world, prompts, k).Some?
            && Extraction(Answer(world, prompts, k).value.output) == Ok(text) && world.check(text, input.outputSchema) == None
            && forall i :: 0 <= i < k ==>
                 && Answer(world, prompts, i).Some?
                 && Judgement(world, input.outputSchema, i, Answer(world, prompts, i).value.output).Refused?
  {
    hide Spent, PromptsOf, Validations, Extraction;
    var prompts := PromptsOf(calls);
    forall i | 0 <= i < |prompts| - 1
      ensures Answer(world, prompts, i).Some?
           && Judgement(world, input.outputSchema, i, Answer(world, prompts, i).value.output).Refused?
    {
      assert FollowsUp(world, input, prompts, i + 1);
    }
  }

  /** The first `n` answers were all refused. */
  ghost predicate AllRefused(world: World, input: TaskInput, prompts: seq<Prompt>, n: nat)
    requires n <= |prompts|
  {
    forall i :: 0 <= i < n ==>
      && Answer(world, prompts, i).Some?
      && Judgement(world, input.outputSchema, i, Answer(world, prompts, i).value.output).Refused?
  }

  /**
   Failure means that a prompt went unanswered, the last one asked, or that there is a
   schema and three answers to three prompts were validated and refused; every earlier
   answer was refused in either case. The failure carries the last feedback.
   */
  lemma FailureIsSound(world: World, input: TaskInput, calls: seq<Call>, tokens: int, failure: Failure)
    requires Finished(world, input, calls, tokens, Err(failure))
    ensures var prompts := PromptsOf(calls); var k := |prompts| - 1;
            match failure
            case PromptFailed => |prompts| == 1 && Validations(calls) == 0 && Answer(world, prompts, 0).None?
            case RetryPromptFailed(attempt) =>
              && attempt in {1, 2} && k == attempt && Validations(calls) == attempt
              && Answer(world, prompts, k).None? && AllRefused(world, input, prompts, k)
            case ValidationFailed(feedback) =>
              && input.outputSchema != [] && |prompts| == 3 && Validations(calls) == 3 && AllRefused(world, input, prompts, 3)
              && Judgement(world, input.outputSchema, 2, Answer(world, prompts, 2).value.output).feedback == feedback
            case _ => false
  {
    hide Spent, PromptsOf, Validations, Judgement;
    var prompts := PromptsOf(calls);
    forall i | 0 <= i < |prompts| - 1
      ensures Answer(world, prompts, i).Some?
           && Judgement(world, input.outputSchema, i, Answer(world, prompts, i).value.output).Refused?
    {
      assert FollowsUp(world, input, prompts, i + 1);
    }
  }

  // ---- allocating and releasing ----

  /** `n` was idle or new and is now active; nothing else changed. */
  ghost predicate Granted(t: map<Name, View>, t': map<Name, View>, n: Name) {
    n in t' && t'[n].status.Active? && (n in t ==> t[n].status.Idle?) && t' == t[n := t'[n]]
  }

  /** A try draws a session never seen, and the provider makes new names. */
  ghost predicate FreshAttempt(a: Attempt, t: map<Name, View>) {
    a.session != [] && Unassigned(t, a.session) && (a.created.Some? ==> a.created.value.name !in t)
  }

  lemma Grants(t: map<Name, View>, t': map<Name, View>, maxSize: int, userID: bytes, a: Attempt, r: Result<Name, PoolManagers.Error>)
    requires AllocatedAs(t, t', maxSize, userID, a.session, a.now, a.created, r) && FreshAttempt(a, t)
    ensures if r.Ok? then Granted(t, t', r.value) else t' == t
  {
  }

  method AllocateSandboxActivity(pool: PoolManager, userID: bytes, a: Attempt) returns (sandbox: Option<Name>)
    requires pool.Valid() && FreshAttempt(a, pool.Table())
    modifies pool.cache, pool.cache.byName.Values
    ensures pool.Valid() && fresh(pool.cache.byName.Values - old(pool.cache.byName.Values))
    ensures match sandbox
            case None => pool.Table() == old(pool.Table())
            case Some(n) => Granted(old(pool.Table()), pool.Table(), n)
  {
    hide PoolInv, Unassigned, AllocatedAs, Granted, Exact;
    ghost var t := pool.Table();
    assert t.Keys == pool.cache.byName.Keys;
    var r := pool.Allocate(userID, a.session, a.now, a.created);
    Grants(t, pool.Table(), pool.maxSize, userID, a, if r.Ok? then Ok(r.value.sandboxName) else Err(r.error));
    return if r.Ok? then Some(r.value.sandboxName) else None;
  }

  /** The scheduler's tries, until one succeeds or they run out. */
  method AllocateSandbox(pool: PoolManager, userID: bytes, attempts: seq<Attempt>) returns (sandbox: Option<Name>)
    requires pool.Valid() && forall i :: 0 <= i < |attempts| ==> FreshAttempt(attempts[i], pool.Table())
    modifies pool.cache, pool.cache.byName.Values
    ensures pool.Valid() && fresh(pool.cache.byName.Values - old(pool.cache.byName.Values))
    ensures match sandbox
            case None => pool.Table() == old(pool.Table())
            case Some(n) => Granted(old(pool.Table()), pool.Table(), n)
  {
    hide PoolInv, FreshAttempt, Granted;
    for i := 0 to |attempts|
      invariant pool.Valid() && fresh(pool.cache.byName.Values - old(pool.cache.byName.Values))
      invariant pool.Table() == old(pool.Table())
    {
      sandbox := AllocateSandboxActivity(pool, userID, attempts[i]);
      if sandbox.Some? {
        return;
      }
    }
    return None;
  }

  method ReleaseSandboxActivity(pool: PoolManager, sandbox: Name, deleted: bool) returns (ok: bool)
    requires pool.Valid()
    modifies pool.cache, pool.cache.byName.Values
    ensures pool.Valid() && pool.cache.byName.Values <= old(pool.cache.byName.Values)
    ensures ok == (sandbox !in old(pool.Table()) || deleted)
    ensures pool.Table() == Released(old(pool.Table()), sandbox, deleted)
  {
    hide PoolInv, Exact, Released;
    ok := pool.Release(sandbox, deleted);
  }

  /** Trying again after a failed delete comes to the same as one try with the last outcome. */
  lemma ReleasedAgain(t: map<Name, View>, n: Name)
    ensures var marked := Released(t, n, false);
            && (n in marked <==> n in t) && (n in t ==> marked[n].status.Releasing?)
            && (n !in t ==> marked == t && Released(t, n, true) == t)
            && Released(marked, n, false) == marked && Released(marked, n, true) == Released(t, n, true)
  {
  }

  /** Tries until the provider has deleted the sandbox or the tries run out. */
  method ReleaseSandbox(pool: PoolManager, sandbox: Name, deletions: seq<bool>)
    requires pool.Valid() && deletions != []
    modifies pool.cache, pool.cache.byName.Values
    ensures pool.Valid() && pool.Table() == Released(old(pool.Table()), sandbox, true in deletions)
    decreases |deletions|
  {
    ghost var t := pool.Table();
    hide PoolInv, Exact, Released;
    ReleasedAgain(t, sandbox);
    var ok := ReleaseSandboxActivity(pool, sandbox, deletions[0]);
    if !ok && |deletions| > 1 {
      assert true in deletions <==> true in deletions[1..];
      ReleaseSandbox(pool, sandbox, deletions[1..]);
    }
  }

  // ---- the whole run ----

  /** What is left of a granted sandbox: nothing, or its entry as releasing; without a name it stays active. */
  ghost predicate Left(t: map<Name, View>, t': map<Name, View>, n: Name, deleted: bool) {
    if n == [] then Granted(t, t', n)
    else
      && (n in t ==> t[n].status.Idle?)
      && if deleted then t' == t - {n}
         else n in t' && t'[n].status.Releasing? && t' == t[n := t'[n]]
  }

  /** No entry is active that was not, with the same session, before. */
  ghost predicate NoNewActive(t: map<Name, View>, t': map<Name, View>) {
    forall m :: m in t' && t'[m].status.Active? ==> m in t && t[m] == t'[m]
  }

  /** Every entry but that of `n` is as it was, and no other is new. */
  ghost predicate OthersKept(t: map<Name, View>, t': map<Name, View>, n: Name) {
    t'.Keys <= t.Keys + {n} && forall m :: m in t && m != n ==> m in t' && t'[m] == t[m]
  }

  /** The pool after a run that was granted `n`: a new active entry stays exactly when it has no name. */
  ghost predicate PoolEnds(t: map<Name, View>, t': map<Name, View>, n: Name, deleted: bool) {
    Left(t, t', n, deleted) && (NoNewActive(t, t') <==> n != []) && OthersKept(t, t', n)
  }

  lemma GrantEnds(t: map<Name, View>, t1: map<Name, View>, n: Name, deleted: bool)
    requires Granted(t, t1, n)
    ensures PoolEnds(t, if n == [] then t1 else Released(t1, n, deleted), n, deleted)
  {
  }

  /** The only release, if there is one, is that of the sandbox, and it is the last call. */
  ghost predicate ReleasedOnce(calls: seq<Call>, sandbox: Name) {
    && (forall i :: 0 <= i < |calls| ==> (calls[i].Release? <==> sandbox != [] && i == |calls| - 1))
    && (sandbox != [] ==> calls != [] && calls[|calls| - 1] == Release(sandbox))
  }

  /** The calls before the deferred release. */
  function BeforeRelease(calls: seq<Call>, sandbox: Name): seq<Call> {
    if sandbox == [] || calls == [] then calls else calls[..|calls| - 1]
  }

  /** The deferred release closes the calls and adds neither prompts nor validations. */
  lemma CallsEnd(calls: seq<Call>, sandbox: Name)
    requires Orderly(calls, sandbox)
    ensures var all := if sandbox == [] then calls else calls + [Release(sandbox)];
            && ReleasedOnce(all, sandbox) && Orderly(BeforeRelease(all, sandbox), sandbox)
            && PromptsOf(all) == PromptsOf(calls) && Validations(all) == Validations(calls)
  {
    CallsSnoc(calls, Release(sandbox));
    assert (calls + [Release(sandbox)])[..|calls|] == calls;
  }

  lemma OpeningCalls(sandbox: Name)
    ensures var calls := [Allocate, CreateSession(sandbox)];
            Orderly(calls, sandbox) && PromptsOf(calls) == [] && Validations(calls) == 0
  {
    CallsSnoc([Allocate], CreateSession(sandbox));
    CallsSnoc([], Allocate);
    assert [] + [Allocate] == [Allocate] && [Allocate] + [CreateSession(sandbox)] == [Allocate, CreateSession(sandbox)];
  }

  /** Everything between the allocation and the deferred release. */
  method RunTask(world: World, input: TaskInput, sandbox: Name) returns (output: TaskOutput, err: Option<Failure>, calls: seq<Call>)
    ensures Orderly(calls, sandbox) && TaskDone(world, input, calls, output, err)
  {
    hide Orderly, Finished, PromptsOf, Validations;
    OpeningCalls(sandbox);
    calls := [Allocate, CreateSession(sandbox)];
    output := TaskOutput([], [], 0, 0);
    if world.session.None? {
      return output, Some(SessionFailed), calls;
    }
    var result, tokensUsed;
    result, tokensUsed, calls := PromptAndValidate(world, input, calls, sandbox);
    output := output.(sessionID := world.session.value, tokensUsed := tokensUsed);
    if result.Err? {
      return output, Some(result.error), calls;
    }
    output := output.(result := result.value, duration := world.finish - world.start);
    err := None;
  }

  /** The result of a run whose allocation succeeded. */
  ghost predicate TaskDone(world: World, input: TaskInput, calls: seq<Call>, output: TaskOutput, err: Option<Failure>) {
    && (err.Some? ==> output.result == [] && output.duration == 0)
    && (err.None? ==> output.duration == world.finish - world.start)
    && match world.session
       case None => err == Some(SessionFailed) && output == TaskOutput([], [], 0, 0) && PromptsOf(calls) == [] && Validations(calls) == 0
       case Some(id) =>
         && output.sessionID == id
         && Finished(world, input, calls, output.tokensUsed, if err.Some? then Err(err.value) else Ok(output.result))
  }

  lemma TaskDoneStays(world: World, input: TaskInput, calls: seq<Call>, more: seq<Call>, output: TaskOutput, err: Option<Failure>)
    requires TaskDone(world, input, calls, output, err)
    requires PromptsOf(more) == PromptsOf(calls) && Validations(more) == Validations(calls)
    ensures TaskDone(world, input, more, output, err)
  {
  }

  /**
   A run either allocates nothing and changes nothing, or is granted a sandbox.
   Then its last call is the release of that sandbox, made once, and no new active
   entry stays, both exactly when the sandbox has a name, whatever failed before.
   */
  method CodingTaskWorkflow(pool: PoolManager, world: World, input: TaskInput)
    returns (output: TaskOutput, err: Option<Failure>, sandbox: Option<Name>, calls: seq<Call>)
    requires pool.Valid() && forall i :: 0 <= i < |world.allocations| ==> FreshAttempt(world.allocations[i], pool.Table())
    requires |world.allocations| <= MAX_ATTEMPTS && 1 <= |world.deletions| <= MAX_ATTEMPTS
    modifies pool.cache, pool.cache.byName.Values
    ensures pool.Valid()
    ensures match sandbox
            case None => err == Some(AllocationFailed) && calls == [Allocate] && pool.Table() == old(pool.Table())
            case Some(n) =>
              && TaskDone(world, input, calls, output, err)
              && ReleasedOnce(calls, n) && Orderly(BeforeRelease(calls, n), n)
              && PoolEnds(old(pool.Table()), pool.Table(), n, true in world.deletions)
  {
    ghost var t := pool.Table();
    hide *;
    sandbox := AllocateSandbox(pool, input.userID, world.allocations);
    if sandbox.None? {
      return TaskOutput([], [], 0, 0), Some(AllocationFailed), None, [Allocate];
    }
    var n := sandbox.value;
    GrantEnds(t, pool.Table(), n, true in world.deletions);
    output, err, calls := RunTask(world, input, n);
    CallsEnd(calls, n);
    if n != [] {
      TaskDoneStays(world, input, calls, calls + [Release(n)], output, err);
      ReleaseSandbox(pool, n, world.deletions);
      calls := calls + [Release(n)];
    }
  }
}
