/**
 * The retrying translation call.
 *
 * `Translate` is the attempt loop as the program runs it. The chat service is
 * a parameter: a total function from the messages sent and the attempt number
 * to the outcome of that attempt, so that the loop's behaviour can be stated
 * for every possible run of the service. `TranslateSpec` says what the result
 * must be from where the first successful attempt stands; the method is proved
 * against it, and the properties of retrying are proved about it.
 */
module Translator {
  import opened Wrappers
  import opened Text

  /** The system prompt of each supported direction; its keys are the directions `Translate` accepts. */
  const SystemPrompts: map<string, string> := map[
    "zh_en" := "You are a professional translator. Translate the user's Chinese text into natural, accurate English. "
               + "Return translation only, without notes.",
    "en_zh" := "You are a professional translator. Translate the user's English text into natural, accurate Simplified Chinese. "
               + "Return translation only, without notes."
  ]

  /** A chat message: the instruction, or the text to translate. */
  datatype Message = SystemMessage(content: string) | HumanMessage(content: string)

  /** What one call of the chat service gives back: a reply, or the exception it raised. */
  datatype CallOutcome = Success(content: string) | Failure(err: string)

  /** The error a translation carries. */
  datatype Error =
    | UnsupportedTask(task: string)  // the direction has no system prompt
    | CallError(message: string)     // the exception of a failed call

  /** The outcome of one translation: the text, and the error if there was one. */
  datatype TranslationResult = TranslationResult(text: string, error: Option<Error>)

  /** The chat service seen from the loop: the outcome of attempt `k` (from 1) with these messages. */
  type Remote = (seq<Message>, nat) -> CallOutcome

  /** The two messages sent on every attempt. */
  function Messages(task: string, source: string): (m: seq<Message>)
    requires task in SystemPrompts
    ensures |m| == 2 && m[0] == SystemMessage(SystemPrompts[task]) && m[1] == HumanMessage(source)
  {
    [SystemMessage(SystemPrompts[task]), HumanMessage(source)]
  }

  /**
   * The first attempt numbered `from` .. `retries` that succeeds, if any;
   * every attempt before it, from `from` on, fails.
   */
  function FirstSuccess(remote: Remote, m: seq<Message>, from: nat, retries: int): (k: Option<nat>)
    decreases retries + 1 - from
    ensures k.Some? ==> from <= k.value <= retries && remote(m, k.value).Success?
    ensures k.Some? ==> forall j :: from <= j < k.value ==> remote(m, j).Failure?
    ensures k.None? ==> forall j :: from <= j <= retries ==> remote(m, j).Failure?
  {
    if from > retries then None
    else if remote(m, from).Success? then Some(from)
    else FirstSuccess(remote, m, from + 1, retries)
  }

  /** `n` when it is positive, 0 otherwise. */
  function Max0(n: int): nat {
    if n > 0 then n else 0
  }

  /**
   * The result of translating `source` in direction `task` with up to
   * `retries` attempts: the stripped reply of the first successful attempt;
   * otherwise empty text with the error of the last attempt, or with no error
   * at all when no attempt was allowed.
   */
  function TranslateSpec(task: string, source: string, retries: int, remote: Remote): (r: TranslationResult)
    ensures r.error.Some? ==> r.text == ""
  {
    if task !in SystemPrompts then TranslationResult("", Some(UnsupportedTask(task)))
    else
      var m := Messages(task, source);
      match FirstSuccess(remote, m, 1, retries)
      case Some(k) => TranslationResult(Strip(remote(m, k).content), None)
      case None =>
        if retries < 1 then TranslationResult("", None)
        else TranslationResult("", Some(CallError(remote(m, retries).err)))
  }

  /** How many times the service is called for this translation. */
  function AttemptsMade(task: string, source: string, retries: int, remote: Remote): (n: nat)
    ensures n <= Max0(retries)
  {
    if task !in SystemPrompts then 0
    else match FirstSuccess(remote, Messages(task, source), 1, retries)
      case Some(k) => k
      case None => Max0(retries)
  }

  /** The back-off multipliers of a run of `calls` attempts: one after each attempt but the last. */
  function Backoff(calls: nat): (b: seq<nat>)
    ensures |b| == Max0(calls - 1)
    ensures forall i :: 0 <= i < |b| ==> b[i] == i + 1
  {
    seq(Max0(calls - 1), i => i + 1)
  }

  /**
   * Translate `source` in direction `task`, calling `remote` at most
   * `retries` times. Besides the result it gives the number of calls made
   * and the multipliers of the half-second pauses taken, in order.
   */
  method Translate(task: string, source: string, retries: int, remote: Remote)
    returns (r: TranslationResult, calls: nat, backoff: seq<nat>)
    ensures r == TranslateSpec(task, source, retries, remote)
    ensures calls == AttemptsMade(task, source, retries, remote)
    ensures backoff == Backoff(calls)
  {
    if task !in SystemPrompts {
      return TranslationResult("", Some(UnsupportedTask(task))), 0, [];
    }
    var m := Messages(task, source);
    var lastError: Option<Error> := None;
    calls, backoff := 0, [];
    var attempt := 1;
    while attempt <= retries
      invariant 1 <= attempt <= Max0(retries) + 1
      invariant calls == attempt - 1
      invariant forall j :: 1 <= j < attempt ==> remote(m, j).Failure?
      invariant FirstSuccess(remote, m, 1, retries) == FirstSuccess(remote, m, attempt, retries)
      invariant lastError == if attempt == 1 then None else Some(CallError(remote(m, attempt - 1).err))
      invariant backoff == Backoff(if attempt <= retries then attempt else attempt - 1)
    {
      calls := calls + 1;
      var outcome := remote(m, attempt);
      match outcome {
        case Success(content) =>
          return TranslationResult(Strip(content), None), calls, backoff;
        case Failure(err) =>
          lastError := Some(CallError(err));
          if attempt < retries {
            backoff := backoff + [attempt];
          }
      }
      attempt := attempt + 1;
    }
    r := TranslationResult("", lastError);
  }

  // ---------------------------------------------------------------------
  // Properties of retrying
  // ---------------------------------------------------------------------

  /** An unsupported direction is rejected with empty text before any call. */
  lemma UnsupportedMakesNoCall(task: string, source: string, retries: int, remote: Remote)
    requires task !in SystemPrompts
    ensures TranslateSpec(task, source, retries, remote) == TranslationResult("", Some(UnsupportedTask(task)))
    ensures AttemptsMade(task, source, retries, remote) == 0
  {
  }

  /** The first successful attempt ends the loop: its reply, stripped, is the text, and no later attempt is made. */
  lemma {:induction false} FirstSuccessWins(task: string, source: string, retries: int, remote: Remote, k: nat)
    requires task in SystemPrompts && 1 <= k <= retries
    requires remote(Messages(task, source), k).Success?
    requires forall j :: 1 <= j < k ==> remote(Messages(task, source), j).Failure?
    ensures TranslateSpec(task, source, retries, remote)
            == TranslationResult(Strip(remote(Messages(task, source), k).content), None)
    ensures AttemptsMade(task, source, retries, remote) == k
  {
    FirstSuccessAt(remote, Messages(task, source), 1, retries, k);
  }

  lemma {:induction false} FirstSuccessAt(remote: Remote, m: seq<Message>, from: nat, retries: int, k: nat)
    requires from <= k <= retries && remote(m, k).Success?
    requires forall j :: from <= j < k ==> remote(m, j).Failure?
    ensures FirstSuccess(remote, m, from, retries) == Some(k)
    decreases k - from
  {
    if from < k {
      FirstSuccessAt(remote, m, from + 1, retries, k);
    }
  }

  /**
   * When every allowed attempt fails, all `retries` of them are made and the
   * result carries the error of the last one, with empty text.
   */
  lemma {:induction false} LastErrorWins(task: string, source: string, retries: int, remote: Remote)
    requires task in SystemPrompts && retries >= 1
    requires forall j :: 1 <= j <= retries ==> remote(Messages(task, source), j).Failure?
    ensures TranslateSpec(task, source, retries, remote)
            == TranslationResult("", Some(CallError(remote(Messages(task, source), retries).err)))
    ensures AttemptsMade(task, source, retries, remote) == retries
  {
    AllFail(remote, Messages(task, source), 1, retries);
  }

  lemma {:induction false} AllFail(remote: Remote, m: seq<Message>, from: nat, retries: int)
    requires forall j :: from <= j <= retries ==> remote(m, j).Failure?
    ensures FirstSuccess(remote, m, from, retries) == None
    decreases retries + 1 - from
  {
    if from <= retries {
      AllFail(remote, m, from + 1, retries);
    }
  }

  /**
   * Earlier errors are discarded: two services that fail on every allowed
   * attempt and agree on the last one give the same result.
   */
  lemma OnlyLastErrorMatters(task: string, source: string, retries: int, remote1: Remote, remote2: Remote)
    requires task in SystemPrompts && retries >= 1
    requires forall j :: 1 <= j <= retries ==> remote1(Messages(task, source), j).Failure?
    requires forall j :: 1 <= j <= retries ==> remote2(Messages(task, source), j).Failure?
    requires remote1(Messages(task, source), retries) == remote2(Messages(task, source), retries)
    ensures TranslateSpec(task, source, retries, remote1) == TranslateSpec(task, source, retries, remote2)
  {
    LastErrorWins(task, source, retries, remote1);
    LastErrorWins(task, source, retries, remote2);
  }

  /** With no attempts allowed, nothing is called and the result is empty text with no error. */
  lemma NoAttemptsNoError(task: string, source: string, retries: int, remote: Remote)
    requires task in SystemPrompts && retries < 1
    ensures TranslateSpec(task, source, retries, remote) == TranslationResult("", None)
    ensures AttemptsMade(task, source, retries, remote) == 0
  {
  }

  /** A successful translation has no whitespace at either end. */
  lemma SuccessIsStripped(task: string, source: string, retries: int, remote: Remote)
    requires TranslateSpec(task, source, retries, remote).error.None?
    ensures var t := TranslateSpec(task, source, retries, remote).text;
            t == [] || (!IsSpace(t[0]) && !IsSpace(t[|t| - 1]))
  {
    if task in SystemPrompts {
      var m := Messages(task, source);
      match FirstSuccess(remote, m, 1, retries)
      case Some(k) => StripHasNoSurroundingSpace(remote(m, k).content);
      case None =>
    }
  }

  /**
   * The service only sees the two messages built from the direction and the
   * source: the result depends on nothing else it might be asked.
   */
  lemma DependsOnlyOnMessages(task: string, source: string, retries: int, remote1: Remote, remote2: Remote)
    requires task in SystemPrompts
    requires forall k :: remote1(Messages(task, source), k) == remote2(Messages(task, source), k)
    ensures TranslateSpec(task, source, retries, remote1) == TranslateSpec(task, source, retries, remote2)
    ensures AttemptsMade(task, source, retries, remote1) == AttemptsMade(task, source, retries, remote2)
  {
    FirstSuccessAgree(remote1, remote2, Messages(task, source), 1, retries);
  }

  lemma {:induction false} FirstSuccessAgree(remote1: Remote, remote2: Remote, m: seq<Message>, from: nat, retries: int)
    requires forall k :: remote1(m, k) == remote2(m, k)
    ensures FirstSuccess(remote1, m, from, retries) == FirstSuccess(remote2, m, from, retries)
    decreases retries + 1 - from
  {
    if from <= retries {
      FirstSuccessAgree(remote1, remote2, m, from + 1, retries);
    }
  }
}
