/**
 * One inference worker: it takes jobs off its queue in arrival order, runs
 * the engine on each and sends back exactly one reply per job.  An engine
 * error does not stop it; the error becomes the reply text.
 *
 * The channel is the sequence of jobs it delivers before it is closed (the
 * point where `blocking_recv` answers `None`).  The engine is an abstract
 * function of the number of calls made before, the prompt and the sample
 * length, so that a stateful engine is covered.
 */
module Workers {
  import opened Wrappers
  import opened Text

  /** The parts of an `InferenceJob` a worker reads; its reply channel is the worker's output. */
  datatype Job = Job(prompt: string, sessionId: string, sampleLen: nat)

  /** `InferenceResult(String)`. */
  datatype InferenceResult = InferenceResult(text: string)

  /** The engine: call number, prompt and sample length to generated text or an error message. */
  type Engine = (nat, string, nat) -> Result<string, string>

  /** `Display for InferenceResult`: the wrapped string, verbatim. */
  function Display(r: InferenceResult): (s: string)
    ensures InferenceResult(s) == r
  {
    r.text
  }

  const ID_PREFIX: string := "id: "
  const ERROR_SEPARATOR: string := ", inference error: "

  /** `format!("id: {}, inference error: {}", self.id, e)`. */
  function ErrorText(id: nat, message: string): (r: string)
    ensures ID_PREFIX <= r
    ensures |r| > |message| && r[|r| - |message|..] == message
  {
    ID_PREFIX + Decimal(id) + ERROR_SEPARATOR + message
  }

  /** Reads a worker id and an error message back out of an error reply. */
  function ParseErrorText(s: string): Option<(nat, string)>
  {
    if !(ID_PREFIX <= s) then None
    else
      var rest := s[|ID_PREFIX|..];
      var n := DigitRun(rest);
      if n == 0 || !(ERROR_SEPARATOR <= rest[n..]) then None
      else Some((DecimalValue(rest[..n]), rest[n + |ERROR_SEPARATOR|..]))
  }

  /** An error reply names the worker and carries the engine's message unchanged. */
  lemma ErrorTextRoundTrip(id: nat, message: string)
    ensures ParseErrorText(ErrorText(id, message)) == Some((id, message))
  {
    var d := Decimal(id);
    var s := ErrorText(id, message);
    var rest := s[|ID_PREFIX|..];
    assert rest == d + (ERROR_SEPARATOR + message);
    DigitRunAppend(d, ERROR_SEPARATOR + message);
    assert rest[..|d|] == d;
    assert rest[|d|..] == ERROR_SEPARATOR + message;
    DecimalRoundTrip(id);
  }

  /**
   * The reply to one job, given the engine's answer: the generated text, or
   * the error line, which names the worker and ends with the engine's
   * message (`ErrorTextRoundTrip` reads both back).
   */
  function Reply(id: nat, answer: Result<string, string>): (r: InferenceResult)
    ensures answer.Ok? ==> Display(r) == answer.value
    ensures answer.Err? ==> ID_PREFIX <= Display(r) && |Display(r)| > |answer.error|
                            && Display(r)[|Display(r)| - |answer.error|..] == answer.error
  {
    match answer
    case Ok(text) => InferenceResult(text)
    case Err(e) => InferenceResult(ErrorText(id, e))
  }

  /** The replies to `jobs`, the first of them answered by engine call number `calls`. */
  function Replies(id: nat, jobs: seq<Job>, calls: nat, engine: Engine): (r: seq<InferenceResult>)
    ensures |r| == |jobs|
    decreases |jobs|
  {
    if jobs == [] then []
    else [Reply(id, engine(calls, jobs[0].prompt, jobs[0].sampleLen))] + Replies(id, jobs[1..], calls + 1, engine)
  }

  /** Reply `i` answers job `i`, with engine call number `calls + i`. */
  lemma {:induction false} ReplyAt(id: nat, jobs: seq<Job>, calls: nat, engine: Engine, i: nat)
    requires i < |jobs|
    ensures Replies(id, jobs, calls, engine)[i] == Reply(id, engine(calls + i, jobs[i].prompt, jobs[i].sampleLen))
    decreases i
  {
    if i > 0 {
      ReplyAt(id, jobs[1..], calls + 1, engine, i - 1);
      assert jobs[1..][i - 1] == jobs[i];
    }
  }

  /**
   * One reply per job, in queue order: reply `i` is the engine's text for
   * job `i`, or an error reply from which the worker id and the engine's
   * message can be read back.
   */
  lemma RepliesPerJob(id: nat, jobs: seq<Job>, calls: nat, engine: Engine)
    ensures forall i :: 0 <= i < |jobs| ==>
              var answer := engine(calls + i, jobs[i].prompt, jobs[i].sampleLen);
              (answer.Ok? ==> Display(Replies(id, jobs, calls, engine)[i]) == answer.value)
              && (answer.Err? ==> ParseErrorText(Display(Replies(id, jobs, calls, engine)[i])) == Some((id, answer.error)))
  {
    forall i | 0 <= i < |jobs|
      ensures var answer := engine(calls + i, jobs[i].prompt, jobs[i].sampleLen);
              (answer.Ok? ==> Display(Replies(id, jobs, calls, engine)[i]) == answer.value)
              && (answer.Err? ==> ParseErrorText(Display(Replies(id, jobs, calls, engine)[i])) == Some((id, answer.error)))
    {
      ReplyAt(id, jobs, calls, engine, i);
      var answer := engine(calls + i, jobs[i].prompt, jobs[i].sampleLen);
      if answer.Err? {
        ErrorTextRoundTrip(id, answer.error);
      }
    }
  }

  /** One turn of the worker loop: answering the front job moves its reply from the pending replies to the sent ones. */
  lemma {:induction false} RunStep(id: nat, queue: seq<Job>, calls: nat, engine: Engine,
                                   sent: seq<InferenceResult>, all: seq<InferenceResult>)
    requires queue != [] && sent + Replies(id, queue, calls, engine) == all
    ensures (sent + [Reply(id, engine(calls, queue[0].prompt, queue[0].sampleLen))])
            + Replies(id, queue[1..], calls + 1, engine) == all
  {
    var r := Reply(id, engine(calls, queue[0].prompt, queue[0].sampleLen));
    var rest := Replies(id, queue[1..], calls + 1, engine);
    assert Replies(id, queue, calls, engine) == [r] + rest;
    assert (sent + [r]) + rest == sent + ([r] + rest);
  }

  class Worker {
    const id: nat
    /** The jobs the channel delivers before it is closed. */
    var queue: seq<Job>
    /** Engine calls made so far. */
    var calls: nat

    constructor(id: nat, jobs: seq<Job>)
      ensures this.id == id && queue == jobs && calls == 0
    {
      this.id := id;
      queue := jobs;
      calls := 0;
    }

    /**
     * `Worker::run`: receive until the channel is closed and empty; answer
     * every job, turning an engine error into the reply text.
     */
    method Run(engine: Engine) returns (replies: seq<InferenceResult>)
      modifies this
      ensures queue == []
      ensures calls == old(calls) + |old(queue)|
      ensures replies == Replies(id, old(queue), old(calls), engine)
    {
      replies := [];
      while queue != []
        invariant calls == old(calls) + |old(queue)| - |queue|
        invariant replies + Replies(id, queue, calls, engine) == Replies(id, old(queue), old(calls), engine)
        decreases |queue|
      {
        var job := queue[0];
        RunStep(id, queue, calls, engine, replies, Replies(id, old(queue), old(calls), engine));
        queue := queue[1..];
        var answer := engine(calls, job.prompt, job.sampleLen);
        calls := calls + 1;
        replies := replies + [Reply(id, answer)];
      }
    }
  }
}
