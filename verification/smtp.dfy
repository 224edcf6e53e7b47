/** The SMTP exchange: the calls made on the connection in order, and
    how the error each one returns decides whether the program goes on. */
module Smtp {
  import opened Results

  /** The calls on the connection, in the order they are made:
      `smtp.NewClient`, `Mail`, `Rcpt`, `Data`, the body's `Write`, the
      body's `Close`, and `Quit`. */
  datatype Step = NewClient | Mail | Rcpt | Data | Write | Close | Quit

  const Order: seq<Step> := [NewClient, Mail, Rcpt, Data, Write, Close, Quit]

  /** What a call returned: the byte count a write reports (other calls
      report none, and it is ignored for them) and the call's error, if any. */
  datatype Reply = Reply(written: int, err: Option<string>)

  /** The error the program stops on: `io.ErrShortWrite`, which it makes
      itself, or an error a call returned. */
  datatype Error = ShortWrite | Failed(text: string)

  datatype Outcome = Finished | Aborted(step: Step, err: Error)

  /** The calls made, in order, and how the exchange ended. */
  datatype Session = Session(issued: seq<Step>, outcome: Outcome)

  /** The error the program acts on after a call that wrote `size`
      bytes. The error `Mail` returns is never looked at; a write that
      reports no error but fewer bytes than the message holds is a short
      write; any other error returned is fatal as it is. */
  function StepError(step: Step, reply: Reply, size: nat): (r: Option<Error>)
    ensures step == Mail ==> r.None?
    ensures step != Mail && reply.err.Some? ==> r == Some(Failed(reply.err.value))
    ensures r == Some(ShortWrite) <==> step == Write && reply.err.None? && reply.written < size
    ensures r.None? <==> step == Mail || (reply.err.None? && (step == Write ==> size <= reply.written))
  {
    match step
    case Mail => None
    case Write =>
      if reply.err.Some? then Some(Failed(reply.err.value))
      else if reply.written < size then Some(ShortWrite)
      else None
    case _ => if reply.err.Some? then Some(Failed(reply.err.value)) else None
  }

  predicate NoErrorBefore(replies: seq<Reply>, size: nat, i: int)
    requires |replies| == |Order| && i <= |Order|
  {
    forall j | 0 <= j < i :: StepError(Order[j], replies[j], size).None?
  }

  /** The calls of `steps`, each made only when no earlier one failed;
      `replies[i]` is what the i-th call returns if it is made. */
  function RunSteps(steps: seq<Step>, replies: seq<Reply>, size: nat): (s: Session)
    requires |steps| == |replies|
    ensures |s.issued| <= |steps| && s.issued == steps[..|s.issued|]
    ensures s.outcome.Finished? ==> s.issued == steps
    ensures s.outcome.Aborted? ==>
      && |s.issued| > 0
      && s.outcome.step == s.issued[|s.issued| - 1]
      && StepError(s.outcome.step, replies[|s.issued| - 1], size) == Some(s.outcome.err)
    decreases |steps|
  {
    if |steps| == 0 then Session([], Finished)
    else
      var e := StepError(steps[0], replies[0], size);
      if e.Some? then Session([steps[0]], Aborted(steps[0], e.value))
      else
        var rest := RunSteps(steps[1..], replies[1..], size);
        Session([steps[0]] + rest.issued, rest.outcome)
  }

  /** The whole exchange for a message of `size` bytes, where `replies[i]`
      is what the i-th call of `Order` returns if it is made. */
  function Run(replies: seq<Reply>, size: nat): (s: Session)
    requires |replies| == |Order|
    ensures 0 < |s.issued| <= |Order| && s.issued == Order[..|s.issued|]
    ensures s.outcome.Finished? ==> s.issued == Order
    ensures s.outcome.Aborted? ==>
      && s.outcome.step == s.issued[|s.issued| - 1]
      && StepError(s.outcome.step, replies[|s.issued| - 1], size) == Some(s.outcome.err)
  {
    RunSteps(Order, replies, size)
  }

  /** The calls made are exactly those up to and including the first
      that fails, where a call fails when `StepError` finds an error the
      program acts on. */
  lemma {:induction false} RunStepsStops(steps: seq<Step>, replies: seq<Reply>, size: nat, i: int)
    requires |steps| == |replies| && 0 <= i < |steps|
    ensures var s := RunSteps(steps, replies, size);
      (s.outcome.Aborted? && |s.issued| == i + 1) <==>
      (StepError(steps[i], replies[i], size).Some?
       && forall j | 0 <= j < i :: StepError(steps[j], replies[j], size).None?)
    decreases i
  {
    if 0 < i && StepError(steps[0], replies[0], size).None? {
      RunStepsStops(steps[1..], replies[1..], size, i - 1);
      forall j | 1 <= j < i
        ensures StepError(steps[j], replies[j], size) == StepError(steps[1..][j - 1], replies[1..][j - 1], size)
      {
      }
    }
  }

  /** The exchange stops at the i-th call exactly when that call is the
      first to fail: a failure ends the sequence and nothing after it is
      sent. */
  lemma FailureStops(replies: seq<Reply>, size: nat, i: int)
    requires |replies| == |Order| && 0 <= i < |Order|
    ensures var s := Run(replies, size);
      (s.outcome.Aborted? && s.issued == Order[..i + 1]) <==>
      (StepError(Order[i], replies[i], size).Some? && NoErrorBefore(replies, size, i))
  {
    RunStepsStops(Order, replies, size, i);
  }

  /** Every call is made, and the exchange finishes, exactly when none of
      them fails. */
  lemma {:induction false} RunStepsFinishes(steps: seq<Step>, replies: seq<Reply>, size: nat)
    requires |steps| == |replies|
    ensures RunSteps(steps, replies, size).outcome.Finished? <==>
      forall j | 0 <= j < |steps| :: StepError(steps[j], replies[j], size).None?
    decreases |steps|
  {
    if 0 < |steps| && StepError(steps[0], replies[0], size).None? {
      RunStepsFinishes(steps[1..], replies[1..], size);
      forall j | 1 <= j < |steps|
        ensures StepError(steps[j], replies[j], size) == StepError(steps[1..][j - 1], replies[1..][j - 1], size)
      {
      }
    }
  }

  lemma Finishes(replies: seq<Reply>, size: nat)
    requires |replies| == |Order|
    ensures Run(replies, size).outcome.Finished? <==> NoErrorBefore(replies, size, |Order|)
  {
    RunStepsFinishes(Order, replies, size);
  }

  /** Replies to `Mail` calls do not matter: two runs whose replies agree
      on every other call go the same way. */
  lemma {:induction false} MailRepliesIgnored(steps: seq<Step>, a: seq<Reply>, b: seq<Reply>, size: nat)
    requires |steps| == |a| == |b|
    requires forall j | 0 <= j < |steps| :: steps[j] == Mail || a[j] == b[j]
    ensures RunSteps(steps, a, size) == RunSteps(steps, b, size)
    decreases |steps|
  {
    if 0 < |steps| {
      MailRepliesIgnored(steps[1..], a[1..], b[1..], size);
    }
  }

  /** Whatever `Mail` returns, the exchange goes the same way: a rejected
      sender does not stop the program. */
  lemma MailReplyIgnored(replies: seq<Reply>, size: nat, r: Reply)
    requires |replies| == |Order|
    ensures Run(replies[1 := r], size) == Run(replies, size)
  {
    MailRepliesIgnored(Order, replies[1 := r], replies, size);
  }

  /** The first `i` calls have no error to act on when `NewClient` and
      every later call among them (apart from `Mail`) returned none. */
  lemma CallsSucceeded(replies: seq<Reply>, size: nat, i: int)
    requires |replies| == |Order| && 0 <= i <= 4
    requires forall j | 0 <= j < i && j != 1 :: replies[j].err.None?
    ensures NoErrorBefore(replies, size, i)
  {
    forall j | 0 <= j < i
      ensures StepError(Order[j], replies[j], size).None?
    {
      if j == 0 {
        assert Order[0] == NewClient;
      } else if j == 1 {
        assert Order[1] == Mail;
      } else if j == 2 {
        assert Order[2] == Rcpt;
      } else {
        assert Order[3] == Data;
      }
    }
  }

  /** A write that reports no error but fewer bytes than the message holds
      stops the exchange with `io.ErrShortWrite`; `Close` and `Quit` are
      not called. */
  lemma ShortWriteAborts(replies: seq<Reply>, size: nat)
    requires |replies| == |Order|
    requires replies[0].err.None? && replies[2].err.None? && replies[3].err.None?
    requires replies[4].err.None? && replies[4].written < size
    ensures Run(replies, size) == Session([NewClient, Mail, Rcpt, Data, Write], Aborted(Write, ShortWrite))
  {
    assert Order[4] == Write;
    assert StepError(Order[4], replies[4], size) == Some(ShortWrite);
    CallsSucceeded(replies, size, 4);
    FailureStops(replies, size, 4);
    var s := Run(replies, size);
    assert s.issued == Order[..5] == [NewClient, Mail, Rcpt, Data, Write];
    assert s.outcome.step == Write;
  }

  /** An error the write itself returns is the one reported, whatever
      byte count came with it. */
  lemma WriteErrorKept(replies: seq<Reply>, size: nat)
    requires |replies| == |Order|
    requires replies[0].err.None? && replies[2].err.None? && replies[3].err.None?
    requires replies[4].err.Some?
    ensures Run(replies, size)
      == Session([NewClient, Mail, Rcpt, Data, Write], Aborted(Write, Failed(replies[4].err.value)))
  {
    assert Order[4] == Write;
    assert StepError(Order[4], replies[4], size) == Some(Failed(replies[4].err.value));
    CallsSucceeded(replies, size, 4);
    FailureStops(replies, size, 4);
    var s := Run(replies, size);
    assert s.issued == Order[..5] == [NewClient, Mail, Rcpt, Data, Write];
    assert s.outcome.step == Write;
  }

  /** A rejected recipient stops the exchange before `Data`: no message
      is sent. */
  lemma RcptRejectionStops(replies: seq<Reply>, size: nat)
    requires |replies| == |Order| && replies[0].err.None? && replies[2].err.Some?
    ensures Run(replies, size)
      == Session([NewClient, Mail, Rcpt], Aborted(Rcpt, Failed(replies[2].err.value)))
  {
    assert Order[2] == Rcpt;
    assert StepError(Order[2], replies[2], size) == Some(Failed(replies[2].err.value));
    CallsSucceeded(replies, size, 2);
    FailureStops(replies, size, 2);
    var s := Run(replies, size);
    assert s.issued == Order[..3] == [NewClient, Mail, Rcpt];
    assert s.outcome.step == Rcpt;
  }
}
