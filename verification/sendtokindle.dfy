/** `sendToKindle`: read the file, build the message, find the recipient
    domain's mail exchanger, and hand the message over SMTP. Everything
    the program asks of the outside world (the file system, DNS, the TCP
    dial and the SMTP server's replies) is an input; what it does is the
    list of actions it takes and how it ends. A `log.Fatal` ends the run
    with a failure and, because it exits the process, skips the deferred
    close of the connection. */
module SendToKindle {
  import opened Results
  import Base64
  import Mime
  import Address
  import Smtp
  import Substrings

  /** An MX record as `net.LookupMX` returns it. */
  datatype Mx = Mx(host: string, pref: int)

  /** The outside world's answers: the file's bytes or the read error, the
      MX records or the lookup error, the dial's error if any, and what
      each SMTP call returns if it is made. */
  datatype World = World(
    file: Result<seq<Base64.byte>, string>,
    mx: Result<seq<Mx>, string>,
    dial: Option<string>,
    replies: seq<Smtp.Reply>)

  datatype Action =
    | ReadFile(path: string)
    | LookupMx(domain: string)
    | Dial(network: string, address: string)
    | Call(step: Smtp.Step, arg: string)
    | CloseConn

  datatype Failure =
    | ReadFailed(readErr: string)
    | NoAt
    | LookupFailed(lookupErr: string)
    | NoMxRecords
    | DialFailed(dialErr: string)
    | SessionFailed(step: Smtp.Step, err: Smtp.Error)

  datatype Status = Sent | Fatal(failure: Failure)

  datatype Execution = Execution(actions: seq<Action>, status: Status)

  /** The host name handed to `smtp.NewClient`, and the envelope sender. */
  const ClientHost: string := "ceh.bz"
  const Sender: string := "ceh@ceh.bz"

  /** The host and port dialed for an MX host: `fmt.Sprintf("%s:25", host)`. */
  function MxAddress(host: string): (a: string)
    ensures |a| == |host| + 3 && a[..|host|] == host && a[|host|..] == ":25"
  {
    host + ":25"
  }

  /** What each SMTP call carries: the host name, the sender, the
      recipient, or (for the body's write) the whole message. */
  function CallArg(step: Smtp.Step, to: string, m: string): string
  {
    match step
    case NewClient => ClientHost
    case Mail => Sender
    case Rcpt => to
    case Write => m
    case _ => ""
  }

  function Calls(steps: seq<Smtp.Step>, to: string, m: string): (r: seq<Action>)
    ensures |r| == |steps|
    ensures forall i | 0 <= i < |steps| :: r[i] == Call(steps[i], CallArg(steps[i], to, m))
  {
    seq(|steps|, i requires 0 <= i < |steps| => Call(steps[i], CallArg(steps[i], to, m)))
  }

  /** One run of `sendtokindle <to> <path>`: the file is read first, and
      the rest of the run works on the message built from it. */
  function SendToKindle(to: string, path: string, w: World): (e: Execution)
    requires |w.replies| == |Smtp.Order|
    ensures |e.actions| > 0 && e.actions[0] == ReadFile(path)
  {
    if w.file.Err? then Execution([ReadFile(path)], Fatal(ReadFailed(w.file.error)))
    else
      var d := Deliver(to, Mime.Build(to, path, w.file.value), w);
      Execution([ReadFile(path)] + d.actions, d.status)
  }

  /** Everything after the file is read, for the message `m`: find the
      domain, look up its mail exchanger, dial it, and run the SMTP calls;
      the deferred close happens only when the function returns normally. */
  function Deliver(to: string, m: string, w: World): (e: Execution)
    requires |w.replies| == |Smtp.Order|
    ensures CloseConn in e.actions <==> e.status == Sent
  {
    match Address.Domain(to)
    case Err(_) => Execution([], Fatal(NoAt))
    case Ok(domain) =>
      var looked := [LookupMx(domain)];
      if w.mx.Err? then Execution(looked, Fatal(LookupFailed(w.mx.error)))
      else if |w.mx.value| == 0 then Execution(looked, Fatal(NoMxRecords))
      else
        var dialed := looked + [Dial("tcp4", MxAddress(w.mx.value[0].host))];
        if w.dial.Some? then Execution(dialed, Fatal(DialFailed(w.dial.value)))
        else
          var x := Exchange(to, m, w.replies);
          Execution(dialed + x.actions, x.status)
  }

  /** The SMTP session on the open connection: the calls made, in order,
      and the deferred close once `QUIT` has succeeded. The close of the
      connection that `net/smtp` makes itself is not an action here. */
  function Exchange(to: string, m: string, replies: seq<Smtp.Reply>): (e: Execution)
    requires |replies| == |Smtp.Order|
    ensures CloseConn in e.actions <==> e.status == Sent
  {
    var s := Smtp.Run(replies, |m|);
    var calls := Calls(s.issued, to, m);
    match s.outcome
    case Finished => Execution(calls + [CloseConn], Sent)
    case Aborted(step, err) => Execution(calls, Fatal(SessionFailed(step, err)))
  }

  /** The session ends well, and the deferred close runs, exactly when no
      call fails whose error the program acts on: `MAIL`'s error is
      dropped, and a short write is a failure. */
  lemma ExchangeSentIff(to: string, m: string, replies: seq<Smtp.Reply>)
    requires |replies| == |Smtp.Order|
    ensures var x := Exchange(to, m, replies);
      && (x.status == Sent <==> Smtp.NoErrorBefore(replies, |m|, |Smtp.Order|))
      && (CloseConn in x.actions <==> Smtp.NoErrorBefore(replies, |m|, |Smtp.Order|))
  {
    Smtp.Finishes(replies, |m|);
  }

  /** The session makes SMTP calls and closes the connection, nothing
      else, and each call carries its own argument: the host name, the
      sender, the recipient, or (for the body's write) the message. */
  lemma ExchangeActions(to: string, m: string, replies: seq<Smtp.Reply>)
    requires |replies| == |Smtp.Order|
    ensures var x := Exchange(to, m, replies);
      forall k | 0 <= k < |x.actions| ::
        x.actions[k].CloseConn? || (x.actions[k].Call? && x.actions[k].arg == CallArg(x.actions[k].step, to, m))
  {
    var x := Exchange(to, m, replies);
    var calls := Calls(Smtp.Run(replies, |m|).issued, to, m);
    forall k | 0 <= k < |x.actions|
      ensures x.actions[k].CloseConn? || (x.actions[k].Call? && x.actions[k].arg == CallArg(x.actions[k].step, to, m))
    {
      if k < |calls| {
        assert x.actions[k] == calls[k];
      }
    }
  }

  /** The session's actions are SMTP calls and the close. */
  lemma ExchangeKinds(to: string, m: string, replies: seq<Smtp.Reply>)
    requires |replies| == |Smtp.Order|
    ensures var x := Exchange(to, m, replies);
      forall k | 0 <= k < |x.actions| :: x.actions[k].Call? || x.actions[k].CloseConn?
  {
    var x := Exchange(to, m, replies);
    var calls := Calls(Smtp.Run(replies, |m|).issued, to, m);
    forall k | 0 <= k < |x.actions|
      ensures x.actions[k].Call? || x.actions[k].CloseConn?
    {
      if k < |calls| {
        assert x.actions[k] == calls[k];
      }
    }
  }

  /** The stages before the SMTP exchange succeeded: the address has an
      '@', the lookup gave at least one record, and the dial went through. */
  predicate Connected(to: string, w: World)
  {
    '@' in to && w.mx.Ok? && |w.mx.value| > 0 && w.dial.None?
  }

  /** The file is read once, before anything else. A read error ends the
      run right there with that error, and it is the only way a run ends
      in a read failure. */
  lemma ReadFirst(to: string, path: string, w: World)
    requires |w.replies| == |Smtp.Order|
    ensures var e := SendToKindle(to, path, w);
      && (forall k | 0 < k < |e.actions| :: !e.actions[k].ReadFile?)
      && (e.status.Fatal? && e.status.failure.ReadFailed? <==> w.file.Err?)
      && (w.file.Err? ==> e.actions == [ReadFile(path)] && e.status.failure.readErr == w.file.error)
  {
    if w.file.Ok? {
      AfterRead(to, path, w);
      ReadOnce(to, path, Mime.Build(to, path, w.file.value), w, SendToKindle(to, path, w));
    }
  }

  /** A run that reads the file and then delivers `m` reads nothing more
      and does not end in a read failure. */
  lemma ReadOnce(to: string, path: string, m: string, w: World, e: Execution)
    requires |w.replies| == |Smtp.Order|
    requires e == Execution([ReadFile(path)] + Deliver(to, m, w).actions, Deliver(to, m, w).status)
    ensures forall k | 0 < k < |e.actions| :: !e.actions[k].ReadFile?
    ensures !(e.status.Fatal? && e.status.failure.ReadFailed?)
  {
    var d := Deliver(to, m, w);
    DeliverNeverReads(to, m, w);
    forall k | 0 < k < |e.actions|
      ensures !e.actions[k].ReadFile?
    {
      assert e.actions[k] == d.actions[k - 1];
    }
  }

  /** Nothing after the file is read reads a file or fails as a read. */
  lemma DeliverNeverReads(to: string, m: string, w: World)
    requires |w.replies| == |Smtp.Order|
    ensures var e := Deliver(to, m, w);
      && (forall k | 0 <= k < |e.actions| :: !e.actions[k].ReadFile?)
      && !(e.status.Fatal? && e.status.failure.ReadFailed?)
  {
    DeliverReadsNothing(to, m, w);
  }

  lemma DeliverReadsNothing(to: string, m: string, w: World)
    requires |w.replies| == |Smtp.Order|
    ensures NoRead(Deliver(to, m, w).actions)
  {
    if Connected(to, w) {
      var x := Exchange(to, m, w.replies);
      var dialed := [LookupMx(Address.Domain(to).value)] + [Dial("tcp4", MxAddress(w.mx.value[0].host))];
      DeliverConnected(to, m, w);
      ExchangeKinds(to, m, w.replies);
      NoReadDialed(Address.Domain(to).value, MxAddress(w.mx.value[0].host));
      NoReadJoin(dialed, x.actions);
    }
  }

  predicate NoRead(acts: seq<Action>)
  {
    forall k | 0 <= k < |acts| :: !acts[k].ReadFile?
  }

  lemma NoReadDialed(domain: string, address: string)
    ensures NoRead([LookupMx(domain)] + [Dial("tcp4", address)])
  {
    var d := [LookupMx(domain)] + [Dial("tcp4", address)];
    assert d[0] == LookupMx(domain) && d[1] == Dial("tcp4", address);
  }

  lemma NoReadJoin(a: seq<Action>, b: seq<Action>)
    requires NoRead(a) && NoRead(b)
    ensures NoRead(a + b)
  {
    forall k | 0 <= k < |a + b|
      ensures !(a + b)[k].ReadFile?
    {
      if k < |a| {
        assert (a + b)[k] == a[k];
      } else {
        assert (a + b)[k] == b[k - |a|];
      }
    }
  }

  /** The body written over SMTP is the message built from the file: the
      recipient, the path's base name and the file's bytes in base64. */
  lemma WritesBuiltMessage(to: string, path: string, w: World, k: int)
    requires |w.replies| == |Smtp.Order|
    requires var e := SendToKindle(to, path, w);
      0 <= k < |e.actions| && e.actions[k].Call? && e.actions[k].step == Smtp.Write
    ensures w.file.Ok?
    ensures SendToKindle(to, path, w).actions[k].arg == Mime.Build(to, path, w.file.value)
  {
    AfterRead(to, path, w);
    WriteAfterRead(to, path, Mime.Build(to, path, w.file.value), w, SendToKindle(to, path, w), k);
  }

  /** In a run that reads the file and then delivers `m`, every write of
      the body writes `m`. */
  lemma WriteAfterRead(to: string, path: string, m: string, w: World, e: Execution, k: int)
    requires |w.replies| == |Smtp.Order|
    requires e == Execution([ReadFile(path)] + Deliver(to, m, w).actions, Deliver(to, m, w).status)
    requires 0 <= k < |e.actions| && e.actions[k].Call? && e.actions[k].step == Smtp.Write
    ensures e.actions[k].arg == m
  {
    var d := Deliver(to, m, w);
    assert e.actions[k] == d.actions[k - 1];
    DeliverWrites(to, m, w, k - 1);
  }

  /** A run whose file was read goes on by delivering the message built
      from it. */
  lemma AfterRead(to: string, path: string, w: World)
    requires |w.replies| == |Smtp.Order| && w.file.Ok?
    ensures var d := Deliver(to, Mime.Build(to, path, w.file.value), w);
      SendToKindle(to, path, w) == Execution([ReadFile(path)] + d.actions, d.status)
  {
  }

  /** Every write of the body, once connected, writes the message `m`. */
  lemma DeliverWrites(to: string, m: string, w: World, k: int)
    requires |w.replies| == |Smtp.Order|
    requires var e := Deliver(to, m, w);
      0 <= k < |e.actions| && e.actions[k].Call? && e.actions[k].step == Smtp.Write
    ensures Deliver(to, m, w).actions[k].arg == m
  {
    assert Connected(to, w);
    var x := Exchange(to, m, w.replies);
    var dialed := [LookupMx(Address.Domain(to).value)] + [Dial("tcp4", MxAddress(w.mx.value[0].host))];
    DeliverConnected(to, m, w);
    ExchangeCallArg(to, m, w.replies, k - 2);
    WriteAt(Deliver(to, m, w).actions, dialed, x.actions, k, to, m);
  }

  /** A call of the session has the argument its step carries. */
  lemma ExchangeCallArg(to: string, m: string, replies: seq<Smtp.Reply>, k: int)
    requires |replies| == |Smtp.Order|
    ensures var x := Exchange(to, m, replies);
      0 <= k < |x.actions| && x.actions[k].Call? ==> x.actions[k].arg == CallArg(x.actions[k].step, to, m)
  {
    ExchangeActions(to, m, replies);
  }

  /** A write found after the lookup and the dial is a write of the session. */
  lemma WriteAt(acts: seq<Action>, dialed: seq<Action>, xs: seq<Action>, k: int, to: string, m: string)
    requires acts == dialed + xs && |dialed| == 2 && dialed[0].LookupMx? && dialed[1].Dial?
    requires 0 <= k < |acts| && acts[k].Call? && acts[k].step == Smtp.Write
    requires 0 <= k - 2 < |xs| && xs[k - 2].Call? ==> xs[k - 2].arg == CallArg(xs[k - 2].step, to, m)
    ensures acts[k].arg == m
  {
    if k >= 2 {
      assert acts[k] == xs[k - 2];
    }
  }

  /** An address without '@' is refused, and nothing is looked up. */
  lemma NoAtStops(to: string, m: string, w: World)
    requires |w.replies| == |Smtp.Order|
    ensures var e := Deliver(to, m, w);
      (e.status == Fatal(NoAt) <==> '@' !in to) && ('@' !in to ==> e.actions == [])
  {
  }

  /** The domain looked up is what follows the last '@' of the address. */
  lemma LookupDomain(to: string, m: string, w: World, i: int)
    requires |w.replies| == |Smtp.Order|
    requires var e := Deliver(to, m, w); 0 <= i < |e.actions| && e.actions[i].LookupMx?
    ensures var d := Deliver(to, m, w).actions[i].domain;
      i == 0 && '@' !in d && Substrings.OccursAt(to, "@" + d, |to| - |d| - 1)
  {
    var e := Deliver(to, m, w);
    assert Address.Domain(to).Ok?;
    Address.DomainAfterLastAt(to);
    if Connected(to, w) {
      var x := Exchange(to, m, w.replies);
      var dialed := [LookupMx(Address.Domain(to).value)] + [Dial("tcp4", MxAddress(w.mx.value[0].host))];
      DeliverConnected(to, m, w);
      ExchangeKinds(to, m, w.replies);
      forall k | 2 <= k < |e.actions|
        ensures !e.actions[k].LookupMx?
      {
        assert e.actions[k] == x.actions[k - 2];
      }
    }
  }

  /** A failed lookup ends the run: no connection is dialed. */
  lemma LookupFailureStops(to: string, m: string, w: World)
    requires |w.replies| == |Smtp.Order| && '@' in to && w.mx.Err?
    ensures var e := Deliver(to, m, w);
      && e.status == Fatal(LookupFailed(w.mx.error))
      && e.actions == [LookupMx(Address.Domain(to).value)]
      && forall a | a in e.actions :: !a.Dial?
  {
  }

  /** The only address dialed is port 25 of the first MX record's host, in
      the order the lookup returned the records. */
  lemma DialTarget(to: string, m: string, w: World, i: int)
    requires |w.replies| == |Smtp.Order|
    requires var e := Deliver(to, m, w); 0 <= i < |e.actions| && e.actions[i].Dial?
    ensures w.mx.Ok? && |w.mx.value| > 0
    ensures Deliver(to, m, w).actions[i] == Dial("tcp4", w.mx.value[0].host + ":25")
  {
    if Connected(to, w) {
      var e := Deliver(to, m, w);
      var x := Exchange(to, m, w.replies);
      var dialed := [LookupMx(Address.Domain(to).value)] + [Dial("tcp4", MxAddress(w.mx.value[0].host))];
      DeliverConnected(to, m, w);
      ExchangeKinds(to, m, w.replies);
      forall k | 2 <= k < |e.actions|
        ensures !e.actions[k].Dial?
      {
        assert e.actions[k] == x.actions[k - 2];
      }
      assert e.actions[i] == dialed[i];
      assert MxAddress(w.mx.value[0].host) == w.mx.value[0].host + ":25";
    }
  }

  /** The program does not reorder the records: it dials `mxs[0]` as the
      lookup returned it, whatever the preferences of the records say. */
  lemma FirstRecordDialed(to: string, m: string, w: World, pref: int)
    requires |w.replies| == |Smtp.Order| && '@' in to
    requires w.mx.Ok? && |w.mx.value| > 0
    ensures Deliver(to, m, w).actions[1] == Dial("tcp4", w.mx.value[0].host + ":25")
    ensures var first := w.mx.value[0].(pref := pref);
      Deliver(to, m, w.(mx := Ok([first] + w.mx.value[1..]))) == Deliver(to, m, w)
  {
  }

  /** The run ends well exactly when every stage succeeds and no SMTP call
      fails whose error the program acts on (`MAIL`'s is dropped, and a
      short write is a failure); only then does the deferred close run. */
  lemma SentIff(to: string, m: string, w: World)
    requires |w.replies| == |Smtp.Order|
    ensures Deliver(to, m, w).status == Sent <==>
      Connected(to, w) && Smtp.NoErrorBefore(w.replies, |m|, |Smtp.Order|)
  {
    if Connected(to, w) {
      Smtp.Finishes(w.replies, |m|);
    }
  }

  /** A successful run makes every call in order, names the recipient in
      `RCPT`, writes the whole message, and closes the connection last. */
  lemma SentActions(to: string, m: string, w: World)
    requires |w.replies| == |Smtp.Order| && Deliver(to, m, w).status == Sent
    ensures '@' in to && w.mx.Ok? && |w.mx.value| > 0
    ensures Deliver(to, m, w).actions ==
      [LookupMx(Address.Domain(to).value)] + [Dial("tcp4", MxAddress(w.mx.value[0].host))]
      + [Call(Smtp.NewClient, ClientHost), Call(Smtp.Mail, Sender), Call(Smtp.Rcpt, to),
         Call(Smtp.Data, ""), Call(Smtp.Write, m), Call(Smtp.Close, ""), Call(Smtp.Quit, "")]
      + [CloseConn]
  {
    assert Connected(to, w);
    var x := Exchange(to, m, w.replies);
    var dialed := [LookupMx(Address.Domain(to).value)] + [Dial("tcp4", MxAddress(w.mx.value[0].host))];
    DeliverConnected(to, m, w);
    ExchangeSent(to, m, w.replies);
    CallsOfOrder(Smtp.Order, to, m);
    assert Deliver(to, m, w).actions == dialed + (Calls(Smtp.Order, to, m) + [CloseConn]);
  }

  /** Once connected, the run goes on with the SMTP session. */
  lemma DeliverConnected(to: string, m: string, w: World)
    requires |w.replies| == |Smtp.Order| && Connected(to, w)
    ensures var x := Exchange(to, m, w.replies);
      Deliver(to, m, w) == Execution(
        [LookupMx(Address.Domain(to).value)] + [Dial("tcp4", MxAddress(w.mx.value[0].host))] + x.actions,
        x.status)
  {
  }

  /** A session that ends well made every call of the order and then closed. */
  lemma ExchangeSent(to: string, m: string, replies: seq<Smtp.Reply>)
    requires |replies| == |Smtp.Order|
    ensures Exchange(to, m, replies).status == Sent ==>
      Exchange(to, m, replies).actions == Calls(Smtp.Order, to, m) + [CloseConn]
  {
  }

  lemma CallsOfOrder(steps: seq<Smtp.Step>, to: string, m: string)
    requires steps == Smtp.Order
    ensures Calls(steps, to, m) ==
      [Call(Smtp.NewClient, ClientHost), Call(Smtp.Mail, Sender), Call(Smtp.Rcpt, to),
       Call(Smtp.Data, ""), Call(Smtp.Write, m), Call(Smtp.Close, ""), Call(Smtp.Quit, "")]
  {
  }

  /** Whatever the server answers to `MAIL`, the run goes the same way. */
  lemma MailReplyIgnored(to: string, m: string, w: World, r: Smtp.Reply)
    requires |w.replies| == |Smtp.Order|
    ensures Deliver(to, m, w.(replies := w.replies[1 := r])) == Deliver(to, m, w)
  {
    Smtp.MailReplyIgnored(w.replies, |m|, r);
    SameSession(to, m, w.(replies := w.replies[1 := r]), w);
  }

  /** Two worlds that agree on every answer before the SMTP exchange and
      whose exchanges go the same way give the same run. */
  lemma SameSession(to: string, m: string, w1: World, w2: World)
    requires |w1.replies| == |Smtp.Order| && |w2.replies| == |Smtp.Order|
    requires w1.mx == w2.mx && w1.dial == w2.dial
    requires Smtp.Run(w1.replies, |m|) == Smtp.Run(w2.replies, |m|)
    ensures Deliver(to, m, w1) == Deliver(to, m, w2)
  {
  }

  /** A write of fewer bytes than the message holds, with no error, ends
      the run with `io.ErrShortWrite` and the connection left open. */
  lemma ShortWriteFails(to: string, m: string, w: World)
    requires |w.replies| == |Smtp.Order| && Connected(to, w)
    requires w.replies[0].err.None? && w.replies[2].err.None? && w.replies[3].err.None?
    requires w.replies[4].err.None? && w.replies[4].written < |m|
    ensures var e := Deliver(to, m, w);
      e.status == Fatal(SessionFailed(Smtp.Write, Smtp.ShortWrite)) && CloseConn !in e.actions
  {
    Smtp.ShortWriteAborts(w.replies, |m|);
  }
}
