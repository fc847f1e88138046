/** A live query over the wire: Reanchor callers, the client's stream reader and delta
    buffer, two bounded FIFO channels, and the server's receive, control and delta loops. */
module LiveStream {
  import opened LiveBuffer
  import opened Wrappers

  const WIRE := 16

  datatype Frame = Delta(d: Payload) | Reply(r: Payload)

  /** The server's answer to the req-th Reanchor. */
  datatype Answer = Answer(req: nat, r: Payload)

  /** A Reanchor holds the mutex while it is `sending` its request and while it is `waiting`
      for the reply. `results`: what finished calls whose request was sent returned, None for
      an error. */
  datatype Caller = Caller(sending: bool, waiting: bool, results: seq<Option<Payload>>)

  /** The server's delta goroutine: in its select, inside a send, or finished. */
  datatype Deltas = Polling | Sending(d: Payload) | Finished

  /** `hand`: the request held by the receive goroutine. `busy`: the reply the control loop
      is sending. `ended`: the handler has returned and outbound is closed. `answers`, the
      deltas `taken` from the live query and `sent`, and `mark`, how many were sent before the
      last reply, are histories. */
  datatype Server = Server(
    hand: Option<nat>, busy: Option<Payload>, deltas: Deltas, ended: bool, answers: seq<Answer>,
    taken: seq<Payload>, sent: seq<Payload>, mark: nat)

  /** The reader goroutine; the last five are its deferred calls, in order. */
  datatype Reader =
    | Reading | Pushing | Handing(r: Payload)
    | CloseReplies | CloseBuffer | LastSignal | CloseStream | Exited

  /** `replies` is the size-one reply channel; `closed` says the stream's context is
      cancelled, by the reader's last deferred call or by closing the handle. */
  datatype Client = Client(reader: Reader, replies: seq<Payload>, repliesClosed: bool, closed: bool, buf: Buf)

  datatype Live = Live(caller: Caller, inbound: seq<nat>, server: Server, outbound: seq<Frame>, client: Client)

  const START := Live(
    Caller(false, false, []), [], Server(None, None, Polling, false, [], [], [], 0), [], Client(Reading, [], false, false, EMPTY))

  /** `End(done)`: the handler returns, because its delta goroutine is done or otherwise. */
  datatype ServerLabel =
    | Recv | Compute(r: Payload) | SendReply
    | TakeDelta(d: Payload) | SendDelta | StopDeltas
    | End(done: bool)

  datatype ReaderLabel = Take | PushSignal | HandOver | Eof | Cancelled | Unwind

  datatype Label = Ask | SendRequest | SendFails | Return | CloseHandle | OnServer(v: ServerLabel) | OnReader(r: ReaderLabel) | OnPump(a: Step)

  // ---- steps ----

  predicate Unwinding(r: Reader) {
    r.CloseReplies? || r.CloseBuffer? || r.LastSignal? || r.CloseStream? || r.Exited?
  }

  /** After the handler has returned its delta goroutine may still take a delta or stop. */
  predicate ServerCan(s: Live, v: ServerLabel) {
    match v
    case Recv => !s.server.ended && s.server.hand.None? && s.inbound != []
    case Compute(_) => !s.server.ended && s.server.busy.None? && s.server.hand.Some?
    case SendReply => !s.server.ended && s.server.busy.Some? && |s.outbound| < WIRE
    case TakeDelta(_) => s.server.deltas.Polling?
    case SendDelta => !s.server.ended && s.server.deltas.Sending? && |s.outbound| < WIRE
    case StopDeltas => s.server.deltas.Polling?
    case End(done) => !s.server.ended && (done ==> s.server.deltas.Finished?)
  }

  predicate ReaderCan(s: Live, r: ReaderLabel) {
    match r
    case Take => s.client.reader.Reading? && s.outbound != []
    case PushSignal => s.client.reader.Pushing?
    case HandOver => s.client.reader.Handing? && s.client.replies == []
    case Eof => s.client.reader.Reading? && s.outbound == [] && s.server.ended
    case Cancelled => s.client.reader.Handing?
    case Unwind => Unwinding(s.client.reader) && !s.client.reader.Exited?
  }

  ghost predicate CanStep(s: Live, a: Label) {
    match a
    case Ask => !s.caller.sending && !s.caller.waiting
    case SendRequest => s.caller.sending && !s.caller.waiting && |s.inbound| < WIRE
    case SendFails => s.caller.sending && s.client.closed
    case CloseHandle => true
    case Return => s.caller.waiting && (s.client.replies != [] || s.client.repliesClosed)
    case OnServer(v) => ServerCan(s, v)
    case OnReader(r) => ReaderCan(s, r)
    case OnPump(b) => PumpStep(b) && Enabled(s.client.buf, b)
  }

  function AfterServer(s: Live, v: ServerLabel): Live
    requires ServerCan(s, v)
  {
    var x := s.server;
    match v
    case Recv => s.(server := x.(hand := Some(s.inbound[0])), inbound := s.inbound[1..])
    case Compute(r) => s.(server := x.(hand := None, busy := Some(r), answers := x.answers + [Answer(x.hand.value, r)]))
    case SendReply => s.(server := x.(busy := None, mark := |x.sent|), outbound := s.outbound + [Reply(x.busy.value)])
    case TakeDelta(d) => s.(server := x.(deltas := Sending(d), taken := x.taken + [d]))
    case SendDelta => s.(server := x.(deltas := Polling, sent := x.sent + [x.deltas.d]), outbound := s.outbound + [Delta(x.deltas.d)])
    case StopDeltas => s.(server := x.(deltas := Finished))
    case End(_) => s.(server := x.(ended := true, hand := None, busy := None))
  }

  function AfterReader(s: Live, r: ReaderLabel): Live
    requires ReaderCan(s, r) && Sync(s.client)
  {
    var c := s.client;
    match r
    case Take => (
      match s.outbound[0]
      case Delta(d) => s.(outbound := s.outbound[1..], client := c.(reader := Pushing, buf := After(c.buf, Push(d))))
      case Reply(r) => s.(outbound := s.outbound[1..], client := c.(reader := Handing(r))))
    case PushSignal => s.(client := c.(reader := Reading, buf := After(c.buf, Signal)))
    case HandOver => s.(client := c.(reader := Reading, replies := [c.reader.r]))
    case Eof => s.(client := c.(reader := CloseReplies))
    case Cancelled => s.(client := c.(reader := CloseReplies))
    case Unwind => s.(client := Unwound(c))
  }

  /** The deferred calls: close the reply channel, close the buffer and signal it, close
      the stream. */
  function Unwound(c: Client): Client
    requires Sync(c)
  {
    match c.reader
    case CloseReplies => c.(repliesClosed := true, reader := CloseBuffer)
    case CloseBuffer => c.(buf := After(c.buf, Close), reader := LastSignal)
    case LastSignal => c.(buf := After(c.buf, Signal), reader := CloseStream)
    case _ => c.(closed := true, reader := Exited)
  }

  function AfterReturn(s: Live): Live {
    var results, replies := s.caller.results, s.client.replies;
    if replies != [] then
      s.(caller := s.caller.(waiting := false, results := results + [Some(replies[0])]), client := s.client.(replies := replies[1..]))
    else
      s.(caller := s.caller.(waiting := false, results := results + [None]))
  }

  function AfterStep(s: Live, a: Label): Live
    requires CanStep(s, a) && Sync(s.client)
  {
    match a
    case Ask => s.(caller := s.caller.(sending := true))
    case SendRequest =>
      s.(caller := s.caller.(sending := false, waiting := true), inbound := s.inbound + [|s.caller.results|])
    case SendFails => s.(caller := s.caller.(sending := false))
    case CloseHandle => s.(client := s.client.(closed := true))
    case Return => AfterReturn(s)
    case OnServer(v) => AfterServer(s, v)
    case OnReader(r) => AfterReader(s, r)
    case OnPump(b) => s.(client := s.client.(buf := After(s.client.buf, b)))
  }

  // ---- invariants ----

  /** The reader is the buffer's only pusher, and what it does next fits the buffer. */
  ghost predicate Sync(c: Client) {
    && (c.buf.pusher.Signalling? <==> c.reader.Pushing? || c.reader.LastSignal?)
    && (c.buf.closed <==> c.reader.LastSignal? || c.reader.CloseStream? || c.reader.Exited?)
    && (c.repliesClosed <==> Unwinding(c.reader) && !c.reader.CloseReplies?)
    && (c.reader.Exited? ==> c.closed)
  }

  function DeltasIn(out: seq<Frame>): seq<Payload> {
    if out == [] then [] else (if out[0].Delta? then [out[0].d] else []) + DeltasIn(out[1..])
  }

  function Replies(out: seq<Frame>): seq<Payload> {
    if out == [] then [] else (if out[0].Reply? then [out[0].r] else []) + Replies(out[1..])
  }

  lemma {:induction false} FramesSnoc(out: seq<Frame>, f: Frame)
    ensures DeltasIn(out + [f]) == DeltasIn(out) + (if f.Delta? then [f.d] else [])
    ensures Replies(out + [f]) == Replies(out) + (if f.Reply? then [f.r] else [])
  {
    if out != [] {
      assert (out + [f])[1..] == out[1..] + [f];
      FramesSnoc(out[1..], f);
    }
  }

  /** Deltas reach the buffer in the order the live query gave them, none missing, none twice. */
  ghost predicate InOrder(s: Live) {
    && s.server.taken == s.server.sent + (if s.server.deltas.Sending? then [s.server.deltas.d] else [])
    && s.server.sent == s.client.buf.received + DeltasIn(s.outbound)
  }

  /** The deltas ahead of the first reply. */
  function Ahead(out: seq<Frame>): nat {
    if out == [] || out[0].Reply? then 0 else 1 + Ahead(out[1..])
  }

  /** A reply on its way comes after every delta that was sent before it. */
  ghost predicate Behind(s: Live) {
    !Unwinding(s.client.reader) ==>
      && (Replies(s.outbound) != [] ==> s.server.mark <= |s.client.buf.received| + Ahead(s.outbound))
      && (s.client.reader.Handing? || s.client.replies != [] ==> s.server.mark <= |s.client.buf.received|)
  }

  function Asked(c: Caller): nat {
    |c.results| + if c.waiting then 1 else 0
  }

  /** Requests not yet answered, oldest first. */
  function Requests(s: Live): seq<nat> {
    (if s.server.hand.Some? then [s.server.hand.value] else []) + s.inbound
  }

  /** The k-th answer answers the k-th request. */
  ghost predicate Numbered(s: Live) {
    && (forall k :: 0 <= k < |s.server.answers| ==> s.server.answers[k].req == k)
    && (!s.server.ended ==>
          && |s.server.answers| + |Requests(s)| == Asked(s.caller)
          && forall i :: 0 <= i < |Requests(s)| ==> Requests(s)[i] == |s.server.answers| + i)
  }

  /** How many computed replies are still on their way to the waiting caller. */
  function OnTheWay(s: Live): nat {
    |s.client.replies| + |Replies(s.outbound)| +
    (if s.client.reader.Handing? then 1 else 0) + (if s.server.busy.Some? then 1 else 0)
  }

  /** `r` is the answer the waiting Reanchor is owed. */
  ghost predicate Owed(s: Live, r: Payload) {
    var n := |s.caller.results|;
    s.caller.waiting && n < |s.server.answers| && s.server.answers[n].r == r
  }

  /** While the reader runs, at most one reply is on its way, and it is the one owed. */
  ghost predicate Tight(s: Live) {
    && |s.caller.results| <= |s.server.answers| <= Asked(s.caller)
    && OnTheWay(s) <= |s.server.answers| - |s.caller.results|
    && (!s.server.ended ==> OnTheWay(s) == |s.server.answers| - |s.caller.results|)
    && (s.server.busy.Some? ==> Owed(s, s.server.busy.value))
    && (Replies(s.outbound) != [] ==> Owed(s, Replies(s.outbound)[0]))
    && (s.client.reader.Handing? ==> Owed(s, s.client.reader.r))
  }

  /** The k-th Reanchor returns the k-th reply, or an error. */
  ghost predicate Matched(s: Live) {
    forall k :: 0 <= k < |s.caller.results| && s.caller.results[k].Some? ==>
                  k < |s.server.answers| && s.server.answers[k] == Answer(k, s.caller.results[k].value)
  }

  /** As long as the reply channel is open no call has failed. */
  ghost predicate AllAnswered(s: Live) {
    !s.client.repliesClosed ==> forall k :: 0 <= k < |s.caller.results| ==> s.caller.results[k].Some?
  }

  ghost predicate Paired(s: Live) {
    && Matched(s) && AllAnswered(s)
    && |s.client.replies| <= 1
    && (s.client.replies != [] ==> Owed(s, s.client.replies[0]))
    && (!Unwinding(s.client.reader) ==> Tight(s))
  }

  ghost predicate LiveInv(s: Live) {
    && |s.inbound| <= WIRE && |s.outbound| <= WIRE && Sync(s.client) && Inv(s.client.buf)
    && InOrder(s) && Numbered(s) && Paired(s) && Behind(s)
  }

  // ---- server steps ----

  lemma ServerOrder(s: Live, v: ServerLabel)
    requires InOrder(s) && ServerCan(s, v)
    ensures InOrder(AfterServer(s, v))
  {
    if v.SendReply? { FramesSnoc(s.outbound, Reply(s.server.busy.value)); }
    if v.SendDelta? { FramesSnoc(s.outbound, Delta(s.server.deltas.d)); }
  }

  lemma ServerNumbers(s: Live, v: ServerLabel)
    requires Numbered(s) && ServerCan(s, v)
    ensures Numbered(AfterServer(s, v))
  {
    if v.Recv? {
      assert Requests(AfterServer(s, v)) == Requests(s);
    } else if v.Compute? {
      assert s.server.hand.value == Requests(s)[0];
      assert Requests(AfterServer(s, v)) == Requests(s)[1..];
    }
  }

  lemma SendPairs(s: Live, v: ServerLabel)
    requires Paired(s) && ServerCan(s, v) && (v.SendReply? || v.SendDelta?)
    ensures Paired(AfterServer(s, v))
  {
    FramesSnoc(s.outbound, if v.SendReply? then Reply(s.server.busy.value) else Delta(s.server.deltas.d));
  }

  lemma ServerPairs(s: Live, v: ServerLabel)
    requires Numbered(s) && Paired(s) && ServerCan(s, v)
    ensures Paired(AfterServer(s, v))
  {
    if v.SendReply? || v.SendDelta? {
      SendPairs(s, v);
    } else if v.Compute? {
      assert s.server.hand.value == Requests(s)[0];
    }
  }

  lemma {:induction false} AheadSnoc(out: seq<Frame>, f: Frame)
    ensures Replies(out) != [] ==> Ahead(out + [f]) == Ahead(out)
    ensures Replies(out) == [] && f.Reply? ==> Ahead(out + [f]) == |DeltasIn(out)|
  {
    if out != [] {
      assert (out + [f])[1..] == out[1..] + [f];
      AheadSnoc(out[1..], f);
    }
  }

  lemma ServerBehind(s: Live, v: ServerLabel)
    requires LiveInv(s) && ServerCan(s, v)
    ensures Behind(AfterServer(s, v))
  {
    if v.SendReply? {
      FramesSnoc(s.outbound, Reply(s.server.busy.value));
      AheadSnoc(s.outbound, Reply(s.server.busy.value));
    }
    if v.SendDelta? {
      FramesSnoc(s.outbound, Delta(s.server.deltas.d));
      AheadSnoc(s.outbound, Delta(s.server.deltas.d));
    }
  }

  // ---- reader steps ----

  lemma ReaderSync(s: Live, r: ReaderLabel)
    requires Sync(s.client) && Inv(s.client.buf) && ReaderCan(s, r)
    ensures Sync(AfterReader(s, r).client) && Inv(AfterReader(s, r).client.buf)
  {
    if r.Take? && s.outbound[0].Delta? { StepKeeps(s.client.buf, Push(s.outbound[0].d)); }
    if r.PushSignal? || s.client.reader.LastSignal? { StepKeeps(s.client.buf, Signal); }
    if r.Unwind? && s.client.reader.CloseBuffer? { StepKeeps(s.client.buf, Close); }
  }

  lemma ReaderOrder(s: Live, r: ReaderLabel)
    requires Sync(s.client) && InOrder(s) && ReaderCan(s, r)
    ensures InOrder(AfterReader(s, r)) && AfterReader(s, r).server == s.server
    ensures AfterReader(s, r).caller == s.caller && AfterReader(s, r).inbound == s.inbound
  {
  }

  lemma ReaderPairs(s: Live, r: ReaderLabel)
    requires Sync(s.client) && Paired(s) && ReaderCan(s, r)
    ensures Paired(AfterReader(s, r))
  {
  }

  // ---- every step, every run ----

  lemma CallerPairs(s: Live, a: Label)
    requires Sync(s.client) && Numbered(s) && Paired(s) && CanStep(s, a)
    requires a.Ask? || a.SendRequest? || a.SendFails? || a.Return? || a.CloseHandle?
    ensures Numbered(AfterStep(s, a)) && Paired(AfterStep(s, a))
  {
    if a.SendRequest? { assert Requests(AfterStep(s, a)) == Requests(s) + [|s.caller.results|]; }
  }

  lemma ServerStep(s: Live, v: ServerLabel)
    requires LiveInv(s) && ServerCan(s, v)
    ensures LiveInv(AfterServer(s, v))
  {
    ServerOrder(s, v);
    ServerNumbers(s, v);
    ServerPairs(s, v);
    ServerBehind(s, v);
  }

  lemma ReaderStep(s: Live, r: ReaderLabel)
    requires LiveInv(s) && ReaderCan(s, r)
    ensures LiveInv(AfterReader(s, r))
  {
    ReaderSync(s, r);
    ReaderOrder(s, r);
    ReaderPairs(s, r);
  }

  lemma PumpStepKeeps(s: Live, b: Step)
    requires LiveInv(s) && PumpStep(b) && Enabled(s.client.buf, b)
    ensures LiveInv(s.(client := s.client.(buf := After(s.client.buf, b))))
  {
    StepKeeps(s.client.buf, b);
  }

  lemma LiveStep(s: Live, a: Label)
    requires LiveInv(s) && CanStep(s, a)
    ensures LiveInv(AfterStep(s, a))
  {
    match a {
      case OnServer(v) => ServerStep(s, v);
      case OnReader(r) => ReaderStep(s, r);
      case OnPump(b) => PumpStepKeeps(s, b);
      case _ => CallerPairs(s, a);
    }
  }

  ghost predicate Runs(ss: seq<Live>, labels: seq<Label>) {
    && |ss| == |labels| + 1 && ss[0] == START
    && forall i :: 0 <= i < |labels| ==>
                     Sync(ss[i].client) && CanStep(ss[i], labels[i]) && ss[i + 1] == AfterStep(ss[i], labels[i])
  }

  /** In every run the k-th Reanchor returns the k-th reply or an error, and an error only
      once the reply channel is closed; the caller has been given a prefix of the deltas the
      server sent, in order. */
  lemma {:induction false} EveryRunPaired(ss: seq<Live>, labels: seq<Label>, i: nat)
    requires Runs(ss, labels) && i < |ss|
    ensures LiveInv(ss[i]) && ss[i].client.buf.delivered <= ss[i].server.sent
    ensures forall k :: 0 <= k < |ss[i].caller.results| && !ss[i].client.repliesClosed ==>
              k < |ss[i].server.answers| && ss[i].caller.results[k] == Some(ss[i].server.answers[k].r)
  {
    if i > 0 {
      EveryRunPaired(ss, labels, i - 1);
      LiveStep(ss[i - 1], labels[i - 1]);
    }
  }

  /** The step in which the k-th call returned. */
  ghost predicate ReturnedAt(ss: seq<Live>, labels: seq<Label>, j: nat, k: nat) {
    j < |labels| < |ss| && labels[j] == Return && |ss[j].caller.results| == k
  }

  /** A call fails exactly when its return found the reply channel closed and empty; otherwise it
      returns the reply that was there. */
  lemma {:induction false} ErrorsOnlyWhenClosed(ss: seq<Live>, labels: seq<Label>, i: nat, k: nat)
    requires Runs(ss, labels) && i < |ss| && k < |ss[i].caller.results|
    ensures exists j: nat :: ReturnedAt(ss, labels, j, k) && j < i &&
              ss[i].caller.results[k] == (if ss[j].client.replies == [] then None else Some(ss[j].client.replies[0])) &&
              (ss[j].client.replies == [] ==> ss[j].client.repliesClosed)
  {
    var s, a := ss[i - 1], labels[i - 1];
    assert CanStep(s, a) && ss[i] == AfterStep(s, a);
    if k < |s.caller.results| {
      assert s.caller.results <= ss[i].caller.results;
      ErrorsOnlyWhenClosed(ss, labels, i - 1, k);
    } else {
      assert a == Return && ReturnedAt(ss, labels, i - 1, k);
    }
  }

  /** The last reply before step i was sent in step j. */
  ghost predicate LastReply(labels: seq<Label>, j: nat, i: nat) {
    j < i <= |labels| && labels[j] == OnServer(SendReply) && forall k :: j < k < i ==> labels[k] != OnServer(SendReply)
  }

  /** A Reanchor never overtakes deltas: when it returns its reply, while the reader runs, every
      delta the server sent before that reply is in the client's buffer. */
  lemma ReplyComesAfterDeltas(ss: seq<Live>, labels: seq<Label>, i: nat, j: nat)
    requires Runs(ss, labels) && i < |labels| && labels[i] == Return && ss[i].client.replies != []
    requires !Unwinding(ss[i].client.reader) && LastReply(labels, j, i)
    ensures ss[j].server.sent <= ss[i].client.buf.received
  {
    EveryRunPaired(ss, labels, i);
    EveryRunPaired(ss, labels, j);
    SentGrows(ss, labels, j, i);
    MarkAfter(ss, labels, j, i);
  }

  lemma {:induction false} SentGrows(ss: seq<Live>, labels: seq<Label>, j: nat, i: nat)
    requires Runs(ss, labels) && j <= i < |ss|
    ensures ss[j].server.sent <= ss[i].server.sent
  {
    if j < i {
      SentGrows(ss, labels, j, i - 1);
      assert ss[i] == AfterStep(ss[i - 1], labels[i - 1]);
    }
  }

  lemma {:induction false} MarkAfter(ss: seq<Live>, labels: seq<Label>, j: nat, i: nat)
    requires Runs(ss, labels) && i < |ss| && LastReply(labels, j, i)
    ensures ss[i].server.mark == |ss[j].server.sent|
  {
    assert CanStep(ss[i - 1], labels[i - 1]) && ss[i] == AfterStep(ss[i - 1], labels[i - 1]);
    if j < i - 1 {
      assert LastReply(labels, j, i - 1);
      MarkAfter(ss, labels, j, i - 1);
    }
  }

  /** Sending a request fails only once the reader has exited or the handle was closed. */
  lemma {:induction false} ClosedWhy(ss: seq<Live>, labels: seq<Label>, i: nat)
    requires Runs(ss, labels) && i < |ss|
    ensures ss[i].client.closed ==> ss[i].client.reader.Exited? || CloseHandle in labels[..i]
    ensures i < |labels| && labels[i] == SendFails ==> ss[i].client.reader.Exited? || CloseHandle in labels[..i]
  {
    if i > 0 {
      ClosedWhy(ss, labels, i - 1);
      assert CanStep(ss[i - 1], labels[i - 1]) && ss[i] == AfterStep(ss[i - 1], labels[i - 1]);
      assert labels[..i] == labels[..i - 1] + [labels[i - 1]];
    }
    if i < |labels| { assert CanStep(ss[i], labels[i]); }
  }

  // ---- what each part achieves ----

  /** Nothing is under way. */
  ghost predicate Quiet(s: Live) {
    && !s.caller.sending && !s.caller.waiting && s.inbound == [] && s.outbound == []
    && s.server.hand.None? && s.server.busy.None? && !s.server.ended
    && s.client.reader.Reading? && s.client.replies == [] && Sync(s.client)
  }

  /** The steps are possible one after another and lead from s to s'. */
  ghost predicate Leads(s: Live, labels: seq<Label>, s': Live)
    decreases |labels|
  {
    if labels == [] then s' == s
    else Sync(s.client) && CanStep(s, labels[0]) && Leads(AfterStep(s, labels[0]), labels[1..], s')
  }

  lemma Then(s: Live, a: Label, s1: Live, rest: seq<Label>, s': Live)
    requires Sync(s.client) && CanStep(s, a) && AfterStep(s, a) == s1 && Leads(s1, rest, s')
    ensures Leads(s, [a] + rest, s')
  {
    assert ([a] + rest)[1..] == rest;
  }

  lemma {:induction false} LeadsJoin(s: Live, a: seq<Label>, s1: Live, b: seq<Label>, s': Live)
    requires Leads(s, a, s1) && Leads(s1, b, s')
    ensures Leads(s, a + b, s')
    decreases |a|
  {
    if a == [] {
      assert a + b == b;
    } else {
      assert (a + b)[1..] == a[1..] + b;
      LeadsJoin(AfterStep(s, a[0]), a[1..], s1, b, s');
    }
  }

  lemma OneStep(s: Live, a: Label, s': Live)
    requires Sync(s.client) && CanStep(s, a) && AfterStep(s, a) == s'
    ensures Leads(s, [a], s')
  {
    assert [a][1..] == [];
  }

  const ASK := [Ask, SendRequest, OnServer(Recv)]
  const FETCH := [OnReader(Take), OnReader(HandOver), Return]

  /** The request reaches the server. */
  lemma AskPath(s: Live)
    requires Quiet(s)
    ensures Leads(s, ASK, s.(caller := s.caller.(waiting := true), server := s.server.(hand := Some(|s.caller.results|))))
  {
    var n := |s.caller.results|;
    var s1 := s.(caller := s.caller.(sending := true));
    var s2 := s.(caller := s.caller.(waiting := true), inbound := [n]);
    var s3 := s.(caller := s.caller.(waiting := true), server := s.server.(hand := Some(n)));
    OneStep(s2, OnServer(Recv), s3);
    Then(s1, SendRequest, s2, [OnServer(Recv)], s3);
    Then(s, Ask, s1, [SendRequest, OnServer(Recv)], s3);
    assert ASK == [Ask] + [SendRequest, OnServer(Recv)];
    assert [SendRequest, OnServer(Recv)] == [SendRequest] + [OnServer(Recv)];
  }

  /** The reply goes out. */
  lemma AnswerPath(s: Live, r: Payload)
    requires !s.server.ended && s.server.hand.Some? && s.server.busy.None? && s.outbound == [] && Sync(s.client)
    ensures Leads(s, [OnServer(Compute(r)), OnServer(SendReply)],
                  s.(outbound := [Reply(r)],
                     server := s.server.(hand := None, mark := |s.server.sent|,
                                         answers := s.server.answers + [Answer(s.server.hand.value, r)])))
  {
    var s1 := AfterStep(s, OnServer(Compute(r)));
    OneStep(s1, OnServer(SendReply), AfterStep(s1, OnServer(SendReply)));
    Then(s, OnServer(Compute(r)), s1, [OnServer(SendReply)], AfterStep(s1, OnServer(SendReply)));
    assert [OnServer(Compute(r)), OnServer(SendReply)] == [OnServer(Compute(r))] + [OnServer(SendReply)];
  }

  /** The reply is what the caller gets. */
  lemma FetchPath(s: Live, r: Payload)
    requires s.caller.waiting && s.outbound == [Reply(r)] && s.client.reader.Reading? && s.client.replies == [] && Sync(s.client)
    ensures Leads(s, FETCH, s.(outbound := [], caller := s.caller.(waiting := false, results := s.caller.results + [Some(r)])))
  {
    var s1 := s.(outbound := [], client := s.client.(reader := Handing(r)));
    var s2 := s.(outbound := [], client := s.client.(replies := [r]));
    var s3 := s.(outbound := [], caller := s.caller.(waiting := false, results := s.caller.results + [Some(r)]));
    OneStep(s2, Return, s3);
    Then(s1, OnReader(HandOver), s2, [Return], s3);
    Then(s, OnReader(Take), s1, [OnReader(HandOver), Return], s3);
    assert FETCH == [OnReader(Take)] + [OnReader(HandOver), Return];
    assert [OnReader(HandOver), Return] == [OnReader(HandOver)] + [Return];
  }

  /** From a quiet stream one Reanchor goes all the way and returns the server's reply, leaving
      everything else as it was. */
  lemma WholeReanchor(s: Live, r: Payload)
    requires Quiet(s)
    ensures Leads(s, ASK + [OnServer(Compute(r)), OnServer(SendReply)] + FETCH,
                  s.(caller := s.caller.(results := s.caller.results + [Some(r)]),
                     server := s.server.(answers := s.server.answers + [Answer(|s.caller.results|, r)],
                                         mark := |s.server.sent|)))
  {
    var s1 := s.(caller := s.caller.(waiting := true), server := s.server.(hand := Some(|s.caller.results|)));
    var s2 := s.(caller := s1.caller, outbound := [Reply(r)],
                 server := s.server.(mark := |s.server.sent|, answers := s.server.answers + [Answer(|s.caller.results|, r)]));
    var s3 := s2.(outbound := [], caller := s.caller.(results := s.caller.results + [Some(r)]));
    AskPath(s);
    AnswerPath(s1, r);
    FetchPath(s2, r);
    LeadsJoin(s, ASK, s1, [OnServer(Compute(r)), OnServer(SendReply)], s2);
    LeadsJoin(s, ASK + [OnServer(Compute(r)), OnServer(SendReply)], s2, FETCH, s3);
  }

  const ARRIVE := [OnReader(Take), OnReader(PushSignal)]
  const PASS_ON := [OnPump(Wake), OnPump(Check), OnPump(Deliver)]

  lemma SendDeltaPath(s: Live, d: Payload)
    requires Quiet(s) && s.server.deltas.Polling?
    ensures Leads(s, [OnServer(TakeDelta(d)), OnServer(SendDelta)],
                  s.(outbound := [Delta(d)], server := s.server.(taken := s.server.taken + [d], sent := s.server.sent + [d])))
  {
    var s1 := AfterStep(s, OnServer(TakeDelta(d)));
    OneStep(s1, OnServer(SendDelta), AfterStep(s1, OnServer(SendDelta)));
    Then(s, OnServer(TakeDelta(d)), s1, [OnServer(SendDelta)], AfterStep(s1, OnServer(SendDelta)));
    assert [OnServer(TakeDelta(d)), OnServer(SendDelta)] == [OnServer(TakeDelta(d))] + [OnServer(SendDelta)];
  }

  lemma ArrivePath(s: Live, d: Payload)
    requires s.outbound == [Delta(d)] && s.client.reader.Reading? && Sync(s.client)
    ensures Leads(s, ARRIVE, s.(outbound := [], client := s.client.(buf := s.client.buf.(
                    items := s.client.buf.items + [d], received := s.client.buf.received + [d], token := true))))
  {
    var s1 := AfterStep(s, OnReader(Take));
    OneStep(s1, OnReader(PushSignal), AfterStep(s1, OnReader(PushSignal)));
    Then(s, OnReader(Take), s1, [OnReader(PushSignal)], AfterStep(s1, OnReader(PushSignal)));
    assert ARRIVE == [OnReader(Take)] + [OnReader(PushSignal)];
  }

  lemma PassOnPath(s: Live, d: Payload)
    requires s.client.buf.items == [d] && s.client.buf.pump.Waiting? && s.client.buf.token && Sync(s.client)
    ensures Leads(s, PASS_ON, s.(client := s.client.(buf := s.client.buf.(
                    items := [], token := false, pump := Checking, delivered := s.client.buf.delivered + [d]))))
  {
    var s1 := AfterStep(s, OnPump(Wake));
    var s2 := AfterStep(s1, OnPump(Check));
    var s3 := AfterStep(s2, OnPump(Deliver));
    OneStep(s2, OnPump(Deliver), s3);
    Then(s1, OnPump(Check), s2, [OnPump(Deliver)], s3);
    Then(s, OnPump(Wake), s1, [OnPump(Check), OnPump(Deliver)], s3);
    assert PASS_ON == [OnPump(Wake)] + [OnPump(Check), OnPump(Deliver)];
    assert [OnPump(Check), OnPump(Deliver)] == [OnPump(Check)] + [OnPump(Deliver)];
  }

  /** From a quiet stream with a waiting pump one delta goes all the way to the caller. */
  lemma WholeDelta(s: Live, d: Payload)
    requires Quiet(s) && s.server.deltas.Polling?
    requires s.client.buf.items == [] && s.client.buf.pump.Waiting? && !s.client.buf.token
    ensures Leads(s, [OnServer(TakeDelta(d)), OnServer(SendDelta)] + ARRIVE + PASS_ON,
                  s.(server := s.server.(taken := s.server.taken + [d], sent := s.server.sent + [d]),
                     client := s.client.(buf := s.client.buf.(
                       received := s.client.buf.received + [d], delivered := s.client.buf.delivered + [d], pump := Checking))))
  {
    var b := s.client.buf;
    var s1 := s.(outbound := [Delta(d)], server := s.server.(taken := s.server.taken + [d], sent := s.server.sent + [d]));
    var s2 := s1.(outbound := [], client := s.client.(buf := b.(items := [d], received := b.received + [d], token := true)));
    var s3 := s2.(client := s.client.(buf := b.(received := b.received + [d], delivered := b.delivered + [d], pump := Checking)));
    SendDeltaPath(s, d);
    ArrivePath(s1, d);
    assert b.items + [d] == [d];
    PassOnPath(s2, d);
    LeadsJoin(s, [OnServer(TakeDelta(d)), OnServer(SendDelta)], s1, ARRIVE, s2);
    LeadsJoin(s, [OnServer(TakeDelta(d)), OnServer(SendDelta)] + ARRIVE, s2, PASS_ON, s3);
  }

  // ---- nobody blocks ----

  ghost predicate ReaderMoves(s: Live) {
    exists r :: ReaderCan(s, r)
  }

  /** The reader never blocks on the size-one reply channel, and never on the caller's
      delta channel: whatever pump and caller do, it can move unless it has exited or an
      open stream has nothing to read. */
  lemma ReaderNeverBlocks(s: Live)
    requires LiveInv(s)
    ensures s.client.reader.Handing? ==> ReaderCan(s, HandOver)
    ensures ReaderMoves(s) <==>
              !s.client.reader.Exited? && !(s.client.reader.Reading? && s.outbound == [] && !s.server.ended)
  {
    match s.client.reader {
      case Reading => if s.outbound != [] { assert ReaderCan(s, Take); } else if s.server.ended { assert ReaderCan(s, Eof); }
      case Pushing => assert ReaderCan(s, PushSignal);
      case Handing(_) => assert ReaderCan(s, HandOver);
      case Exited =>
      case _ => assert ReaderCan(s, Unwind);
    }
  }

  /** Reader steps left at most once nothing more is sent. */
  function ReaderWork(s: Live): nat {
    7 * |s.outbound| +
    match s.client.reader {
      case Handing(_) => 6 case Pushing => 6 case Reading => 5
      case CloseReplies => 4 case CloseBuffer => 3 case LastSignal => 2 case CloseStream => 1 case Exited => 0
    }
  }

  /** Once the stream has ended no step adds to the reader's work, each of its own uses some
      up, and until the caller can go on the reader can move. */
  lemma EndedStep(s: Live, a: Label)
    requires LiveInv(s) && s.server.ended && CanStep(s, a)
    ensures AfterStep(s, a).server.ended
    ensures ReaderWork(AfterStep(s, a)) + (if a.OnReader? then 1 else 0) <= ReaderWork(s)
    ensures !ReaderMoves(s) ==> Releases(s)
  {
    ReaderNeverBlocks(s);
  }

  /** The call in progress can end, and then it has ended. */
  ghost predicate Releases(s: Live)
    requires Sync(s.client)
  {
    && (s.caller.waiting ==>
          && CanStep(s, Return) && !AfterStep(s, Return).caller.waiting
          && |AfterStep(s, Return).caller.results| == |s.caller.results| + 1)
    && (s.caller.sending ==> CanStep(s, SendFails) && !AfterStep(s, SendFails).caller.sending)
  }

  /** Any steps one after another, from any state. */
  ghost predicate Steps(ss: seq<Live>, labels: seq<Label>) {
    && |ss| == |labels| + 1
    && forall i :: 0 <= i < |labels| ==>
                     Sync(ss[i].client) && CanStep(ss[i], labels[i]) && ss[i + 1] == AfterStep(ss[i], labels[i])
  }

  function ReaderSteps(labels: seq<Label>): nat {
    if labels == [] then 0
    else ReaderSteps(labels[..|labels| - 1]) + if labels[|labels| - 1].OnReader? then 1 else 0
  }

  lemma {:induction false} EndedAt(ss: seq<Live>, labels: seq<Label>, n: nat)
    requires Steps(ss, labels) && LiveInv(ss[0]) && ss[0].server.ended && n <= |labels|
    ensures LiveInv(ss[n]) && ss[n].server.ended
    ensures ReaderSteps(labels[..n]) + ReaderWork(ss[n]) <= ReaderWork(ss[0])
  {
    if n > 0 {
      EndedAt(ss, labels, n - 1);
      assert labels[..n][..n - 1] == labels[..n - 1];
      LiveStep(ss[n - 1], labels[n - 1]);
      EndedStep(ss[n - 1], labels[n - 1]);
    }
  }

  /** Every waiting Reanchor returns once the stream has ended, and so does one still sending:
      however the steps interleave, the reader takes a bounded number of them, and whenever it
      has none left the call in progress can return. */
  lemma EndedStreamReleases(ss: seq<Live>, labels: seq<Label>)
    requires Steps(ss, labels) && LiveInv(ss[0]) && ss[0].server.ended
    ensures ReaderSteps(labels) <= ReaderWork(ss[0]) <= 7 * WIRE + 6
    ensures var s := ss[|labels|]; Sync(s.client) && (!ReaderMoves(s) ==> Releases(s))
  {
    EndedAt(ss, labels, |labels|);
    assert labels[..|labels|] == labels;
    EndedStep(ss[|labels|], CloseHandle);
  }

  // ---- how far a reply is ----

  /** Frames ahead of the first reply. */
  function ReplyAt(out: seq<Frame>): nat {
    if out == [] || out[0].Reply? then 0 else 1 + ReplyAt(out[1..])
  }

  lemma {:induction false} ReplyAtSnoc(out: seq<Frame>, f: Frame)
    ensures Replies(out) != [] ==> ReplyAt(out + [f]) == ReplyAt(out)
    ensures ReplyAt(out + [f]) <= |out| + 1 && (f.Reply? ==> ReplyAt(out + [f]) <= |out|)
  {
    if out != [] {
      assert (out + [f])[1..] == out[1..] + [f];
      ReplyAtSnoc(out[1..], f);
    }
  }

  /** Steps of its own path left before the waiting call can return. */
  function Distance(s: Live): nat {
    if s.client.replies != [] then 0
    else if s.client.reader.Handing? then 1
    else if Replies(s.outbound) != [] then 2 + 2 * ReplyAt(s.outbound) + if s.client.reader.Pushing? then 1 else 0
    else if s.server.busy.Some? then 2 * WIRE + 4
    else if s.server.hand.Some? then 2 * WIRE + 5
    else 2 * WIRE + 6
  }

  /** A Reanchor waits on an open stream whose reader runs. */
  ghost predicate Open(s: Live) {
    LiveInv(s) && s.caller.waiting && !s.server.ended && !Unwinding(s.client.reader)
  }

  /** The steps that carry the request or its reply on. */
  ghost predicate Carries(s: Live, a: Label) {
    || (a.OnServer? && (a.v.Recv? || a.v.Compute? || a.v.SendReply?))
    || (a.OnReader? && (s.client.reader.Handing? || Replies(s.outbound) != []))
  }

  lemma ServerApproaches(s: Live, v: ServerLabel)
    requires Open(s) && ServerCan(s, v) && Open(AfterServer(s, v))
    ensures Distance(AfterServer(s, v)) + (if Carries(s, OnServer(v)) then 1 else 0) <= Distance(s)
  {
    assert |Requests(s)| + OnTheWay(s) == 1;
    if v.SendReply? {
      FramesSnoc(s.outbound, Reply(s.server.busy.value));
      ReplyAtSnoc(s.outbound, Reply(s.server.busy.value));
    } else if v.SendDelta? {
      FramesSnoc(s.outbound, Delta(s.server.deltas.d));
      ReplyAtSnoc(s.outbound, Delta(s.server.deltas.d));
    }
  }

  lemma ReaderApproaches(s: Live, r: ReaderLabel)
    requires Open(s) && ReaderCan(s, r) && Open(AfterReader(s, r))
    ensures Distance(AfterReader(s, r)) + (if Carries(s, OnReader(r)) then 1 else 0) <= Distance(s)
  {
    assert |Requests(s)| + OnTheWay(s) == 1;
  }

  lemma StepApproaches(s: Live, a: Label)
    requires Open(s) && CanStep(s, a) && Open(AfterStep(s, a))
    ensures Distance(AfterStep(s, a)) + (if Carries(s, a) then 1 else 0) <= Distance(s)
  {
    match a {
      case OnServer(v) => ServerApproaches(s, v);
      case OnReader(r) => ReaderApproaches(s, r);
      case _ =>
    }
  }

  lemma {:induction false} ReplyAtBound(out: seq<Frame>)
    ensures ReplyAt(out) <= |out| && (Replies(out) != [] ==> ReplyAt(out) < |out|)
  {
    if out != [] { ReplyAtBound(out[1..]); }
  }

  lemma Served(s: Live)
    requires Open(s)
    ensures
      || CanStep(s, Return)
      || (exists b :: CanStep(s, b) && Carries(s, b))
      || (s.server.busy.Some? && |s.outbound| == WIRE && ReaderMoves(s))
  {
    ReaderNeverBlocks(s);
    assert |Requests(s)| + OnTheWay(s) == 1;
    if s.client.reader.Handing? || Replies(s.outbound) != [] {
      var r :| ReaderCan(s, r);
      assert CanStep(s, OnReader(r)) && Carries(s, OnReader(r));
    } else if s.server.busy.Some? && |s.outbound| < WIRE {
      assert CanStep(s, OnServer(SendReply)) && Carries(s, OnServer(SendReply));
    } else if s.server.busy.None? && s.server.hand.Some? {
      assert CanStep(s, OnServer(Compute(""))) && Carries(s, OnServer(Compute("")));
    } else if s.server.busy.None? && s.inbound != [] {
      assert CanStep(s, OnServer(Recv)) && Carries(s, OnServer(Recv));
    }
  }

  /** The carrying steps among the first n. */
  ghost function Carried(ss: seq<Live>, labels: seq<Label>, n: nat): nat
    requires n <= |labels| <= |ss|
  {
    if n == 0 then 0 else Carried(ss, labels, n - 1) + if Carries(ss[n - 1], labels[n - 1]) then 1 else 0
  }

  lemma {:induction false} Approaches(ss: seq<Live>, labels: seq<Label>, n: nat)
    requires Steps(ss, labels) && n <= |labels|
    requires forall i :: 0 <= i < |ss| ==> Open(ss[i])
    ensures Carried(ss, labels, n) + Distance(ss[n]) <= Distance(ss[0])
  {
    if n > 0 {
      Approaches(ss, labels, n - 1);
      assert Open(ss[n - 1]) && Open(ss[n]);
      StepApproaches(ss[n - 1], labels[n - 1]);
    }
  }

  /** While a Reanchor waits on an open stream, however the steps interleave, a bounded number
      of them carry its request or reply on and no step takes the reply further away; a
      carrying step is always possible, or the reader can make room for one in a full channel.
      Undrained deltas never stand in its way. */
  lemma WaiterIsServed(ss: seq<Live>, labels: seq<Label>)
    requires Steps(ss, labels) && forall i :: 0 <= i < |ss| ==> Open(ss[i])
    ensures Carried(ss, labels, |labels|) <= Distance(ss[0]) <= 2 * WIRE + 6
    ensures
      var s := ss[|labels|];
      || CanStep(s, Return)
      || (exists b :: CanStep(s, b) && Carries(s, b))
      || (s.server.busy.Some? && |s.outbound| == WIRE && ReaderMoves(s))
  {
    assert Open(ss[0]) && Open(ss[|labels|]);
    Approaches(ss, labels, |labels|);
    ReplyAtBound(ss[0].outbound);
    Served(ss[|labels|]);
  }

  // ---- sends on a closed channel ----

  /** The delta goroutine is inside a send although outbound is closed. */
  predicate SendsOnClosed(s: Live) {
    s.server.ended && s.server.deltas.Sending?
  }

  ghost predicate CanSendOnClosed(s: Live) {
    exists ss, labels :: Steps(ss, labels) && ss[0] == s && SendsOnClosed(ss[|labels|])
  }

  lemma {:induction false} FinishedStays(ss: seq<Live>, labels: seq<Label>)
    requires Steps(ss, labels) && ss[0].server.deltas.Finished?
    ensures ss[|labels|].server.deltas.Finished?
    decreases |labels|
  {
    var n := |labels|;
    if n > 0 {
      FinishedStays(ss[..n], labels[..n - 1]);
      assert ss[..n][n - 1] == ss[n - 1];
    }
  }

  /** Closing the handle lets a request that is being sent fail. */
  lemma CloseReleasesSend(s: Live)
    requires Sync(s.client) && s.caller.sending
    ensures
      var s' := AfterStep(s, CloseHandle);
      CanStep(s', SendFails) && AfterStep(s', SendFails) == s'.(caller := s.caller.(sending := false))
  {
  }

  /** Exactly when it can happen: the handler has returned before its delta goroutine was done. */
  lemma SendsOnClosedIff(s: Live)
    requires Sync(s.client) && s.server.ended
    ensures CanSendOnClosed(s) <==> !s.server.deltas.Finished?
  {
    if s.server.deltas.Finished? {
      forall ss, labels | Steps(ss, labels) && ss[0] == s ensures !SendsOnClosed(ss[|labels|]) {
        FinishedStays(ss, labels);
      }
    } else if s.server.deltas.Sending? {
      var none: seq<Label> := [];
      assert Steps([s], none) && SendsOnClosed([s][|none|]);
    } else {
      var a := OnServer(TakeDelta(""));
      assert Steps([s, AfterStep(s, a)], [a]) && SendsOnClosed([s, AfterStep(s, a)][|[a]|]);
    }
  }

  /** A handler that returns because its delta goroutine is done is safe for good; one that
      returns otherwise is safe exactly if that goroutine happens to be done. */
  lemma ReturnIsSafeIff(s: Live, done: bool)
    requires Sync(s.client) && ServerCan(s, End(done))
    ensures CanSendOnClosed(AfterServer(s, End(done))) <==> !s.server.deltas.Finished?
    ensures done ==> !CanSendOnClosed(AfterServer(s, End(done)))
    ensures s.server.deltas.Polling? ==> ServerCan(AfterServer(s, StopDeltas), End(true))
  {
    SendsOnClosedIff(AfterServer(s, End(done)));
  }
}
