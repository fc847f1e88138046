/** The unbounded buffer between the stream reader and the caller's delta channel, as
    interleaved steps of a pusher (push, close), a pump and a one-slot signal channel. A
    locked section is one step; the signal after it is another. */
module LiveBuffer {
  type Payload = string

  /** After appending or closing, the pusher still has a signal to send. */
  datatype Pusher = Idle | Signalling

  /** `Checking` is about to take the lock; `Waiting` is in the select on the signal. */
  datatype Pump = Checking | Waiting | Holding(d: Payload) | Done

  /** `received` and `delivered` are the histories on either side. */
  datatype Buf = Buf(
    items: seq<Payload>, closed: bool, token: bool, pusher: Pusher, pump: Pump,
    received: seq<Payload>, delivered: seq<Payload>)

  const EMPTY := Buf([], false, false, Idle, Checking, [], [])

  datatype Step = Push(d: Payload) | Close | Signal | Check | Wake | Deliver

  ghost predicate Enabled(b: Buf, a: Step) {
    match a
    case Push(_) => b.pusher.Idle? && !b.closed
    case Close => b.pusher.Idle? && !b.closed
    case Signal => b.pusher.Signalling?
    case Check => b.pump.Checking?
    case Wake => b.pump.Waiting? && b.token
    case Deliver => b.pump.Holding?
  }

  function After(b: Buf, a: Step): Buf
    requires Enabled(b, a)
  {
    match a
    case Push(d) => b.(items := b.items + [d], received := b.received + [d], pusher := Signalling)
    case Close => b.(closed := true, pusher := Signalling)
    case Signal => b.(token := true, pusher := Idle)
    case Check =>
      if b.items != [] then b.(items := b.items[1..], pump := Holding(b.items[0]))
      else if b.closed then b.(pump := Done)
      else b.(pump := Waiting)
    case Wake => b.(token := false, pump := Checking)
    case Deliver => b.(delivered := b.delivered + [b.pump.d], pump := Checking)
  }

  /** What the pump finds when it takes the lock. */
  datatype Found = Item(d: Payload) | Empty | Ended

  /** The buffer object; each method is one atomic section, and its abstract state moves by
      exactly that step. */
  class DeltaBuffer {
    var items: seq<Payload>
    var closed: bool
    var token: bool
    ghost var pusher: Pusher
    ghost var pump: Pump
    ghost var received: seq<Payload>
    ghost var delivered: seq<Payload>

    ghost function State(): Buf
      reads this
    {
      Buf(items, closed, token, pusher, pump, received, delivered)
    }

    constructor ()
      ensures State() == EMPTY
    {
      items, closed, token := [], false, false;
      pusher, pump, received, delivered := Idle, Checking, [], [];
    }

    /** The locked part of push. */
    method Append(d: Payload)
      requires Enabled(State(), Push(d))
      modifies this
      ensures State() == After(old(State()), Push(d))
    {
      items := items + [d];
      received, pusher := received + [d], Signalling;
    }

    /** The locked part of close. */
    method MarkClosed()
      requires Enabled(State(), Close)
      modifies this
      ensures State() == After(old(State()), Close)
    {
      closed := true;
      pusher := Signalling;
    }

    /** The non-blocking send on the one-slot signal channel. */
    method SendSignal()
      requires Enabled(State(), Signal)
      modifies this
      ensures State() == After(old(State()), Signal)
    {
      if !token { token := true; }
      pusher := Idle;
    }

    /** The locked part of one pump round. */
    method TakeFirst() returns (f: Found)
      requires Enabled(State(), Check)
      modifies this
      ensures State() == After(old(State()), Check)
      ensures f == if old(items) != [] then Item(old(items[0])) else if old(closed) then Ended else Empty
    {
      if |items| == 0 {
        if closed {
          pump := Done;
          return Ended;
        }
        pump := Waiting;
        return Empty;
      }
      f := Item(items[0]);
      pump := Holding(items[0]);
      items := items[1..];
    }

    method ReceiveSignal()
      requires Enabled(State(), Wake)
      modifies this
      ensures State() == After(old(State()), Wake)
    {
      token := false;
      pump := Checking;
    }
  }

  function Hand(p: Pump): seq<Payload> {
    if p.Holding? then [p.d] else []
  }

  /** Nothing lost or reordered, no lost wake-up, no early end. */
  ghost predicate Inv(b: Buf) {
    && b.received == b.delivered + Hand(b.pump) + b.items
    && (b.pump.Waiting? && (b.items != [] || b.closed) ==> b.token || b.pusher.Signalling?)
    && (b.pump.Done? ==> b.closed && b.items == [])
  }

  lemma StepKeeps(b: Buf, a: Step)
    requires Inv(b) && Enabled(b, a)
    ensures Inv(After(b, a))
  {
    var b' := After(b, a);
    match a {
      case Push(d) =>
        assert b'.received == b.delivered + Hand(b.pump) + (b.items + [d]);
      case Check =>
        if b.items != [] { assert b.items == [b.items[0]] + b.items[1..]; }
      case _ =>
    }
  }

  ghost predicate Run(bs: seq<Buf>, steps: seq<Step>) {
    && |bs| == |steps| + 1 && bs[0] == EMPTY
    && forall i :: 0 <= i < |steps| ==> Enabled(bs[i], steps[i]) && bs[i + 1] == After(bs[i], steps[i])
  }

  /** In every run delivered, in-hand and buffered deltas are the received ones in order;
      the output ends only after all are delivered; the pump never sleeps on work. */
  lemma {:induction false} EveryRunFifo(bs: seq<Buf>, steps: seq<Step>, i: nat)
    requires Run(bs, steps) && i < |bs|
    ensures Inv(bs[i])
    ensures bs[i].pump.Done? ==> bs[i].closed && bs[i].delivered == bs[i].received
  {
    if i > 0 {
      EveryRunFifo(bs, steps, i - 1);
      StepKeeps(bs[i - 1], steps[i - 1]);
    }
  }

  // ---- progress ----

  predicate PumpStep(a: Step) {
    a.Check? || a.Wake? || a.Deliver?
  }

  /** How many pump steps are left at most while nothing is pushed. */
  function Work(b: Buf): nat {
    3 * |b.items| + (if b.token then 2 else 0) +
    match b.pump { case Checking => 1 case Waiting => 0 case Holding(_) => 2 case Done => 0 }
  }

  /** While the pusher is quiet the pump can always go on until the buffer is empty, and
      each of its steps uses up work: a wake-up is never missed. */
  lemma PumpProgress(b: Buf)
    requires Inv(b) && b.pusher.Idle?
    ensures forall a :: PumpStep(a) && Enabled(b, a) ==> Work(After(b, a)) < Work(b)
    ensures (forall a :: PumpStep(a) ==> !Enabled(b, a)) ==>
              b.delivered == b.received && (b.closed ==> b.pump.Done?)
  {
    assert Enabled(b, Check) <==> b.pump.Checking?;
    assert Enabled(b, Wake) <==> b.pump.Waiting? && b.token;
    assert Enabled(b, Deliver) <==> b.pump.Holding?;
  }

  /** The pump cannot run for ever on what is buffered, and where it stops everything
      received has been delivered. */
  lemma {:induction false} PumpFinishes(bs: seq<Buf>, steps: seq<Step>)
    requires |bs| == |steps| + 1 && Inv(bs[0]) && bs[0].pusher.Idle?
    requires forall i :: 0 <= i < |steps| ==>
                           PumpStep(steps[i]) && Enabled(bs[i], steps[i]) && bs[i + 1] == After(bs[i], steps[i])
    ensures |steps| <= Work(bs[0]) && Inv(bs[|steps|])
    ensures (forall a :: PumpStep(a) ==> !Enabled(bs[|steps|], a)) ==>
              bs[|steps|].delivered == bs[|steps|].received == bs[0].received
    decreases |steps|
  {
    PumpProgress(bs[0]);
    if steps != [] {
      StepKeeps(bs[0], steps[0]);
      PumpFinishes(bs[1..], steps[1..]);
    }
  }
}
