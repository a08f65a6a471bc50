/**
 The queue under concurrency: any number of senders and receivers, one mutex, and the condition
 variables "not full" and "not empty". A thread holds the mutex from the call (or from the moment
 it resumes after a wait) until it returns or waits again, so each such stretch is one step.

 A waiting thread is asleep or woken. A woken thread (by a signal or spuriously) still has to get
 the mutex back before it can look at the queue, and any other thread may run first.
 */
module QueueProtocol {
  import opened Errors
  import opened RingBuffer
  import opened Sequences

  type Tid = nat

  datatype Call<T> = Sending(msg: T, timed: bool) | Receiving(timed: bool)

  /** How a message left the buffer: handed to a receiver, or discarded by Clear or Destruct. */
  datatype Exit<T> = Received(msg: T) | Dropped(msg: T)

  datatype Reply<T> = Silent | Waits(t: Tid) | SendReturns(t: Tid, err: EebusError)
    | ReceiveReturns(t: Tid, err: EebusError, got: Option<T>)

  datatype State<T> = State(
    ring: Ring<T>,
    sleepS: set<Tid>, wokenS: set<Tid>,  // senders waiting on "not full"
    sleepR: set<Tid>, wokenR: set<Tid>,  // receivers waiting on "not empty"
    calls: map<Tid, Call<T>>,
    sent: seq<T>,                        // history: every message whose send returned Ok, in order
    exits: seq<Exit<T>>,                 // history: every message that left the buffer, in order
    reply: Reply<T>)                     // what the last step answered to its caller

  /** In every step, `w`, `wS` and `wR` are the sleeping threads that the step's signals wake. */
  datatype Step<T> =
    | SendCall(t: Tid, m: T, timed: bool, w: Option<Tid>)
    | SendResume(t: Tid, w: Option<Tid>)
    | ReceiveCall(t: Tid, timed: bool, w: Option<Tid>)
    | ReceiveResume(t: Tid, w: Option<Tid>)
    | Spurious(t: Tid)
    | Timeout(t: Tid)
      // The wait of a thread that a signal already woke still reports a timeout: the signal is used up.
    | TimeoutTakesSignal(t: Tid)
    | Clear(w: Option<Tid>)
    | Close(wS: Option<Tid>, wR: Option<Tid>, wS2: Option<Tid>)

  /** A signal wakes one of the sleeping threads, or nobody when none sleeps. */
  predicate SignalWakes(sleep: set<Tid>, w: Option<Tid>) {
    if sleep == {} then w.None? else w.Some? && w.value in sleep
  }

  function Target(w: Option<Tid>): (r: set<Tid>) {
    if w.Some? then {w.value} else {}
  }

  function WakeSender<T>(s: State<T>, w: Option<Tid>): (r: State<T>) {
    s.(sleepS := s.sleepS - Target(w), wokenS := s.wokenS + Target(w))
  }

  function WakeReceiver<T>(s: State<T>, w: Option<Tid>): (r: State<T>) {
    s.(sleepR := s.sleepR - Target(w), wokenR := s.wokenR + Target(w))
  }

  /** Thread `t` leaves the wait set it is in. */
  function Leave<T>(s: State<T>, t: Tid): (r: State<T>) {
    var l := s.(calls := s.calls - {t});
    if t in s.sleepS then l.(sleepS := s.sleepS - {t})
    else if t in s.wokenS then l.(wokenS := s.wokenS - {t})
    else if t in s.sleepR then l.(sleepR := s.sleepR - {t})
    else l.(wokenR := s.wokenR - {t})
  }

  /** SendInternal from the moment the mutex is held; `s` has `t` in no wait set. */
  function LockedSend<T>(s: State<T>, t: Tid, m: T, timed: bool, w: Option<Tid>): (r: State<T>)
    requires s.ring.head < |s.ring.buf|
  {
    if s.ring.isClosed then
      s.(reply := SendReturns(t, NoChange))
    else if s.ring.isFull then
      s.(sleepS := s.sleepS + {t}, calls := s.calls[t := Sending(m, timed)], reply := Waits(t))
    else
      WakeReceiver(s, w).(ring := s.ring.Put(m), sent := s.sent + [m], reply := SendReturns(t, Ok))
  }

  function LockedReceive<T>(s: State<T>, t: Tid, timed: bool, w: Option<Tid>): (r: State<T>)
    requires s.ring.tail < |s.ring.buf|
  {
    if s.ring.isClosed then
      s.(reply := ReceiveReturns(t, NoChange, None))
    else if s.ring.isEmpty then
      s.(sleepR := s.sleepR + {t}, calls := s.calls[t := Receiving(timed)], reply := Waits(t))
    else
      var m := s.ring.buf[s.ring.tail];
      WakeSender(s, w).(ring := s.ring.Take(), exits := s.exits
        + [Received(m)], reply := ReceiveReturns(t, Ok, Some(m)))
  }

  function TimesOut<T>(s: State<T>, t: Tid): (r: State<T>)
    requires t in s.calls
  {
    Leave(s, t).(reply := if s.calls[t].Sending? then SendReturns(t, Time) else ReceiveReturns(t, Time, None))
  }

  ghost function LockedClear<T>(s: State<T>, w: Option<Tid>): (r: State<T>)
    requires s.ring.Valid()
  {
    WakeSender(s, w).(ring := s.ring.Cleared(), exits := s.exits + Drops(s.ring.Pending()), reply := Silent)
  }

  function Drops<T>(ms: seq<T>): (r: seq<Exit<T>>) {
    seq(|ms|, i requires 0 <= i < |ms| => Dropped(ms[i]))
  }

  ghost predicate Enabled<T>(s: State<T>, e: Step<T>)
    requires s.ring.Valid()
  {
    match e
    case SendCall(t, _, _, w) => t !in s.calls && (PutsNow(s) ==> SignalWakes(s.sleepR, w))
    case SendResume(t, w) => t in s.wokenS && t in s.calls && s.calls[t].Sending? && (PutsNow(s) ==>
      SignalWakes(s.sleepR, w))
    case ReceiveCall(t, _, w) => t !in s.calls && (TakesNow(s) ==> SignalWakes(s.sleepS, w))
    case ReceiveResume(t, w) => t in s.wokenR && t in s.calls && s.calls[t].Receiving? && (TakesNow(s) ==>
      SignalWakes(s.sleepS, w))
    case Spurious(t) => t in s.sleepS + s.sleepR
    case Timeout(t) => t in s.sleepS + s.sleepR && t in s.calls && s.calls[t].timed
    case TimeoutTakesSignal(t) => t in s.wokenS + s.wokenR && t in s.calls && s.calls[t].timed
    case Clear(w) => SignalWakes(s.sleepS, w)
    case Close(wS, wR, wS2) =>
      && !s.ring.isClosed
      && SignalWakes(s.sleepS, wS) && SignalWakes(s.sleepR, wR) && SignalWakes(s.sleepS - Target(wS), wS2)
  }

  predicate PutsNow<T>(s: State<T>) { !s.ring.isClosed && !s.ring.isFull }

  predicate TakesNow<T>(s: State<T>) { !s.ring.isClosed && !s.ring.isEmpty }

  ghost function Apply<T>(s: State<T>, e: Step<T>): (r: State<T>)
    requires s.ring.Valid() && Enabled(s, e)
  {
    match e
    case SendCall(t, m, timed, w) => LockedSend(s, t, m, timed, w)
    case SendResume(t, w) => LockedSend(Leave(s, t), t, s.calls[t].msg, s.calls[t].timed, w)
    case ReceiveCall(t, timed, w) => LockedReceive(s, t, timed, w)
    case ReceiveResume(t, w) => LockedReceive(Leave(s, t), t, s.calls[t].timed, w)
    case Spurious(t) =>
      if t in s.sleepS
      then s.(sleepS := s.sleepS - {t}, wokenS := s.wokenS + {t}, reply := Silent)
      else s.(sleepR := s.sleepR - {t}, wokenR := s.wokenR + {t}, reply := Silent)
    case Timeout(t) => TimesOut(s, t)
    case TimeoutTakesSignal(t) => TimesOut(s, t)
    case Clear(w) => LockedClear(s, w)
    case Close(wS, wR, wS2) =>
      LockedClear(WakeReceiver(WakeSender(s, wS), wR).(ring := s.ring.(isClosed := true)), wS2)
  }

  /** The empty queue with room for `|buf|` messages and nobody waiting. */
  function Initial<T>(buf: seq<T>): (r: State<T>) {
    State(Ring(buf, 0, 0, false, true, false), {}, {}, {}, {}, map[], [], [], Silent)
  }

  // ---------------------------------------------------------------- runs

  ghost predicate IsRun<T>(s: State<T>, steps: seq<Step<T>>)
    decreases |steps|
  {
    && s.ring.Valid()
    && (steps != [] ==> Enabled(s, steps[0]) && IsRun(Apply(s, steps[0]), steps[1..]))
  }

  ghost function After<T>(s: State<T>, steps: seq<Step<T>>): (f: State<T>)
    requires IsRun(s, steps)
    ensures f.ring.Valid()
    decreases |steps|
  {
    if steps == [] then s else After(Apply(s, steps[0]), steps[1..])
  }

  // ---------------------------------------------------------------- safety: a bounded FIFO

  function Messages<T>(xs: seq<Exit<T>>): (r: seq<T>) {
    seq(|xs|, i requires 0 <= i < |xs| => xs[i].msg)
  }

  ghost predicate Fifo<T>(s: State<T>) {
    && s.ring.Valid()
    && s.sent == Messages(s.exits) + s.ring.Pending()
    && (s.ring.isClosed ==> s.ring.isEmpty)
  }

  lemma SendKeepsFifo<T>(s: State<T>, t: Tid, m: T, timed: bool, w: Option<Tid>)
    requires Fifo(s)
    ensures var f := LockedSend(s, t, m, timed, w); Fifo(f) && |f.ring.buf| == |s.ring.buf|
  {
    if PutsNow(s) {
      PutAppends(s.ring, m);
    }
  }

  lemma ReceiveKeepsFifo<T>(s: State<T>, t: Tid, timed: bool, w: Option<Tid>)
    requires Fifo(s)
    ensures var f := LockedReceive(s, t, timed, w); Fifo(f) && |f.ring.buf| == |s.ring.buf|
  {
    if TakesNow(s) {
      TakeRemovesOldest(s.ring);
      var m := s.ring.buf[s.ring.tail];
      assert Messages(s.exits + [Received(m)]) == Messages(s.exits) + [m];
    }
  }

  lemma ClearKeepsFifo<T>(s: State<T>, w: Option<Tid>)
    requires s.ring.Valid() && s.sent == Messages(s.exits) + s.ring.Pending()
    ensures var f := LockedClear(s, w); Fifo(f) && |f.ring.buf| == |s.ring.buf|
  {
    DropsAreMessages(s.exits, s.ring.Pending());
    ClearedIsEmpty(s.ring);
  }

  /** A step that only moves threads between the wait sets. */
  predicate OnlyWaits<T>(e: Step<T>) { e.Spurious? || e.Timeout? || e.TimeoutTakesSignal? }

  lemma WaitingKeepsFifo<T>(s: State<T>, e: Step<T>)
    requires Fifo(s) && Enabled(s, e) && OnlyWaits(e)
    ensures var f := Apply(s, e); f.ring == s.ring && f.sent == s.sent && f.exits == s.exits
  {
  }

  lemma LeaveKeepsFifo<T>(s: State<T>, t: Tid)
    requires Fifo(s)
    ensures var l := Leave(s, t); Fifo(l) && l.ring == s.ring
  {
  }

  lemma CloseKeepsFifo<T>(s: State<T>, wS: Option<Tid>, wR: Option<Tid>, wS2: Option<Tid>)
    requires Fifo(s)
    ensures var f := LockedClear(WakeReceiver(WakeSender(s, wS), wR).(ring := s.ring.(isClosed := true)), wS2);
            Fifo(f) && |f.ring.buf| == |s.ring.buf|
  {
    ClearKeepsFifo(WakeReceiver(WakeSender(s, wS), wR).(ring := s.ring.(isClosed := true)), wS2);
  }

  lemma StepKeepsFifo<T>(s: State<T>, e: Step<T>)
    requires Fifo(s) && Enabled(s, e)
    ensures var f := Apply(s, e); Fifo(f) && |f.ring.buf| == |s.ring.buf|
  {
    match e {
      case SendCall(t, m, timed, w) => SendKeepsFifo(s, t, m, timed, w);
      case SendResume(t, w) =>
        LeaveKeepsFifo(s, t);
        SendKeepsFifo(Leave(s, t), t, s.calls[t].msg, s.calls[t].timed, w);
      case ReceiveCall(t, timed, w) => ReceiveKeepsFifo(s, t, timed, w);
      case ReceiveResume(t, w) =>
        LeaveKeepsFifo(s, t);
        ReceiveKeepsFifo(Leave(s, t), t, s.calls[t].timed, w);
      case Clear(w) => ClearKeepsFifo(s, w);
      case Close(wS, wR, wS2) => CloseKeepsFifo(s, wS, wR, wS2);
      case _ => WaitingKeepsFifo(s, e);
    }
  }

  lemma DropsAreMessages<T>(xs: seq<Exit<T>>, ms: seq<T>)
    ensures Messages(xs + Drops(ms)) == Messages(xs) + ms
  {
  }

  /**
   Over every interleaving of sends, receives, clears, timeouts, spurious wakeups and close: the
   k-th message sent with Ok is the k-th to leave the buffer or is still pending, so nothing is
   lost, duplicated or reordered, and never more than the capacity is pending.
   */
  lemma {:induction false} RunIsBoundedFifo<T>(s: State<T>, steps: seq<Step<T>>)
    requires Fifo(s) && IsRun(s, steps)
    ensures Fifo(After(s, steps))
    ensures |After(s, steps).ring.Pending()| <= |After(s, steps).ring.buf| == |s.ring.buf|
    decreases |steps|
  {
    if steps == [] {
      FlagsAgreeWithPending(s.ring);
    } else {
      StepKeepsFifo(s, steps[0]);
      RunIsBoundedFifo(Apply(s, steps[0]), steps[1..]);
    }
  }

  /** The messages that receivers got, in the order they got them. */
  function Deliveries<T>(xs: seq<Exit<T>>): (r: seq<T>) {
    if xs == [] then []
    else Deliveries(xs[..|xs| - 1]) + if xs[|xs| - 1].Received? then [xs[|xs| - 1].msg] else []
  }

  /** Where in the send order each delivered message stood. */
  ghost function DeliveryIndex<T>(xs: seq<Exit<T>>): (r: seq<nat>) {
    if xs == [] then []
    else DeliveryIndex(xs[..|xs| - 1]) + if xs[|xs| - 1].Received? then [|xs| - 1] else []
  }

  lemma {:induction false} DeliveryIndexLocates<T>(xs: seq<Exit<T>>)
    ensures var ix, ds := DeliveryIndex(xs), Deliveries(xs);
            && |ix| == |ds|
            && (forall k :: 0 <= k < |ix| ==> ix[k] < |xs| && xs[ix[k]] == Received(ds[k]))
            && (forall k, l :: 0 <= k < l < |ix| ==> ix[k] < ix[l])
  {
    if xs != [] {
      DeliveryIndexLocates(xs[..|xs| - 1]);
    }
  }

  /** Receivers see the sent messages in send order, each at most once. */
  lemma DeliveriesKeepSendOrder<T>(s: State<T>)
    requires Fifo(s)
    ensures var ix, ds := DeliveryIndex(s.exits), Deliveries(s.exits);
            && |ix| == |ds|
            && (forall k :: 0 <= k < |ix| ==> ix[k] < |s.sent| && s.sent[ix[k]] == ds[k])
            && (forall k, l :: 0 <= k < l < |ix| ==> ix[k] < ix[l])
  {
    var ix, ds := DeliveryIndex(s.exits), Deliveries(s.exits);
    DeliveryIndexLocates(s.exits);
    forall k | 0 <= k < |ix|
      ensures ix[k] < |s.sent| && s.sent[ix[k]] == ds[k]
    {
      assert s.sent[ix[k]] == Messages(s.exits)[ix[k]];
    }
  }

  predicate Discards<T>(e: Step<T>) { e.Clear? || e.Close? }

  ghost predicate OnlyReceived<T>(xs: seq<Exit<T>>) { forall j :: 0 <= j < |xs| ==> xs[j].Received? }

  lemma {:induction false} DeliveriesOfReceived<T>(xs: seq<Exit<T>>)
    requires OnlyReceived(xs)
    ensures Deliveries(xs) == Messages(xs)
  {
    if xs != [] {
      var n := |xs| - 1;
      DeliveriesOfReceived(xs[..n]);
      assert Messages(xs) == Messages(xs[..n]) + [xs[n].msg];
    }
  }

  lemma NothingIsDropped<T>(s: State<T>, e: Step<T>)
    requires s.ring.Valid() && Enabled(s, e) && !Discards(e) && OnlyReceived(s.exits)
    ensures OnlyReceived(Apply(s, e).exits)
  {
  }

  /** Without Clear and close the receivers have got exactly a prefix of what was sent. */
  lemma {:induction false} RunDeliversPrefix<T>(s: State<T>, steps: seq<Step<T>>)
    requires Fifo(s) && OnlyReceived(s.exits) && IsRun(s, steps)
    requires forall e :: e in steps ==> !Discards(e)
    ensures var f := After(s, steps); f.sent == Deliveries(f.exits) + f.ring.Pending()
    decreases |steps|
  {
    if steps == [] {
      DeliveriesOfReceived(s.exits);
    } else {
      assert steps[0] in steps;
      StepKeepsFifo(s, steps[0]);
      NothingIsDropped(s, steps[0]);
      RunDeliversPrefix(Apply(s, steps[0]), steps[1..]);
    }
  }

  /** The reply of a step is an Ok, which only an actual transfer of a message gives. */
  predicate Succeeds<T>(r: Reply<T>) {
    (r.SendReturns? || r.ReceiveReturns?) && r.err == Ok
  }

  /** A call returns Ok exactly when it moved a message, and a receive returns the oldest one. */
  lemma OkMeansTransferred<T>(s: State<T>, e: Step<T>)
    requires Fifo(s) && Enabled(s, e)
    ensures var f := Apply(s, e);
            && (f.reply.SendReturns? && f.reply.err == Ok <==> |f.sent| == |s.sent| + 1)
            && (f.reply.ReceiveReturns? && f.reply.err == Ok ==>
                  s.ring.Pending() == [f.reply.got.value] + f.ring.Pending())
            && (f.reply.ReceiveReturns? && f.reply.err != Ok ==> f.reply.got == None && f.ring == s.ring)
  {
    if !s.ring.isEmpty {
      TakeRemovesOldest(s.ring);
    }
  }

  /** Once closed, every later call is answered NoChange or Time, and the history stands still. */
  lemma {:induction false} NothingSucceedsAfterClose<T>(s: State<T>, steps: seq<Step<T>>)
    requires Fifo(s) && s.ring.isClosed && IsRun(s, steps)
    ensures var f := After(s, steps);
            && f.ring.isClosed && f.sent == s.sent && f.exits == s.exits
            && (steps != [] ==> !Succeeds(f.reply))
    decreases |steps|
  {
    if steps != [] {
      var f := Apply(s, steps[0]);
      StepKeepsFifo(s, steps[0]);
      assert s.ring.Pending() == [];
      NothingSucceedsAfterClose(f, steps[1..]);
      assert !Succeeds(f.reply);
    }
  }

  // ---------------------------------------------------------------- no lost wakeup

  ghost predicate WaitSetsOk<T>(s: State<T>) {
    && (forall t :: t in s.sleepS ==> t in s.calls && s.calls[t].Sending? && t !in s.wokenS)
    && (forall t :: t in s.wokenS ==> t in s.calls && s.calls[t].Sending?)
    && (forall t :: t in s.sleepR ==> t in s.calls && s.calls[t].Receiving? && t !in s.wokenR)
    && (forall t :: t in s.wokenR ==> t in s.calls && s.calls[t].Receiving?)
  }

  ghost function Free<T>(s: State<T>): (r: int)
    requires s.ring.Valid()
  {
    |s.ring.buf| - |s.ring.Pending()|
  }

  /**
   If a sender sleeps unsignalled, the free slots do not exceed the senders already woken but not
   yet run; dually for receivers and pending messages.
   */
  ghost predicate NoLostWakeup<T>(s: State<T>)
    requires s.ring.Valid()
  {
    && (s.sleepS != {} ==> Free(s) <= |s.wokenS|)
    && (s.sleepR != {} ==> |s.ring.Pending()| <= |s.wokenR|)
  }

  ghost predicate Live<T>(s: State<T>) {
    Fifo(s) && !s.ring.isClosed && WaitSetsOk(s) && NoLostWakeup(s)
  }

  predicate Ordinary<T>(e: Step<T>) { !e.Clear? && !e.Close? && !e.TimeoutTakesSignal? }

  lemma LeaveKeepsWaitSets<T>(s: State<T>, t: Tid)
    requires WaitSetsOk(s) && t in s.calls
    ensures WaitSetsOk(Leave(s, t)) && t !in Leave(s, t).calls
  {
  }

  lemma SendKeepsWaitSets<T>(s: State<T>, t: Tid, m: T, timed: bool, w: Option<Tid>)
    requires s.ring.Valid() && WaitSetsOk(s) && t !in s.calls && (PutsNow(s) ==> SignalWakes(s.sleepR, w))
    ensures WaitSetsOk(LockedSend(s, t, m, timed, w))
  {
  }

  lemma ReceiveKeepsWaitSets<T>(s: State<T>, t: Tid, timed: bool, w: Option<Tid>)
    requires s.ring.Valid() && WaitSetsOk(s) && t !in s.calls && (TakesNow(s) ==> SignalWakes(s.sleepS, w))
    ensures WaitSetsOk(LockedReceive(s, t, timed, w))
  {
  }

  lemma StepKeepsWaitSets<T>(s: State<T>, e: Step<T>)
    requires s.ring.Valid() && WaitSetsOk(s) && Enabled(s, e)
    ensures WaitSetsOk(Apply(s, e))
  {
    match e {
      case SendCall(t, m, timed, w) => SendKeepsWaitSets(s, t, m, timed, w);
      case ReceiveCall(t, timed, w) => ReceiveKeepsWaitSets(s, t, timed, w);
      case SendResume(t, w) =>
        LeaveKeepsWaitSets(s, t);
        SendKeepsWaitSets(Leave(s, t), t, s.calls[t].msg, s.calls[t].timed, w);
      case ReceiveResume(t, w) =>
        LeaveKeepsWaitSets(s, t);
        ReceiveKeepsWaitSets(Leave(s, t), t, s.calls[t].timed, w);
      case _ =>
    }
  }

  lemma RingCounts<T>(r: Ring<T>, m: T)
    requires r.Valid()
    ensures r.isEmpty <==> |r.Pending()| == 0
    ensures r.isFull <==> |r.Pending()| == |r.buf|
    ensures !r.isFull ==> r.Put(m).Valid() && |r.Put(m).Pending()| == |r.Pending()| + 1
    ensures !r.isEmpty ==> r.Take().Valid() && |r.Take().Pending()| == |r.Pending()| - 1
  {
    FlagsAgreeWithPending(r);
    if !r.isFull {
      PutAppends(r, m);
    }
    if !r.isEmpty {
      TakeRemovesOldest(r);
    }
  }

  lemma SendKeepsWakeups<T>(s: State<T>, t: Tid, m: T, timed: bool, w: Option<Tid>)
    requires s.ring.Valid() && !s.ring.isClosed && WaitSetsOk(s) && t !in s.calls
    requires PutsNow(s) ==> SignalWakes(s.sleepR, w)
    requires s.sleepS != {} ==> Free(s) <= |s.wokenS| + 1
    requires s.sleepR != {} ==> |s.ring.Pending()| <= |s.wokenR|
    ensures LockedSend(s, t, m, timed, w).ring.Valid() && NoLostWakeup(LockedSend(s, t, m, timed, w))
  {
    RingCounts(s.ring, m);
  }

  lemma ReceiveKeepsWakeups<T>(s: State<T>, t: Tid, timed: bool, w: Option<Tid>)
    requires s.ring.Valid() && !s.ring.isClosed && WaitSetsOk(s) && t !in s.calls
    requires TakesNow(s) ==> SignalWakes(s.sleepS, w)
    requires s.sleepS != {} ==> Free(s) <= |s.wokenS|
    requires s.sleepR != {} ==> |s.ring.Pending()| <= |s.wokenR| + 1
    ensures LockedReceive(s, t, timed, w).ring.Valid() && NoLostWakeup(LockedReceive(s, t, timed, w))
  {
    RingCounts(s.ring, s.ring.buf[s.ring.tail]);
  }

  ghost predicate Awaited<T>(s: State<T>) {
    s.ring.Valid() && !s.ring.isClosed && WaitSetsOk(s) && NoLostWakeup(s)
  }

  lemma SendResumeKeepsWakeups<T>(s: State<T>, t: Tid, w: Option<Tid>)
    requires Awaited(s) && t in s.wokenS && t in s.calls && s.calls[t].Sending?
    requires PutsNow(s) ==> SignalWakes(s.sleepR, w)
    ensures var f := LockedSend(Leave(s, t), t, s.calls[t].msg, s.calls[t].timed, w);
            f.ring.Valid() && NoLostWakeup(f)
  {
    LeaveKeepsWaitSets(s, t);
    SendKeepsWakeups(Leave(s, t), t, s.calls[t].msg, s.calls[t].timed, w);
  }

  lemma ReceiveResumeKeepsWakeups<T>(s: State<T>, t: Tid, w: Option<Tid>)
    requires Awaited(s) && t in s.wokenR && t in s.calls
    requires TakesNow(s) ==> SignalWakes(s.sleepS, w)
    ensures var f := LockedReceive(Leave(s, t), t, s.calls[t].timed, w);
            f.ring.Valid() && NoLostWakeup(f)
  {
    LeaveKeepsWaitSets(s, t);
    ReceiveKeepsWakeups(Leave(s, t), t, s.calls[t].timed, w);
  }

  lemma SpuriousKeepsWakeups<T>(s: State<T>, t: Tid)
    requires Awaited(s) && Enabled(s, Spurious(t))
    ensures NoLostWakeup(Apply(s, Spurious(t)))
  {
  }

  lemma TimeoutKeepsWakeups<T>(s: State<T>, t: Tid)
    requires Awaited(s) && t in s.sleepS + s.sleepR && t in s.calls
    ensures NoLostWakeup(TimesOut(s, t))
  {
  }

  lemma StepKeepsWakeups<T>(s: State<T>, e: Step<T>)
    requires Live(s) && Enabled(s, e) && Ordinary(e)
    ensures Live(Apply(s, e))
  {
    StepKeepsFifo(s, e);
    StepKeepsWaitSets(s, e);
    assert NoLostWakeup(Apply(s, e)) by {
      match e {
        case SendCall(t, m, timed, w) => SendKeepsWakeups(s, t, m, timed, w);
        case ReceiveCall(t, timed, w) => ReceiveKeepsWakeups(s, t, timed, w);
        case SendResume(t, w) => SendResumeKeepsWakeups(s, t, w);
        case ReceiveResume(t, w) => ReceiveResumeKeepsWakeups(s, t, w);
        case Spurious(t) => SpuriousKeepsWakeups(s, t);
        case Timeout(t) => TimeoutKeepsWakeups(s, t);
      }
    }
  }

  /** No wakeup is lost in any run without Clear or close whose timeouts leave signals alone. */
  lemma {:induction false} RunLosesNoWakeup<T>(s: State<T>, steps: seq<Step<T>>)
    requires Live(s) && IsRun(s, steps)
    requires forall e :: e in steps ==> Ordinary(e)
    ensures Live(After(s, steps))
    ensures NeverAllAsleep(After(s, steps))
    decreases |steps|
  {
    if steps == [] {
      FlagsAgreeWithPending(s.ring);
    } else {
      assert Ordinary(steps[0]);
      StepKeepsWakeups(s, steps[0]);
      RunLosesNoWakeup(Apply(s, steps[0]), steps[1..]);
    }
  }

  /** A sender and a receiver are never both stuck with nobody on the way to wake them. */
  ghost predicate NeverAllAsleep<T>(s: State<T>) {
    s.sleepS != {} && s.sleepR != {} ==> s.wokenS != {} || s.wokenR != {}
  }

  lemma InitialIsLive<T>(buf: seq<T>)
    requires |buf| > 0
    ensures Live(Initial(buf)) && OnlyReceived(Initial(buf).exits)
  {
  }

  // ---------------------------------------------------------------- what the callers see

  // The last call of every thread, as the steps tell it.
  type Calls<T> = map<Tid, Call<T>>

  function Made<T>(e: Step<T>, made: Calls<T>): (r: Calls<T>) {
    match e
    case SendCall(t, m, timed, _) => made[t := Sending(m, timed)]
    case ReceiveCall(t, timed, _) => made[t := Receiving(timed)]
    case _ => made
  }

  function LastCalls<T>(steps: seq<Step<T>>, made: Calls<T>): (r: Calls<T>)
    decreases |steps|
  {
    if steps == [] then made else LastCalls(steps[1..], Made(steps[0], made))
  }

  /** A thread that waits, waits in the call that it made last. */
  ghost predicate Remembers<T>(s: State<T>, made: Calls<T>) {
    forall t :: t in s.calls ==> t in made && made[t] == s.calls[t]
  }

  /** What the sender passed in the call that is answered Ok. */
  function Accepted<T>(r: Reply<T>, made: Calls<T>): (ms: seq<T>) {
    if r.SendReturns? && r.err == Ok && r.t in made && made[r.t].Sending? then [made[r.t].msg] else []
  }

  /** What a receiver is handed. */
  function HandedOut<T>(r: Reply<T>): (ms: seq<T>) {
    if r.ReceiveReturns? && r.err == Ok && r.got.Some? then [r.got.value] else []
  }

  ghost function AllAccepted<T>(s: State<T>, steps: seq<Step<T>>, made: Calls<T>): (ms: seq<T>)
    requires IsRun(s, steps)
    decreases |steps|
  {
    if steps == [] then []
    else
      var f, now := Apply(s, steps[0]), Made(steps[0], made);
      Accepted(f.reply, now) + AllAccepted(f, steps[1..], now)
  }

  ghost function AllHandedOut<T>(s: State<T>, steps: seq<Step<T>>): (ms: seq<T>)
    requires IsRun(s, steps)
    decreases |steps|
  {
    if steps == [] then []
    else HandedOut(Apply(s, steps[0]).reply) + AllHandedOut(Apply(s, steps[0]), steps[1..])
  }

  lemma StepRemembers<T>(s: State<T>, e: Step<T>, made: Calls<T>)
    requires s.ring.Valid() && Enabled(s, e) && Remembers(s, made)
    ensures Remembers(Apply(s, e), Made(e, made))
  {
  }

  /** A step stores a message exactly when it answers a send with Ok, and it is the caller's own. */
  lemma StepSendsOwn<T>(s: State<T>, e: Step<T>, made: Calls<T>)
    requires s.ring.Valid() && Enabled(s, e) && Remembers(s, made)
    ensures Apply(s, e).sent == s.sent + Accepted(Apply(s, e).reply, Made(e, made))
  {
  }

  lemma DeliveriesGrow<T>(xs: seq<Exit<T>>, x: Exit<T>)
    ensures Deliveries(xs + [x]) == Deliveries(xs) + if x.Received? then [x.msg] else []
  {
    assert (xs + [x])[..|xs|] == xs;
  }

  lemma {:induction false} DropsDeliverNothing<T>(xs: seq<Exit<T>>, ms: seq<T>)
    ensures Deliveries(xs + Drops(ms)) == Deliveries(xs)
    decreases |ms|
  {
    if ms == [] {
      assert xs + Drops(ms) == xs;
    } else {
      var n := |ms| - 1;
      DropsDeliverNothing(xs, ms[..n]);
      assert xs + Drops(ms) == (xs + Drops(ms[..n])) + [Dropped(ms[n])];
      DeliveriesGrow(xs + Drops(ms[..n]), Dropped(ms[n]));
    }
  }

  lemma ReceiveHandsOut<T>(s: State<T>, t: Tid, timed: bool, w: Option<Tid>)
    requires s.ring.Valid()
    ensures var f := LockedReceive(s, t, timed, w); Deliveries(f.exits) == Deliveries(s.exits) + HandedOut(f.reply)
  {
    DeliveriesGrow(s.exits, Received(s.ring.buf[s.ring.tail]));
  }

  lemma SendHandsOutNothing<T>(s: State<T>, t: Tid, m: T, timed: bool, w: Option<Tid>)
    requires s.ring.Valid()
    ensures var f := LockedSend(s, t, m, timed, w); f.exits == s.exits && HandedOut(f.reply) == []
  {
  }

  lemma ClearHandsOutNothing<T>(s: State<T>, w: Option<Tid>)
    requires s.ring.Valid()
    ensures var f := LockedClear(s, w); Deliveries(f.exits) == Deliveries(s.exits) && HandedOut(f.reply) == []
  {
    DropsDeliverNothing(s.exits, s.ring.Pending());
  }

  lemma WaitingHandsOutNothing<T>(s: State<T>, e: Step<T>)
    requires s.ring.Valid() && Enabled(s, e) && OnlyWaits(e)
    ensures var f := Apply(s, e); f.exits == s.exits && HandedOut(f.reply) == []
  {
  }

  /** A message is delivered exactly when the step's answer hands it out. */
  lemma StepHandsOut<T>(s: State<T>, e: Step<T>)
    requires s.ring.Valid() && Enabled(s, e)
    ensures Deliveries(Apply(s, e).exits) == Deliveries(s.exits) + HandedOut(Apply(s, e).reply)
  {
    match e {
      case SendCall(t, m, timed, w) => SendHandsOutNothing(s, t, m, timed, w);
      case SendResume(t, w) => SendHandsOutNothing(Leave(s, t), t, s.calls[t].msg, s.calls[t].timed, w);
      case ReceiveCall(t, timed, w) => ReceiveHandsOut(s, t, timed, w);
      case ReceiveResume(t, w) => ReceiveHandsOut(Leave(s, t), t, s.calls[t].timed, w);
      case Clear(w) => ClearHandsOutNothing(s, w);
      case Close(wS, wR, wS2) =>
        ClearHandsOutNothing(WakeReceiver(WakeSender(s, wS), wR).(ring := s.ring.(isClosed := true)), wS2);
      case _ => WaitingHandsOutNothing(s, e);
    }
  }

  /**
   Over every run the messages sent are, in this order, those that the senders passed in the calls that
   were answered Ok.
   */
  lemma {:induction false} SentIsWhatSendersPassed<T>(s: State<T>, steps: seq<Step<T>>, made: Calls<T>)
    requires IsRun(s, steps) && Remembers(s, made)
    ensures Remembers(After(s, steps), LastCalls(steps, made))
    ensures After(s, steps).sent == s.sent + AllAccepted(s, steps, made)
    decreases |steps|
  {
    if steps != [] {
      var f, now := Apply(s, steps[0]), Made(steps[0], made);
      StepRemembers(s, steps[0], made);
      StepSendsOwn(s, steps[0], made);
      SentIsWhatSendersPassed(f, steps[1..], now);
      Regroup(s.sent, Accepted(f.reply, now), AllAccepted(f, steps[1..], now));
    }
  }

  /** And the messages delivered are those that the answers handed to receivers. */
  lemma {:induction false} DeliveredIsWhatReceiversGot<T>(s: State<T>, steps: seq<Step<T>>)
    requires IsRun(s, steps)
    ensures Deliveries(After(s, steps).exits) == Deliveries(s.exits) + AllHandedOut(s, steps)
    decreases |steps|
  {
    if steps != [] {
      var f := Apply(s, steps[0]);
      StepHandsOut(s, steps[0]);
      DeliveredIsWhatReceiversGot(f, steps[1..]);
      Regroup(Deliveries(s.exits), HandedOut(f.reply), AllHandedOut(f, steps[1..]));
    }
  }

  /**
   So without Clear and close, seen from the calls and their answers alone: what senders passed in calls
   answered Ok is what receivers were handed, in the same order, followed by what is pending.
   */
  lemma QueueIsFifoForCallers<T>(buf: seq<T>, steps: seq<Step<T>>)
    requires |buf| > 0 && IsRun(Initial(buf), steps)
    requires forall e :: e in steps ==> !Discards(e)
    ensures var q := Initial(buf);
            AllAccepted(q, steps, map[]) == AllHandedOut(q, steps) + After(q, steps).ring.Pending()
  {
    var q := Initial(buf);
    SentIsWhatSendersPassed(q, steps, map[]);
    DeliveredIsWhatReceiversGot(q, steps);
    RunDeliversPrefix(q, steps);
    assert After(q, steps).sent == AllAccepted(q, steps, map[]);
    assert Deliveries(After(q, steps).exits) == AllHandedOut(q, steps);
  }

  // ---------------------------------------------------------------- which answer a call gets

  lemma SomebodyToSignal(sleep: set<Tid>) returns (w: Option<Tid>)
    ensures SignalWakes(sleep, w)
  {
    if sleep == {} {
      w := None;
    } else {
      var t :| t in sleep;
      w := Some(t);
    }
  }

  /** No step waits for another thread: whoever calls or has been woken can go on at once. */
  lemma NobodyIsHeldUp<T>(s: State<T>, t: Tid, m: T, timed: bool)
    requires s.ring.Valid() && WaitSetsOk(s)
    ensures t !in s.calls ==> exists w :: Enabled(s, SendCall(t, m, timed, w))
    ensures t !in s.calls ==> exists w :: Enabled(s, ReceiveCall(t, timed, w))
    ensures t in s.wokenS ==> exists w :: Enabled(s, SendResume(t, w))
    ensures t in s.wokenR ==> exists w :: Enabled(s, ReceiveResume(t, w))
    ensures exists w :: Enabled(s, Clear(w))
    ensures t in s.sleepS + s.sleepR ==> Enabled(s, Spurious(t)) && (Enabled(s, Timeout(t)) <==> s.calls[t].timed)
  {
    var wS := SomebodyToSignal(s.sleepS);
    var wR := SomebodyToSignal(s.sleepR);
    assert t !in s.calls ==> Enabled(s, SendCall(t, m, timed, wR)) && Enabled(s, ReceiveCall(t, timed, wS));
    assert t in s.wokenS ==> Enabled(s, SendResume(t, wR));
    assert t in s.wokenR ==> Enabled(s, ReceiveResume(t, wS));
    assert Enabled(s, Clear(wS));
  }

  /** The thread that holds the mutex in the step, in its call or after a wait. */
  function Runs<T>(e: Step<T>): (t: Option<Tid>) {
    match e
    case SendCall(t, _, _, _) => Some(t)
    case SendResume(t, _) => Some(t)
    case ReceiveCall(t, _, _) => Some(t)
    case ReceiveResume(t, _) => Some(t)
    case _ => None
  }

  predicate IsSend<T>(e: Step<T>) { e.SendCall? || e.SendResume? }

  /**
   A thread that gets to look at the queue is answered NoChange exactly when the queue is closed, waits
   exactly when it is open and full or empty, respectively, and is answered Ok otherwise; it never waits
   on for a reason that is gone.
   */
  lemma AnswerIff<T>(s: State<T>, e: Step<T>)
    requires s.ring.Valid() && Enabled(s, e) && Runs(e).Some?
    ensures var r, t := Apply(s, e).reply, Runs(e).value;
            var blocked := if IsSend(e) then |s.ring.Pending()| == |s.ring.buf| else s.ring.Pending() == [];
            && (r == Waits(t) <==> !s.ring.isClosed && blocked)
            && (r != Waits(t) ==> if IsSend(e) then r.SendReturns? && r.t == t else r.ReceiveReturns? && r.t == t)
            && (r != Waits(t) ==> r.err == if s.ring.isClosed then NoChange else Ok)
  {
    FlagsAgreeWithPending(s.ring);
  }

  predicate InNoWaitSet<T>(s: State<T>, t: Tid) {
    t !in s.sleepS && t !in s.wokenS && t !in s.sleepR && t !in s.wokenR && t !in s.calls
  }

  /** On a closed queue every call and every woken thread is sent away at once, and nothing else changes. */
  lemma ClosedSendsAway<T>(s: State<T>, e: Step<T>)
    requires Fifo(s) && WaitSetsOk(s) && s.ring.isClosed && Enabled(s, e) && Runs(e).Some?
    ensures var f, t := Apply(s, e), Runs(e).value;
            && f.reply == (if IsSend(e) then SendReturns(t, NoChange) else ReceiveReturns(t, NoChange, None))
            && InNoWaitSet(f, t) && f.ring == s.ring && f.sent == s.sent && f.exits == s.exits
  {
  }

  /** A wait ends with Time exactly when it times out, which only a call with a timeout does. */
  lemma TimeIff<T>(s: State<T>, e: Step<T>, made: Calls<T>)
    requires Fifo(s) && WaitSetsOk(s) && Enabled(s, e) && Remembers(s, made)
    ensures var f := Apply(s, e);
            && ((f.reply.SendReturns? || f.reply.ReceiveReturns?) && f.reply.err == Time
                <==> e.Timeout? || e.TimeoutTakesSignal?)
            && (e.Timeout? || e.TimeoutTakesSignal? ==>
                  && f.reply.t == e.t && InNoWaitSet(f, e.t) && e.t in made && made[e.t].timed
                  && (f.reply.SendReturns? <==> made[e.t].Sending?))
  {
  }

  /** Close signals two senders and one receiver: it wakes everybody exactly when no more than that sleep. */
  lemma CloseWakesAllIff<T>(s: State<T>, e: Step<T>)
    requires s.ring.Valid() && Enabled(s, e) && e.Close?
    ensures Apply(s, e).sleepS == {} && Apply(s, e).sleepR == {} <==> |s.sleepS| <= 2 && |s.sleepR| <= 1
  {
    var f := Apply(s, e);
    assert |f.sleepS| == if |s.sleepS| <= 2 then 0 else |s.sleepS| - 2;
    assert |f.sleepR| == if |s.sleepR| <= 1 then 0 else |s.sleepR| - 1;
  }

  // ---------------------------------------------------------------- where the guarantee ends

  /** A sender sleeps, there is room, and nobody is on the way: it may sleep forever. */
  ghost predicate Stranded<T>(s: State<T>)
    requires s.ring.Valid()
  {
    s.sleepS != {} && s.wokenS == {} && Free(s) > 0
  }

  /**
   Clear frees the whole buffer but signals one sender. From a full queue it keeps the guarantee
   exactly when at most one sender sleeps, or enough senders are already on the way.
   */
  lemma ClearKeepsWakeupsIff<T>(s: State<T>, w: Option<Tid>)
    requires Live(s) && Enabled(s, Clear(w)) && s.sleepS != {}
    ensures Apply(s, Clear(w)).ring.Valid()
    ensures NoLostWakeup(Apply(s, Clear(w))) <==> |s.sleepS| == 1 || |s.ring.buf| <= |s.wokenS| + 1
  {
    var f := Apply(s, Clear(w));
    assert f.ring.Pending() == [];
    assert |f.sleepS| == |s.sleepS| - 1;
    assert |f.wokenS| == |s.wokenS| + 1;
  }

  lemma {:induction false} RunExtends<T>(s: State<T>, steps: seq<Step<T>>, e: Step<T>)
    requires IsRun(s, steps) && Enabled(After(s, steps), e)
    requires Apply(After(s, steps), e).ring.Valid()
    ensures IsRun(s, steps + [e]) && After(s, steps + [e]) == Apply(After(s, steps), e)
    decreases |steps|
  {
    var all := steps + [e];
    if steps == [] {
      assert all[1..] == [];
      assert After(Apply(s, e), []) == Apply(s, e);
    } else {
      assert all[0] == steps[0] && all[1..] == steps[1..] + [e];
      RunExtends(Apply(s, steps[0]), steps[1..], e);
    }
  }

  /** Some run leads from the constructed queue with the buffer `buf` to the state. */
  ghost predicate Reachable<T(!new)>(buf: seq<T>, s: State<T>) {
    s.ring.Valid() && exists steps :: IsRun(Initial(buf), steps) && After(Initial(buf), steps) == s
  }

  lemma InitialIsReachable<T(!new)>(buf: seq<T>)
    requires |buf| > 0
    ensures Reachable(buf, Initial(buf))
  {
    assert IsRun(Initial(buf), []) && After(Initial(buf), []) == Initial(buf);
  }

  lemma StepReaches<T(!new)>(buf: seq<T>, s: State<T>, e: Step<T>)
    requires Reachable(buf, s) && Enabled(s, e) && Apply(s, e).ring.Valid()
    ensures Reachable(buf, Apply(s, e))
  {
    var steps :| IsRun(Initial(buf), steps) && After(Initial(buf), steps) == s;
    RunExtends(Initial(buf), steps, e);
  }

  /** A full queue of two with senders 3 and 4 asleep. */
  function TwoBlocked(): (s: State<int>) {
    State(Ring([10, 20], 0, 0, true, false, false), {3, 4}, {}, {}, {},
          map[3 := Sending(30, false), 4 := Sending(40, false)], [10, 20], [], Waits(4))
  }

  lemma TwoBlockedIsReachable()
    ensures Reachable([0, 0], TwoBlocked())
  {
    var buf := [0, 0];
    var full := FullOfTwo();
    StepReaches(buf, full, SendCall(3, 30, false, None));
    var s3 := full.(sleepS := {3}, calls := map[3 := Sending(30, false)], reply := Waits(3));
    assert Apply(full, SendCall(3, 30, false, None)) == s3;
    StepReaches(buf, s3, SendCall(4, 40, false, None));
    assert Apply(s3, SendCall(4, 40, false, None)) == TwoBlocked();
  }

  lemma HoldsOne() returns (s: State<int>)
    ensures s == State(Ring([10, 0], 1, 0, false, false, false), {}, {}, {}, {}, map[], [10], [], SendReturns(1, Ok))
    ensures Reachable([0, 0], s)
  {
    var buf := [0, 0];
    InitialIsReachable(buf);
    StepReaches(buf, Initial(buf), SendCall(1, 10, false, None));
    s := Apply(Initial(buf), SendCall(1, 10, false, None));
  }

  lemma FullOfTwo() returns (s: State<int>)
    ensures s == State(Ring([10, 20], 0, 0, true, false, false), {}, {}, {}, {}, map[], [10, 20], [],
             SendReturns(2, Ok))
    ensures Reachable([0, 0], s)
  {
    var s1 := HoldsOne();
    StepReaches([0, 0], s1, SendCall(2, 20, false, None));
    s := Apply(s1, SendCall(2, 20, false, None));
  }

  /** From there Clear wakes sender 3 only; once it has sent, sender 4 sleeps beside a free slot. */
  lemma ClearCanStrandASender()
    ensures var steps := [Clear(Some(3)), SendResume(3, None)];
            IsRun(TwoBlocked(), steps) && Stranded(After(TwoBlocked(), steps))
  {
    var s := TwoBlocked();
    var e1: Step<int>, e2: Step<int> := Clear(Some(3)), SendResume(3, None);
    assert s.ring.Pending() == [10, 20];
    var s1 := Apply(s, e1);
    ClearedIsEmpty(s.ring);
    var s2 := Apply(s1, e2);
    assert s2.sleepS == {4} && s2.wokenS == {};
    RingCounts(s1.ring, 30);
    assert IsRun(s, []) && After(s, []) == s;
    RunExtends(s, [], e1);
    assert [] + [e1] == [e1];
    RunExtends(s, [e1], e2);
    assert [e1] + [e2] == [e1, e2];
  }

  /**
   A timed wait may report a timeout although a signal was directed at it (POSIX allows that). The
   thread then gives up without passing the wakeup on. For a sender the guarantee survives exactly
   when no other sender sleeps, or a woken sender remains for every free slot; for a receiver when no
   other receiver sleeps, or a woken receiver remains for every pending message.
   */
  lemma TimeoutTakingSignalKeepsWakeupsIff<T>(s: State<T>, t: Tid)
    requires Awaited(s) && Enabled(s, TimeoutTakesSignal(t))
    ensures NoLostWakeup(Apply(s, TimeoutTakesSignal(t)))
            <==> if t in s.wokenS then s.sleepS == {} || Free(s) < |s.wokenS|
                 else s.sleepR == {} || |s.ring.Pending()| < |s.wokenR|
  {
  }

  /** A receiver sleeps, a message is pending, and nobody is on the way. */
  ghost predicate StrandedReceiver<T>(s: State<T>)
    requires s.ring.Valid()
  {
    s.sleepR != {} && s.wokenR == {} && s.ring.Pending() != []
  }

  /** Such states are reached: here by a queue of one with two waiting threads of either kind. */
  lemma TimeoutCanStrandASender()
    ensures exists s :: Reachable([0], s) && Stranded(s)
  {
    var buf := [0];
    InitialIsReachable(buf);
    StepReaches(buf, Initial(buf), SendCall(1, 10, false, None));
    var s1 := State(Ring([10], 0, 0, true, false, false), {}, {}, {}, {}, map[], [10], [], SendReturns(1, Ok));
    assert Apply(Initial(buf), SendCall(1, 10, false, None)) == s1;
    SendersQueueUp(buf, s1);
  }

  lemma SendersQueueUp(buf: seq<int>, s1: State<int>)
    requires Reachable(buf, s1)
    requires s1 == State(Ring([10], 0, 0, true, false, false), {}, {}, {}, {}, map[], [10], [], SendReturns(1, Ok))
    ensures exists s :: Reachable(buf, s) && Stranded(s)
  {
    StepReaches(buf, s1, SendCall(2, 20, true, None));
    var s2 := s1.(sleepS := {2}, calls := map[2 := Sending(20, true)], reply := Waits(2));
    assert Apply(s1, SendCall(2, 20, true, None)) == s2;
    StepReaches(buf, s2, SendCall(3, 30, false, None));
    SenderGivesUp(buf, Apply(s2, SendCall(3, 30, false, None)));
  }

  /** Receiver 4 takes the only message and signals sender 2, whose wait ends in a timeout. */
  lemma SenderGivesUp(buf: seq<int>, s: State<int>)
    requires Reachable(buf, s) && s.ring == Ring([10], 0, 0, true, false, false)
    requires s.sleepS == {2, 3} && s.wokenS == {} && 2 in s.calls && s.calls[2].timed && 4 !in s.calls
    ensures exists f :: Reachable(buf, f) && Stranded(f)
  {
    StepReaches(buf, s, ReceiveCall(4, false, Some(2)));
    var s1 := Apply(s, ReceiveCall(4, false, Some(2)));
    StepReaches(buf, s1, TimeoutTakesSignal(2));
    var s2 := Apply(s1, TimeoutTakesSignal(2));
    assert s2.ring == Ring([10], 0, 0, false, true, false) && s2.wokenS == {} && s2.sleepS == {3};
    assert Stranded(s2);
  }

  lemma TimeoutCanStrandAReceiver()
    ensures exists s :: Reachable([0], s) && StrandedReceiver(s)
  {
    var buf := [0];
    InitialIsReachable(buf);
    StepReaches(buf, Initial(buf), ReceiveCall(1, true, None));
    var s1 := Initial(buf).(sleepR := {1}, calls := map[1 := Receiving(true)], reply := Waits(1));
    StepReaches(buf, s1, ReceiveCall(2, false, None));
    var s2 := s1.(sleepR := {1, 2}, calls := map[1 := Receiving(true), 2 := Receiving(false)], reply := Waits(2));
    ReceiverGivesUp(buf, s2);
  }

  /** Sender 3 stores a message and signals receiver 1, whose wait ends in a timeout. */
  lemma ReceiverGivesUp(buf: seq<int>, s: State<int>)
    requires Reachable(buf, s) && s.ring == Ring([0], 0, 0, false, true, false)
    requires s.sleepR == {1, 2} && s.wokenR == {} && 1 in s.calls && s.calls[1].timed && 3 !in s.calls
    requires 1 !in s.sleepS + s.wokenS
    ensures exists f :: Reachable(buf, f) && StrandedReceiver(f)
  {
    StepReaches(buf, s, SendCall(3, 10, false, Some(1)));
    var s1 := Apply(s, SendCall(3, 10, false, Some(1)));
    StepReaches(buf, s1, TimeoutTakesSignal(1));
    var s2 := Apply(s1, TimeoutTakesSignal(1));
    assert s2.ring == Ring([10], 0, 0, true, false, false) && s2.wokenR == {} && s2.sleepR == {2};
    assert StrandedReceiver(s2);
  }
}
