/**
 The blocking message queue: a cyclic buffer with a head index (next write), a tail index
 (next read) and two flags that tell a full buffer from an empty one when the indices meet.

 `Ring` is the state that the mutex protects, as a value, so that the sequential class below and
 the concurrent step system in QueueProtocol talk about the same transitions.
 */
module RingBuffer {
  datatype Ring<T> = Ring(buf: seq<T>, head: nat, tail: nat, isFull: bool, isEmpty: bool, isClosed: bool)
  {
    /** The flags disambiguate `head == tail`, and are both down when the indices differ. */
    ghost predicate Valid() {
      && head < |buf|
      && tail < |buf|
      && (isFull || isEmpty ==> head == tail)
      && (head == tail ==> isFull != isEmpty)
    }

    function Count(): (r: nat)
      requires head < |buf| && tail < |buf|
    {
      if isFull then |buf| else if tail <= head then head - tail else head + |buf| - tail
    }

    /** The messages waiting in the buffer, oldest first. */
    ghost function Pending(): (r: seq<T>)
      requires Valid()
    {
      Segment(buf, tail, Count())
    }

    /** Storing a message at the head, the locked part of a send that does not wait. */
    function Put(m: T): (r: Ring<T>)
      requires head < |buf|
    {
      var h := Wrap(head + 1, |buf|);
      this.(buf := buf[head := m], head := h, isEmpty := false, isFull := h == tail)
    }

    /** Advancing the tail, the locked part of a receive that does not wait. */
    function Take(): (r: Ring<T>)
      requires tail < |buf|
    {
      var t := Wrap(tail + 1, |buf|);
      this.(tail := t, isFull := false, isEmpty := head == t)
    }

    /** The state after ClearInternal: the tail has caught up with the head. */
    function Cleared(): (r: Ring<T>) {
      this.(tail := head, isEmpty := true, isFull := false)
    }
  }

  function Wrap(i: nat, n: nat): (r: nat) {
    if i >= n then i - n else i
  }

  /** The `n` entries of the cyclic buffer from index `i` on. */
  ghost function Segment<T>(buf: seq<T>, i: nat, n: nat): (r: seq<T>)
    requires i < |buf|
    ensures |r| == n
    decreases n
  {
    if n == 0 then [] else [buf[i]] + Segment(buf, Wrap(i + 1, |buf|), n - 1)
  }

  /** Writing just behind a segment extends it. */
  lemma {:induction false} SegmentExtends<T>(buf: seq<T>, i: nat, n: nat, h: nat, m: T)
    requires i < |buf| && n < |buf| && h == Wrap(i + n, |buf|)
    ensures Segment(buf[h := m], i, n + 1) == Segment(buf, i, n) + [m]
    decreases n
  {
    if n > 0 {
      SegmentExtends(buf, Wrap(i + 1, |buf|), n - 1, h, m);
    }
  }

  lemma PutAppends<T>(r: Ring<T>, m: T)
    requires r.Valid() && !r.isFull
    ensures r.Put(m).Valid()
    ensures r.Put(m).Pending() == r.Pending() + [m]
  {
    SegmentExtends(r.buf, r.tail, r.Count(), r.head, m);
  }

  lemma TakeRemovesOldest<T>(r: Ring<T>)
    requires r.Valid() && !r.isEmpty
    ensures r.Take().Valid()
    ensures r.Pending() == [r.buf[r.tail]] + r.Take().Pending()
  {
    assert r.Count() == 1 + r.Take().Count();
  }

  /**
   The loop of ClearInternal has released these messages of `r`, and the tail stands at `t`. In a full
   buffer the tail meets the head from the start.
   */
  ghost predicate DrainedTo<T>(r: Ring<T>, released: seq<T>, t: nat)
    requires r.Valid()
  {
    if r.isFull then t == r.head && released == []
    else
      var rest := r.(tail := t, isEmpty := r.head == t);
      rest.Valid() && r.Pending() == released + rest.Pending()
  }

  lemma DrainBegins<T>(r: Ring<T>)
    requires r.Valid()
    ensures DrainedTo(r, [], r.tail)
  {
  }

  lemma DrainStep<T>(r: Ring<T>, released: seq<T>, t: nat)
    requires r.Valid() && DrainedTo(r, released, t) && t != r.head
    ensures t < |r.buf| && DrainedTo(r, released + [r.buf[t]], Wrap(t + 1, |r.buf|))
    ensures |released| < |r.Pending()|
  {
    var rest := r.(tail := t, isEmpty := r.head == t);
    TakeRemovesOldest(rest);
    var next := rest.Take();
    assert released + ([r.buf[t]] + next.Pending()) == released + [r.buf[t]] + next.Pending();
    assert next == r.(tail := next.tail, isEmpty := r.head == next.tail);
  }

  lemma DrainEnds<T>(r: Ring<T>, released: seq<T>)
    requires r.Valid() && DrainedTo(r, released, r.head)
    ensures released == if r.isFull then [] else r.Pending()
  {
  }

  lemma ClearedIsEmpty<T>(r: Ring<T>)
    requires r.Valid()
    ensures r.Cleared().Valid()
    ensures r.Cleared().Pending() == []
  {
  }

  /** The two flags say exactly what the users of IsEmpty and IsFull read into them. */
  lemma FlagsAgreeWithPending<T>(r: Ring<T>)
    requires r.Valid()
    ensures r.isEmpty <==> r.Pending() == []
    ensures r.isFull <==> |r.Pending()| == |r.buf|
    ensures |r.Pending()| <= |r.buf|
  {
  }
}

/** The queue object as one thread sees it while no other thread holds the mutex. */
module Queue {
  import opened Errors
  import opened RingBuffer

  class EebusQueue<T(0)> {
    const msgBuf: array<T>
    var head: nat
    var tail: nat
    var isClosed: bool
    var isFull: bool
    var isEmpty: bool
    const hasDeallocator: bool
    // Every message handed to the deallocator so far, in order.
    var deallocated: seq<T>

    ghost function State(): (r: Ring<T>)
      reads this, msgBuf
    {
      Ring(msgBuf[..], head, tail, isFull, isEmpty, isClosed)
    }

    ghost predicate Valid()
      reads this, msgBuf
    {
      State().Valid()
    }

    ghost function Pending(): (r: seq<T>)
      requires Valid()
      reads this, msgBuf
    {
      State().Pending()
    }

    constructor (maxMsg: nat, withDeallocator: bool)
      requires maxMsg > 0
      ensures Valid() && fresh(msgBuf)
      ensures Pending() == [] && msgBuf.Length == maxMsg
      ensures !isClosed && hasDeallocator == withDeallocator && deallocated == []
    {
      msgBuf := new T[maxMsg];
      head, tail := 0, 0;
      isClosed, isFull, isEmpty := false, false, true;
      hasDeallocator := withDeallocator;
      deallocated := [];
    }

    /** SendInternal once its wait is over: either there is room or the queue was closed. */
    method SendInternal(msg: T) returns (err: EebusError)
      requires Valid()
      requires !isFull || isClosed
      modifies this, msgBuf
      ensures Valid() && deallocated == old(deallocated)
      ensures err == if old(isClosed) then NoChange else Ok
      ensures State() == if err == Ok then old(State()).Put(msg) else old(State())
      ensures Pending() == if err == Ok then old(Pending()) + [msg] else old(Pending())
    {
      if isClosed {
        return NoChange;
      }
      ghost var before := State();
      PutAppends(before, msg);
      msgBuf[head] := msg;
      head := head + 1;
      if head >= msgBuf.Length {
        head := 0;
      }
      isEmpty := false;
      isFull := head == tail;
      assert State() == before.Put(msg);
      err := Ok;
    }

    /** A send with a finite timeout while nobody else touches the queue: a full queue times out. */
    method Send(msg: T) returns (err: EebusError)
      requires Valid()
      modifies this, msgBuf
      ensures Valid() && deallocated == old(deallocated)
      ensures err == if old(isClosed) then NoChange
                     else if |old(Pending())| == msgBuf.Length then Time
                     else Ok
      ensures Pending() == if err == Ok then old(Pending()) + [msg] else old(Pending())
    {
      FlagsAgreeWithPending(State());
      if isClosed {
        return NoChange;
      }
      if isFull {
        return Time;
      }
      err := SendInternal(msg);
    }

    /** ReceiveInternal once its wait is over: a message is there or the queue was closed. */
    method ReceiveInternal(initial: T) returns (err: EebusError, msg: T)
      requires Valid()
      requires !isEmpty || isClosed
      modifies this
      ensures Valid() && deallocated == old(deallocated)
      ensures err == if old(isClosed) then NoChange else Ok
      ensures State() == if err == Ok then old(State()).Take() else old(State())
      ensures err == Ok ==> old(Pending()) == [msg] + Pending()
      ensures err != Ok ==> msg == initial && Pending() == old(Pending())
    {
      msg := initial;
      if isClosed {
        return NoChange, msg;
      }
      TakeRemovesOldest(State());
      msg := msgBuf[tail];
      tail := tail + 1;
      if tail >= msgBuf.Length {
        tail := 0;
      }
      isFull := false;
      isEmpty := head == tail;
      err := Ok;
    }

    /** A receive with a finite timeout while nobody else touches the queue. */
    method Receive(initial: T) returns (err: EebusError, msg: T)
      requires Valid()
      modifies this
      ensures Valid() && deallocated == old(deallocated)
      ensures err == if old(isClosed) then NoChange else if old(Pending()) == [] then Time else Ok
      ensures err == Ok ==> old(Pending()) == [msg] + Pending()
      ensures err != Ok ==> msg == initial && Pending() == old(Pending())
    {
      FlagsAgreeWithPending(State());
      msg := initial;
      if isClosed {
        return NoChange, msg;
      }
      if isEmpty {
        return Time, msg;
      }
      err, msg := ReceiveInternal(initial);
    }

    /**
     The loop stops when the tail meets the head, so it releases every pending message, oldest
     first, unless the buffer is full: then the indices already meet and it releases none.
     */
    method ClearInternal()
      requires Valid()
      modifies this
      ensures Valid() && isClosed == old(isClosed)
      ensures State() == old(State()).Cleared() && Pending() == []
      ensures deallocated == old(deallocated)
                             + if hasDeallocator && !old(isFull) then old(Pending()) else []
    {
      ghost var start, log := State(), deallocated;
      ghost var released: seq<T> := [];
      DrainBegins(start);
      while tail != head
        invariant head == start.head && isClosed == start.isClosed && tail < msgBuf.Length
        invariant DrainedTo(start, released, tail)
        invariant deallocated == if hasDeallocator then log + released else log
        decreases |start.Pending()| - |released|
      {
        released := ReleaseOne(start, released, log);
      }
      DrainEnds(start, released);
      ClearedIsEmpty(start);
      isEmpty := true;
      isFull := false;
    }

    /** One turn of the loop of ClearInternal. */
    method ReleaseOne(ghost start: Ring<T>, ghost released: seq<T>, ghost log: seq<T>) returns (ghost released': seq<T>)
      requires start.Valid() && start.buf == msgBuf[..] && head == start.head && tail < msgBuf.Length && tail != head
      requires DrainedTo(start, released, tail)
      requires deallocated == if hasDeallocator then log + released else log
      modifies `tail, `deallocated
      ensures tail < msgBuf.Length && DrainedTo(start, released', tail) && |released| < |released'|
      ensures |released| < |start.Pending()|
      ensures deallocated == if hasDeallocator then log + released' else log
    {
      DrainStep(start, released, tail);
      released' := released + [msgBuf[tail]];
      if hasDeallocator {
        deallocated := deallocated + [msgBuf[tail]];
        assert deallocated == log + released';
      }
      tail := tail + 1;
      if tail >= msgBuf.Length {
        tail := 0;
      }
    }

    /** The locked part of Destruct: no send or receive can succeed from here on. */
    method Close()
      requires Valid()
      modifies this
      ensures Valid() && isClosed && Pending() == []
      ensures State() == old(State()).(isClosed := true).Cleared()
    {
      isClosed := true;
      ClearInternal();
    }
  }

  /**
   What Clear promises ("clear pending messages") is met exactly when the buffer is not full:
   the deallocator then gets each pending message once.
   */
  method ClearReleasesEverything<T(0)>(q: EebusQueue<T>)
    requires q.Valid() && q.hasDeallocator && q.deallocated == []
    modifies q
    ensures q.Valid() && q.Pending() == []
    ensures q.deallocated == old(q.Pending()) <==> |old(q.Pending())| < q.msgBuf.Length
  {
    FlagsAgreeWithPending(q.State());
    q.ClearInternal();
  }
}
