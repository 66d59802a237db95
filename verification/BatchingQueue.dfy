/** The batching queue (util/batching_queue.go): the sections that run under its lock, on an array that
    is reused after every batch, and every interleaving of producers, ticker and consumer. */
module BatchingQueue {

  /** What the locked section of Enqueue leaves in the buffer, and what it takes out. */
  function Rest<T>(buf: seq<T>, x: T, batchSize: int): seq<T> {
    if |buf| + 1 == batchSize then [] else buf + [x]
  }

  function Batch<T>(buf: seq<T>, x: T, batchSize: int): seq<T> {
    if |buf| + 1 == batchSize then buf + [x] else []
  }

  /** The queue's state under its lock. slots is a slice: the first len places of an array. Emitted and
      EmittedContents record the batches handed over so far and what they held then. */
  class BatchingQueue<T(0)> {
    const batchSize: int
    var slots: array<T>
    var len: nat
    ghost var Emitted: seq<array<T>>
    ghost var EmittedContents: seq<seq<T>>

    /** In particular no emitted batch shares the buffer, and none has changed since. */
    ghost predicate Valid()
      reads this, slots, Emitted
    {
      && len <= slots.Length
      && |Emitted| == |EmittedContents|
      && forall k :: 0 <= k < |Emitted| ==> Emitted[k] != slots && Emitted[k][..] == EmittedContents[k]
    }

    ghost function Buffer(): seq<T>
      requires len <= slots.Length
      reads this, slots
    {
      slots[..len]
    }

    constructor (batchSize: int)
      ensures Valid() && this.batchSize == batchSize && Buffer() == [] && Emitted == [] && fresh(slots)
    {
      this.batchSize := batchSize;
      slots := new T[0];
      len := 0;
      Emitted, EmittedContents := [], [];
    }

    /** append: in place while the array has room, else into a larger copy. */
    method Append(x: T)
      requires Valid()
      modifies this`slots, this`len, slots
      ensures Valid() && (slots == old(slots) || fresh(slots))
      ensures Buffer() == old(Buffer()) + [x]
    {
      if len == slots.Length {
        var larger := new T[2 * len + 1];
        for i := 0 to len
          invariant unchanged(this) && unchanged(slots) && fresh(larger)
          invariant larger[..i] == slots[..i]
        {
          larger[i] := slots[i];
        }
        slots := larger;
      }
      slots[len] := x;
      len := len + 1;
    }

    /** Copies the buffered elements out and truncates the buffer, keeping its array. */
    method DequeueAll() returns (elements: array<T>)
      requires Valid()
      modifies this`len, this`Emitted, this`EmittedContents
      ensures Valid() && fresh(elements)
      ensures elements[..] == old(Buffer()) && Buffer() == []
      ensures Emitted == old(Emitted) + [elements] && EmittedContents == old(EmittedContents) + [old(Buffer())]
    {
      elements := new T[len];
      for i := 0 to len
        invariant unchanged(this) && unchanged(slots) && fresh(elements)
        invariant elements[..i] == slots[..i]
      {
        elements[i] := slots[i];
      }
      assert elements[..] == Buffer();
      Emitted, EmittedContents := Emitted + [elements], EmittedContents + [Buffer()];
      len := 0;
    }

    /** The locked section of Enqueue; the caller sends the result if it is not empty. */
    method EnqueueLocked(x: T) returns (batch: seq<T>)
      requires Valid()
      modifies this`slots, this`len, this`Emitted, this`EmittedContents, slots
      ensures Valid()
      ensures Buffer() == Rest(old(Buffer()), x, batchSize)
      ensures batch == Batch(old(Buffer()), x, batchSize)
      ensures |old(Buffer())| + 1 == batchSize ==> batch == old(Buffer()) + [x] && Buffer() == []
      ensures |old(Buffer())| + 1 != batchSize ==> batch == [] && Buffer() == old(Buffer()) + [x]
      ensures old(Emitted) <= Emitted && old(EmittedContents) <= EmittedContents
    {
      Append(x);
      batch := [];
      if len == batchSize {
        var elements := DequeueAll();
        batch := elements[..];
      }
    }

    /** The locked section of the timeout ticker. */
    method TickLocked() returns (batch: seq<T>)
      requires Valid()
      modifies this`len, this`Emitted, this`EmittedContents
      ensures Valid() && batch == old(Buffer()) && Buffer() == []
      ensures old(Emitted) <= Emitted && old(EmittedContents) <= EmittedContents
    {
      var elements := DequeueAll();
      batch := elements[..];
    }
  }

  /* ---- interleavings ---- */

  /** batches lists what was taken out under the lock, in that order; inFlight is what producers and
      ticker are still sending; delivered is what the consumer has received, in that order. */
  datatype State<T> = State(
    batchSize: int, buf: seq<T>, enqueued: seq<T>, batches: seq<seq<T>>, inFlight: seq<seq<T>>, delivered: seq<seq<T>>)

  datatype Step<T> = Enqueue(x: T) | Tick | Deliver(k: nat)

  function Init<T>(batchSize: int): State<T> { State(batchSize, [], [], [], [], []) }

  predicate Enabled<T>(s: State<T>, e: Step<T>) { e.Deliver? ==> e.k < |s.inFlight| }

  function TakeOut<T>(s: State<T>, batch: seq<T>): State<T> {
    if |batch| == 0 then s else s.(batches := s.batches + [batch], inFlight := s.inFlight + [batch])
  }

  function Apply<T>(s: State<T>, e: Step<T>): State<T>
    requires Enabled(s, e)
  {
    match e
    case Enqueue(x) =>
      TakeOut(s.(enqueued := s.enqueued + [x], buf := Rest(s.buf, x, s.batchSize)), Batch(s.buf, x, s.batchSize))
    case Tick => TakeOut(s.(buf := []), s.buf)
    case Deliver(k) =>
      s.(inFlight := s.inFlight[..k] + s.inFlight[k + 1..], delivered := s.delivered + [s.inFlight[k]])
  }

  ghost predicate Runs<T>(s: State<T>, es: seq<Step<T>>)
    decreases |es|
  {
    es == [] || (Enabled(s, es[0]) && Runs(Apply(s, es[0]), es[1..]))
  }

  ghost function After<T>(s: State<T>, es: seq<Step<T>>): State<T>
    requires Runs(s, es)
    decreases |es|
  {
    if es == [] then s else After(Apply(s, es[0]), es[1..])
  }

  function Flatten<T>(bs: seq<seq<T>>): seq<T> { if bs == [] then [] else Flatten(bs[..|bs| - 1]) + bs[|bs| - 1] }

  lemma FlattenSnoc<T>(bs: seq<seq<T>>, b: seq<T>)
    ensures Flatten(bs + [b]) == Flatten(bs) + b
  {
    assert (bs + [b])[..|bs|] == bs;
  }

  lemma {:induction false} FlattenConcat<T>(x: seq<seq<T>>, y: seq<seq<T>>)
    ensures Flatten(x + y) == Flatten(x) + Flatten(y)
  {
    if y == [] {
      assert x + y == x;
    } else {
      var front, b := y[..|y| - 1], y[|y| - 1];
      FlattenConcat(x, front);
      assert x + y == (x + front) + [b];
      FlattenSnoc(x + front, b);
    }
  }

  lemma FlattenWithout<T>(x: seq<seq<T>>, b: seq<T>, y: seq<seq<T>>)
    ensures multiset(Flatten((x + [b]) + y)) == multiset(Flatten(x + y)) + multiset(b)
  {
    FlattenConcat(x + [b], y);
    FlattenSnoc(x, b);
    FlattenConcat(x, y);
    MultisetMiddle(Flatten(x), b, Flatten(y));
  }

  lemma SplitAt<T>(bs: seq<T>, k: nat)
    requires k < |bs|
    ensures bs == (bs[..k] + [bs[k]]) + bs[k + 1..]
  {}

  lemma FlattenRemove<T>(bs: seq<seq<T>>, k: nat)
    requires k < |bs|
    ensures multiset(Flatten(bs)) == multiset(Flatten(bs[..k] + bs[k + 1..])) + multiset(bs[k])
  {
    SplitAt(bs, k);
    FlattenWithout(bs[..k], bs[k], bs[k + 1..]);
  }

  lemma MultisetMiddle<T>(x: seq<T>, b: seq<T>, y: seq<T>)
    ensures multiset((x + b) + y) == multiset(x + y) + multiset(b)
  {}

  ghost predicate Conserved<T>(s: State<T>) {
    && Flatten(s.batches) + s.buf == s.enqueued
    && multiset(Flatten(s.batches)) == multiset(Flatten(s.inFlight)) + multiset(Flatten(s.delivered))
  }

  predicate Fits<T>(b: seq<T>, batchSize: int) { 1 <= |b| && (batchSize >= 1 ==> |b| <= batchSize) }

  ghost predicate Sized<T>(s: State<T>) {
    && (s.batchSize >= 1 ==> |s.buf| < s.batchSize)
    && (forall k :: 0 <= k < |s.batches| ==> Fits(s.batches[k], s.batchSize))
  }

  ghost predicate Inv<T>(s: State<T>) { Conserved(s) && Sized(s) }

  lemma TakeOutOrder<T>(batches: seq<seq<T>>, batch: seq<T>, buf: seq<T>)
    ensures Flatten(batches + [batch]) + buf == Flatten(batches) + (batch + buf)
  {
    FlattenSnoc(batches, batch);
    assert (Flatten(batches) + batch) + buf == Flatten(batches) + (batch + buf);
  }

  lemma TakeOutCount<T>(batches: seq<seq<T>>, inFlight: seq<seq<T>>, delivered: seq<seq<T>>, batch: seq<T>)
    requires multiset(Flatten(batches)) == multiset(Flatten(inFlight)) + multiset(Flatten(delivered))
    ensures multiset(Flatten(batches + [batch])) == multiset(Flatten(inFlight + [batch])) + multiset(Flatten(delivered))
  {
    FlattenSnoc(batches, batch);
    FlattenSnoc(inFlight, batch);
    MultisetConcat(Flatten(batches), batch);
    MultisetConcat(Flatten(inFlight), batch);
  }

  lemma MultisetConcat<T>(x: seq<T>, y: seq<T>)
    ensures multiset(x + y) == multiset(x) + multiset(y)
  {}

  lemma TakeOutKeeps<T>(s: State<T>, batch: seq<T>)
    requires Flatten(s.batches) + (batch + s.buf) == s.enqueued
    requires multiset(Flatten(s.batches)) == multiset(Flatten(s.inFlight)) + multiset(Flatten(s.delivered))
    ensures Conserved(TakeOut(s, batch))
  {
    if |batch| == 0 {
      assert batch + s.buf == s.buf;
    } else {
      TakeOutOrder(s.batches, batch, s.buf);
      TakeOutCount(s.batches, s.inFlight, s.delivered, batch);
    }
  }

  lemma EnqueueConserves<T>(s: State<T>, x: T)
    requires Conserved(s)
    ensures Conserved(Apply(s, Enqueue(x)))
  {
    var mid := s.(enqueued := s.enqueued + [x], buf := Rest(s.buf, x, s.batchSize));
    assert Batch(s.buf, x, s.batchSize) + mid.buf == s.buf + [x];
    assert Flatten(s.batches) + (s.buf + [x]) == (Flatten(s.batches) + s.buf) + [x];
    TakeOutKeeps(mid, Batch(s.buf, x, s.batchSize));
  }

  lemma EnqueueKeepsInv<T>(s: State<T>, x: T)
    requires Inv(s)
    ensures Inv(Apply(s, Enqueue(x)))
  {
    EnqueueConserves(s, x);
    EnqueueSized(s, x);
  }

  lemma EnqueueSized<T>(s: State<T>, x: T)
    requires Sized(s)
    ensures Sized(Apply(s, Enqueue(x)))
  {
    var batch := Batch(s.buf, x, s.batchSize);
    if |batch| > 0 {
      assert Fits(batch, s.batchSize);
      var next := Apply(s, Enqueue(x));
      assert next.batches == s.batches + [batch] && next.buf == [];
      forall k | 0 <= k < |next.batches| ensures Fits(next.batches[k], s.batchSize) {
        if k < |s.batches| { assert next.batches[k] == s.batches[k]; }
      }
    }
  }

  lemma TickKeepsInv<T>(s: State<T>)
    requires Inv(s)
    ensures Inv(Apply(s, Tick))
  {
    assert s.buf + [] == s.buf;
    TakeOutKeeps(s.(buf := []), s.buf);
    TickSized(s);
  }

  lemma TickSized<T>(s: State<T>)
    requires Sized(s)
    ensures Sized(Apply(s, Tick))
  {
    if |s.buf| > 0 {
      var next := Apply(s, Tick);
      assert Fits(s.buf, s.batchSize);
      assert next.batches == s.batches + [s.buf];
      forall k | 0 <= k < |next.batches| ensures Fits(next.batches[k], s.batchSize) {
        if k < |s.batches| { assert next.batches[k] == s.batches[k]; }
      }
    }
  }

  lemma DeliverKeepsInv<T>(s: State<T>, k: nat)
    requires Inv(s) && k < |s.inFlight|
    ensures Inv(Apply(s, Deliver(k)))
  {
    FlattenRemove(s.inFlight, k);
    FlattenSnoc(s.delivered, s.inFlight[k]);
  }

  lemma StepKeepsInv<T>(s: State<T>, e: Step<T>)
    requires Inv(s) && Enabled(s, e)
    ensures Inv(Apply(s, e))
  {
    match e
    case Enqueue(x) => EnqueueKeepsInv(s, x);
    case Tick => TickKeepsInv(s);
    case Deliver(k) => DeliverKeepsInv(s, k);
  }

  lemma {:induction false} RunKeepsInv<T>(s: State<T>, es: seq<Step<T>>)
    requires Inv(s) && Runs(s, es)
    ensures Inv(After(s, es))
    decreases |es|
  {
    if es != [] {
      StepKeepsInv(s, es[0]);
      RunKeepsInv(Apply(s, es[0]), es[1..]);
    }
  }

  /** Under every interleaving nothing is lost, duplicated or reordered before it leaves the lock: the
      batches in dequeue order, followed by the buffer, are what was enqueued; what was enqueued is
      what is buffered, in flight or delivered; and batches are never empty nor too long. */
  lemma NothingLost<T>(batchSize: int, es: seq<Step<T>>)
    requires Runs(Init<T>(batchSize), es)
    ensures var s := After(Init<T>(batchSize), es);
      && Flatten(s.batches) + s.buf == s.enqueued
      && multiset(s.enqueued) == multiset(s.buf) + multiset(Flatten(s.inFlight)) + multiset(Flatten(s.delivered))
  {
    RunKeepsInv(Init<T>(batchSize), es);
  }

  lemma BatchesFit<T>(batchSize: int, es: seq<Step<T>>, k: nat)
    requires Runs(Init<T>(batchSize), es) && k < |After(Init<T>(batchSize), es).batches|
    ensures Fits(After(Init<T>(batchSize), es).batches[k], batchSize)
  {
    RunKeepsInv(Init<T>(batchSize), es);
    SizeFixed(Init<T>(batchSize), es);
  }

  /** The batches are full, and so is every batch that is taken out but by the ticker. */
  ghost predicate FullBatches<T>(s: State<T>) {
    forall k :: 0 <= k < |s.batches| ==> |s.batches[k]| == s.batchSize
  }

  lemma EnqueueKeepsFull<T>(s: State<T>, x: T)
    requires FullBatches(s)
    ensures FullBatches(Apply(s, Enqueue(x)))
  {
    var next := Apply(s, Enqueue(x));
    forall k | 0 <= k < |next.batches| ensures |next.batches[k]| == s.batchSize {
      if k < |s.batches| { assert next.batches[k] == s.batches[k]; }
    }
  }

  lemma {:induction false} RunKeepsFull<T>(s: State<T>, es: seq<Step<T>>)
    requires Runs(s, es) && Tick !in es && FullBatches(s)
    ensures FullBatches(After(s, es)) && After(s, es).batchSize == s.batchSize
    decreases |es|
  {
    if es != [] {
      assert es[0] in es;
      match es[0] {
        case Enqueue(x) => EnqueueKeepsFull(s, x);
        case Deliver(_) =>
      }
      RunKeepsFull(Apply(s, es[0]), es[1..]);
    }
  }

  /** In all runs without the ticker every batch is full, and what is left over in the buffer is what the number
      of elements leaves when it is divided by the batch size. */
  lemma FullWithoutTicker<T>(batchSize: int, es: seq<Step<T>>)
    requires batchSize >= 1 && Runs(Init<T>(batchSize), es) && Tick !in es
    ensures var s := After(Init<T>(batchSize), es);
      && (forall k :: 0 <= k < |s.batches| ==> |s.batches[k]| == batchSize)
      && |s.buf| < batchSize && |s.batches| * batchSize + |s.buf| == |s.enqueued|
  {
    RunKeepsFull(Init<T>(batchSize), es);
    RunKeepsInv(Init<T>(batchSize), es);
    FlattenFull(After(Init<T>(batchSize), es).batches, batchSize);
  }

  lemma OneMore(n: nat, size: nat)
    ensures (n + 1) * size == n * size + size
  {}

  lemma {:induction false} FlattenFull<T>(bs: seq<seq<T>>, size: nat)
    requires forall k :: 0 <= k < |bs| ==> |bs[k]| == size
    ensures |Flatten(bs)| == |bs| * size
  {
    if bs != [] {
      FlattenFull(bs[..|bs| - 1], size);
      OneMore(|bs| - 1, size);
    }
  }

  lemma {:induction false} SizeFixed<T>(s: State<T>, es: seq<Step<T>>)
    requires Runs(s, es)
    ensures After(s, es).batchSize == s.batchSize
    decreases |es|
  {
    if es != [] { SizeFixed(Apply(s, es[0]), es[1..]); }
  }

  /* ---- order of delivery ---- */

  /** At most n batches are in flight at any time. */
  ghost predicate InFlightUpTo<T>(n: nat, s: State<T>, es: seq<Step<T>>)
    requires Runs(s, es)
    decreases |es|
  {
    |s.inFlight| <= n && (es == [] || InFlightUpTo(n, Apply(s, es[0]), es[1..]))
  }

  /** What has been delivered, then what is in flight, are the batches in dequeue order. */
  ghost predicate Queued<T>(s: State<T>) { s.batches == s.delivered + s.inFlight }

  lemma TakeOutKeepsQueued<T>(s: State<T>, batch: seq<T>)
    requires Queued(s)
    ensures Queued(TakeOut(s, batch))
  {
    assert (s.delivered + s.inFlight) + [batch] == s.delivered + (s.inFlight + [batch]);
  }

  lemma StepKeepsQueued<T>(s: State<T>, e: Step<T>)
    requires Enabled(s, e) && |s.inFlight| <= 1 && Queued(s)
    ensures Queued(Apply(s, e))
  {
    match e
    case Enqueue(x) =>
      TakeOutKeepsQueued(s.(enqueued := s.enqueued + [x], buf := Rest(s.buf, x, s.batchSize)),
        Batch(s.buf, x, s.batchSize));
    case Tick => TakeOutKeepsQueued(s.(buf := []), s.buf);
    case Deliver(k) => assert s.inFlight == [s.inFlight[0]];
  }

  lemma {:induction false} RunKeepsQueued<T>(s: State<T>, es: seq<Step<T>>)
    requires Runs(s, es) && InFlightUpTo(1, s, es) && Queued(s)
    ensures Queued(After(s, es))
    decreases |es|
  {
    if es != [] {
      StepKeepsQueued(s, es[0]);
      RunKeepsQueued(Apply(s, es[0]), es[1..]);
    }
  }

  /** As long as at most one batch is in flight at a time, the consumer receives the elements in the order
      in which they were enqueued; meanwhile any number of elements may be enqueued. */
  lemma OneSenderKeepsOrder<T>(batchSize: int, es: seq<Step<T>>)
    requires Runs(Init<T>(batchSize), es) && InFlightUpTo(1, Init<T>(batchSize), es)
    ensures var s := After(Init<T>(batchSize), es); Flatten(s.delivered) + (Flatten(s.inFlight) + s.buf) == s.enqueued
  {
    RunKeepsInv(Init<T>(batchSize), es);
    RunKeepsQueued(Init<T>(batchSize), es);
    var s := After(Init<T>(batchSize), es);
    FlattenConcat(s.delivered, s.inFlight);
    ConcatAssociative(Flatten(s.delivered), Flatten(s.inFlight), s.buf);
  }

  lemma ConcatAssociative<T>(x: seq<T>, y: seq<T>, z: seq<T>)
    ensures (x + y) + z == x + (y + z)
  {}

  ghost predicate Legal<T>(batchSize: int, n: nat, es: seq<Step<T>>) {
    Runs(Init<T>(batchSize), es) && InFlightUpTo(n, Init<T>(batchSize), es)
  }

  /** What the consumer has received is the beginning of what was enqueued. */
  ghost predicate InOrder<T>(batchSize: int, es: seq<Step<T>>)
    requires Runs(Init<T>(batchSize), es)
  {
    Flatten(After(Init<T>(batchSize), es).delivered) <= After(Init<T>(batchSize), es).enqueued
  }

  lemma {:induction false} FewerInFlight<T>(m: nat, n: nat, s: State<T>, es: seq<Step<T>>)
    requires m <= n && Runs(s, es) && InFlightUpTo(m, s, es)
    ensures InFlightUpTo(n, s, es)
    decreases |es|
  {
    if es != [] { FewerInFlight(m, n, Apply(s, es[0]), es[1..]); }
  }

  /** Whatever the batch size, the order is kept in all runs with at most n batches in flight if and only
      if n is at most one: the channel send happens outside the lock. */
  lemma OrderKeptExactly<T>(batchSize: int, n: nat, x: T, y: T)
    requires x != y
    ensures (forall es: seq<Step<T>> :: Legal(batchSize, n, es) ==> InOrder(batchSize, es)) <==> n <= 1
  {
    if n <= 1 {
      forall es: seq<Step<T>> | Legal(batchSize, n, es) ensures InOrder(batchSize, es) {
        FewerInFlight(n, 1, Init<T>(batchSize), es);
        OneSenderKeepsOrder(batchSize, es);
      }
    } else {
      var es := TwoSendersMayReorder(batchSize, x, y);
      FewerInFlight(2, n, Init<T>(batchSize), es);
      assert Legal(batchSize, n, es) && !InOrder(batchSize, es);
    }
  }

  lemma FlushedOne<T>(s: State<T>, x: T)
    requires s.buf == []
    ensures var next := Apply(Apply(s, Enqueue(x)), Tick);
      next == s.(enqueued := s.enqueued + [x], batches := s.batches + [[x]], inFlight := s.inFlight + [[x]])
  {
    var mid := Apply(s, Enqueue(x));
    if s.batchSize == 1 {
      assert Batch(s.buf, x, 1) == [x] && mid.buf == [];
    } else {
      assert Batch(s.buf, x, s.batchSize) == [] && mid.buf == [x];
    }
  }

  /** Two batches in flight may arrive in the other order. */
  lemma TwoSendersMayReorder<T>(batchSize: int, x: T, y: T) returns (es: seq<Step<T>>)
    requires x != y
    ensures Runs(Init<T>(batchSize), es) && InFlightUpTo(2, Init<T>(batchSize), es)
    ensures var s := After(Init<T>(batchSize), es);
      s.enqueued == [x, y] && s.delivered == [[y]] && !InOrder(batchSize, es)
  {
    var s0 := Init<T>(batchSize);
    var s1 := Apply(s0, Enqueue(x));
    var s2 := Apply(s1, Tick);
    FlushedOne(s0, x);
    var s3 := Apply(s2, Enqueue(y));
    var s4 := Apply(s3, Tick);
    FlushedOne(s2, y);
    assert s2.inFlight == [[x]] && s4.inFlight == [[x], [y]] && s4.enqueued == [x, y];
    var s5 := Apply(s4, Deliver(1));
    assert s5.delivered == [[y]] && Flatten([[y]]) == [y] by { assert [[y]][..0] == []; }
    assert [y][0] != [x, y][0];
    es := RunOne(s4, Deliver(1), []);
    es := RunOne(s3, Tick, es);
    es := RunOne(s2, Enqueue(y), es);
    es := RunOne(s1, Tick, es);
    es := RunOne(s0, Enqueue(x), es);
  }

  lemma RunOne<T>(s: State<T>, e: Step<T>, rest: seq<Step<T>>) returns (es: seq<Step<T>>)
    requires Enabled(s, e) && Runs(Apply(s, e), rest) && |s.inFlight| <= 2 && InFlightUpTo(2, Apply(s, e), rest)
    ensures Runs(s, es) && After(s, es) == After(Apply(s, e), rest) && InFlightUpTo(2, s, es)
  {
    es := [e] + rest;
    assert es[1..] == rest;
  }
}
