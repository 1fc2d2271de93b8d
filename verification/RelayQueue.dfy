/**
  One relay destination of the boot: concurrent enqueue calls, a bounded queue, the
  byte counter and the single writer (relayPeerStream in cmd/p2ptap-boot/main.go).
  Every step below is one atomic action of one goroutine; a run is any interleaving.
 */
module RelayQueue {
  import opened Common
  import opened Framing

  const WRITER_QUEUE_DEPTH := 512
  const MAX_PENDING_BYTES := 0x10_0000
  const MAX_ENVELOPE := 66000

  /** Where an enqueue call stands. */
  datatype Producer =
    | Idle
    | Checked(data: Bytes)   // found the stream not stopped
    | Reserved(data: Bytes)  // its bytes are counted and fit
    | Undo(data: Bytes)      // about to take its bytes back and report a drop

  /** Where the writer goroutine stands. */
  datatype Writer = Waiting | Writing(frame: Bytes) | Settling(frame: Bytes, ok: bool) | Draining | Exited

  /**
    done, pending and queue are the stream's fields.  The last three record the
    history: the bytes written, the frames whose bytes are all among them, and every
    frame accepted into the queue, in queue order.
   */
  datatype State = State(done: bool, pending: int, queue: seq<Bytes>, producers: seq<Producer>, writer: Writer,
                         stream: Bytes, whole: seq<Bytes>, accepted: seq<Bytes>)

  datatype Action =
    | Begin(i: nat, data: Bytes)
    | Reserve(i: nat)
    | Place(i: nat, pickQueue: bool)
    | Release(i: nat)
    | Take(pickQueue: bool)
    | Write(n: int, failed: bool)
    | Settle
    | Drain
    | Stop

  /** One atomic step; an action that is not enabled changes nothing. */
  function Next(s: State, a: Action): (s': State) {
    match a
    case Begin(i, data) =>
      if i < |s.producers| && s.producers[i].Idle? && !s.done
      then s.(producers := s.producers[i := Checked(data)]) else s
    case Reserve(i) => if i < |s.producers| && s.producers[i].Checked? then NextReserve(s, i) else s
    case Place(i, pick) => if i < |s.producers| && s.producers[i].Reserved? then NextPlace(s, i, pick) else s
    case Release(i) =>
      if i < |s.producers| && s.producers[i].Undo?
      then s.(pending := s.pending - |s.producers[i].data|, producers := s.producers[i := Idle]) else s
    case Take(pick) => if s.writer.Waiting? then NextTake(s, pick) else s
    case Write(n, failed) => if s.writer.Writing? then NextWrite(s, n, failed) else s
    case Settle =>
      if !s.writer.Settling? then s
      else
        var s' := s.(pending := s.pending - |s.writer.frame|);
        if s.writer.ok then s'.(writer := Waiting) else s'.(writer := Exited, done := true)
    case Drain =>
      if !s.writer.Draining? then s
      else if s.queue == [] then s.(writer := Exited)
      else s.(pending := s.pending - |s.queue[0]|, queue := s.queue[1..])
    case Stop => s.(done := true)
  }

  /** The atomic add, and the comparison of what it returned. */
  function NextReserve(s: State, i: nat): (s': State)
    requires i < |s.producers| && s.producers[i].Checked?
  {
    var data := s.producers[i].data;
    var v := s.pending + |data|;
    s.(pending := v, producers := s.producers[i := if v > MAX_PENDING_BYTES then Undo(data) else Reserved(data)])
  }

  /** The copy and the non-blocking select; when both of its cases are ready, either may be taken. */
  function NextPlace(s: State, i: nat, pickQueue: bool): (s': State)
    requires i < |s.producers| && s.producers[i].Reserved?
  {
    var data := s.producers[i].data;
    if |data| <= MAX_ENVELOPE && |s.queue| < WRITER_QUEUE_DEPTH && (!s.done || pickQueue) then
      s.(queue := s.queue + [data], producers := s.producers[i := Idle], accepted := s.accepted + [data])
    else s.(producers := s.producers[i := Undo(data)])
  }

  function NextTake(s: State, pickQueue: bool): (s': State) {
    if s.queue != [] && (!s.done || pickQueue) then s.(writer := Writing(s.queue[0]), queue := s.queue[1..])
    else if s.done then s.(writer := Draining)
    else s
  }

  /** One Write of prefix and payload; a short count is an error even without one reported. */
  function NextWrite(s: State, n: int, failed: bool): (s': State)
    requires s.writer.Writing?
  {
    var f := s.writer.frame;
    var k := Clamp(n, |Wire(f)|);
    s.(stream := s.stream + Wire(f)[..k],
       whole := if k == |Wire(f)| then s.whole + [f] else s.whole,
       writer := Settling(f, !failed && n >= |Wire(f)|))
  }

  function Initial(producers: nat): (s: State) {
    State(false, 0, [], seq(producers, _ => Idle), Waiting, [], [], [])
  }

  // ---------------------------------------------------------------- Counting bytes

  function QueueBytes(q: seq<Bytes>): (n: nat) {
    if q == [] then 0 else |q[0]| + QueueBytes(q[1..])
  }

  lemma {:induction false} QueueBytesAppend(q: seq<Bytes>, f: Bytes)
    ensures QueueBytes(q + [f]) == QueueBytes(q) + |f|
  {
    if q == [] {
      assert q + [f] == [f];
    } else {
      QueueBytesAppend(q[1..], f);
      assert (q + [f])[1..] == q[1..] + [f];
    }
  }

  /** The bytes the writer has taken but not yet released. */
  function InFlight(w: Writer): (n: nat) {
    if w.Writing? || w.Settling? then |w.frame| else 0
  }

  /** The bytes a call holds in the counter; with grantedOnly, only those that were admitted. */
  function Weight(p: Producer, grantedOnly: bool): (n: nat) {
    if p.Reserved? || (p.Undo? && !grantedOnly) then |p.data| else 0
  }

  function Held(ps: seq<Producer>, grantedOnly: bool): (n: nat) {
    if ps == [] then 0 else Weight(ps[0], grantedOnly) + Held(ps[1..], grantedOnly)
  }

  lemma {:induction false} HeldUpdate(ps: seq<Producer>, i: nat, p: Producer, g: bool)
    requires i < |ps|
    ensures Held(ps[i := p], g) == Held(ps, g) - Weight(ps[i], g) + Weight(p, g)
  {
    hide Weight;
    if i > 0 {
      HeldUpdate(ps[1..], i - 1, p, g);
      assert ps[i := p][1..] == ps[1..][i - 1 := p];
    } else {
      assert ps[i := p][1..] == ps[1..];
    }
  }

  // ---------------------------------------------------------------- Invariants

  /** The counter is exact, and what was admitted fits the limit. */
  ghost predicate BytesOk(s: State) {
    && s.pending == QueueBytes(s.queue) + InFlight(s.writer) + Held(s.producers, false)
    && QueueBytes(s.queue) + InFlight(s.writer) + Held(s.producers, true) <= MAX_PENDING_BYTES
    && |s.queue| <= WRITER_QUEUE_DEPTH
  }

  lemma {:induction false} HeldCovers(ps: seq<Producer>)
    ensures Held(ps, true) <= Held(ps, false)
  {
    if ps != [] {
      HeldCovers(ps[1..]);
    }
  }

  lemma ProducerKeepsBytes(s: State, a: Action)
    requires BytesOk(s) && (a.Begin? || a.Reserve? || a.Place? || a.Release?)
    ensures BytesOk(Next(s, a))
  {
    hide Held, QueueBytes;
    HeldCovers(s.producers);
    if a.i < |s.producers| {
      var p' := if a.i < |Next(s, a).producers| then Next(s, a).producers[a.i] else Idle;
      HeldUpdate(s.producers, a.i, p', true);
      HeldUpdate(s.producers, a.i, p', false);
      assert s.producers[a.i := s.producers[a.i]] == s.producers;
      if s.producers[a.i].Reserved? {
        QueueBytesAppend(s.queue, s.producers[a.i].data);
      }
    }
  }

  lemma WriterKeepsBytes(s: State, a: Action)
    requires BytesOk(s) && (a.Take? || a.Write? || a.Settle? || a.Drain? || a.Stop?)
    ensures BytesOk(Next(s, a))
  {
    hide Held, Wire;
  }

  /** Frames whose length the prefix can carry and the reader's buffer can hold. */
  ghost predicate SmallFrames(s: State) {
    && Fits(s.queue, MAX_ENVELOPE) && Fits(s.whole, MAX_ENVELOPE)
    && (s.writer.Writing? ==> |s.writer.frame| <= MAX_ENVELOPE)
  }

  /** The stream, frame by frame; empty frames count too. */
  function WireSeq(frames: seq<Bytes>): (w: Bytes) {
    if frames == [] then [] else WireSeq(frames[..|frames| - 1]) + Wire(frames[|frames| - 1])
  }

  lemma WireSeqStep(frames: seq<Bytes>, f: Bytes)
    ensures WireSeq(frames + [f]) == WireSeq(frames) + Wire(f)
  {
    assert (frames + [f])[..|frames|] == frames;
  }

  /** What is on the stream after its whole frames: nothing, or a frame cut short, after which the writer ends. */
  ghost predicate CutTail(tail: Bytes, w: Writer) {
    tail == [] || (IsCut(tail) && (w.Exited? || (w.Settling? && !w.ok)))
  }

  ghost predicate IsCut(tail: Bytes) {
    exists f: Bytes, k: nat :: |f| <= MAX_ENVELOPE && k < |Wire(f)| && tail == Wire(f)[..k]
  }

  /** While the writer works, the accepted frames are those sent, the one in hand, and those queued. */
  ghost predicate OrderOk(s: State) {
    match s.writer
    case Waiting => s.accepted == s.whole + s.queue
    case Writing(f) => s.accepted == s.whole + [f] + s.queue
    case Settling(f, ok) => if ok then s.accepted == s.whole + s.queue else s.whole <= s.accepted
    case _ => s.whole <= s.accepted
  }

  ghost predicate StreamOk(s: State) {
    exists tail: Bytes :: s.stream == WireSeq(s.whole) + tail && CutTail(tail, s.writer)
  }

  lemma SmallKept(s: State, a: Action)
    requires SmallFrames(s)
    ensures SmallFrames(Next(s, a))
  {
    hide Wire;
  }

  lemma OrderKept(s: State, a: Action)
    requires OrderOk(s)
    ensures OrderOk(Next(s, a))
  {
    hide Wire;
    match a {
      case Place(i, pick) =>
        if i < |s.producers| && s.producers[i].Reserved? {
          var f := s.producers[i].data;
          assert s.whole + (s.queue + [f]) == s.whole + s.queue + [f];
          assert s.writer.Writing? ==>
              s.whole + [s.writer.frame] + (s.queue + [f]) == s.whole + [s.writer.frame] + s.queue + [f];
        }
      case Take(pick) =>
        if s.queue != [] {
          assert s.queue == [s.queue[0]] + s.queue[1..];
          assert s.whole + s.queue == s.whole + [s.queue[0]] + s.queue[1..];
        }
      case _ =>
    }
  }

  lemma StreamKept(s: State, a: Action)
    requires StreamOk(s) && SmallFrames(s)
    ensures StreamOk(Next(s, a))
  {
    hide Wire, WireSeq;
    var s' := Next(s, a);
    var tail: Bytes :| s.stream == WireSeq(s.whole) + tail && CutTail(tail, s.writer);
    if a.Write? && s.writer.Writing? {
      var f := s.writer.frame;
      var k := Clamp(a.n, |Wire(f)|);
      assert tail == [];
      if k == |Wire(f)| {
        WireSeqStep(s.whole, f);
        assert Wire(f)[..k] == Wire(f);
        assert s'.stream == WireSeq(s'.whole) + [];
      } else {
        assert IsCut(Wire(f)[..k]);
        assert s'.stream == WireSeq(s'.whole) + Wire(f)[..k] && CutTail(Wire(f)[..k], s'.writer);
      }
    } else {
      assert s'.stream == WireSeq(s'.whole) + tail && CutTail(tail, s'.writer);
    }
  }

  // ---------------------------------------------------------------- Runs

  ghost predicate IsRun(states: seq<State>, actions: seq<Action>, producers: nat) {
    && |states| == |actions| + 1 && states[0] == Initial(producers)
    && forall i :: 0 <= i < |actions| ==> states[i + 1] == Next(states[i], actions[i])
  }

  lemma {:induction false} NoneHeld(producers: nat, g: bool)
    ensures Held(Initial(producers).producers, g) == 0
  {
    if producers > 0 {
      NoneHeld(producers - 1, g);
      assert Initial(producers).producers[1..] == Initial(producers - 1).producers;
    }
  }

  lemma {:induction false} RunOk(states: seq<State>, actions: seq<Action>, producers: nat, n: nat)
    requires IsRun(states, actions, producers) && n <= |actions|
    ensures BytesOk(states[n]) && OrderOk(states[n]) && SmallFrames(states[n]) && StreamOk(states[n])
  {
    if n == 0 {
      NoneHeld(producers, true);
      NoneHeld(producers, false);
      assert states[0].stream == WireSeq([]) + [] && CutTail([], Waiting);
    } else {
      hide Next, BytesOk, OrderOk, SmallFrames, StreamOk;
      RunOk(states, actions, producers, n - 1);
      var s, a := states[n - 1], actions[n - 1];
      if a.Begin? || a.Reserve? || a.Place? || a.Release? {
        ProducerKeepsBytes(s, a);
      } else {
        WriterKeepsBytes(s, a);
      }
      SmallKept(s, a);
      OrderKept(s, a);
      StreamKept(s, a);
    }
  }

  /** Under every interleaving, the queue holds at most 1 MiB and the counter covers all bytes held. */
  lemma PendingBound(states: seq<State>, actions: seq<Action>, producers: nat, n: nat)
    requires IsRun(states, actions, producers) && n <= |actions|
    ensures QueueBytes(states[n].queue) <= 1048576 && |states[n].queue| <= 512
    ensures states[n].pending
         == QueueBytes(states[n].queue) + InFlight(states[n].writer) + Held(states[n].producers, false)
  {
    RunOk(states, actions, producers, n);
  }

  lemma {:induction false} ReadWhole(frames: seq<Bytes>, tail: Bytes)
    requires Fits(frames, MAX_ENVELOPE)
    ensures ReadMany(WireSeq(frames) + tail, MAX_ENVELOPE) == frames + ReadMany(tail, MAX_ENVELOPE)
    decreases |frames|
  {
    hide ReadOne, Wire;
    if frames == [] {
      assert WireSeq(frames) + tail == tail;
    } else {
      var n := |frames| - 1;
      var front, last := frames[..n], frames[n];
      assert WireSeq(frames) + tail == WireSeq(front) + (Wire(last) + tail);
      ReadWhole(front, Wire(last) + tail);
      ReadWire(last, tail, MAX_ENVELOPE);
      assert front + ([last] + ReadMany(tail, MAX_ENVELOPE)) == frames + ReadMany(tail, MAX_ENVELOPE);
    }
  }

  /**
    Whatever the interleaving, the partial writes and the failures: the frames the far
    end can read are exactly a prefix of the accepted frames, in queue order.
   */
  lemma ReadsAcceptedPrefix(states: seq<State>, actions: seq<Action>, producers: nat, n: nat)
    requires IsRun(states, actions, producers) && n <= |actions|
    ensures ReadMany(states[n].stream, MAX_ENVELOPE) == states[n].whole <= states[n].accepted
  {
    hide Next, ReadOne, Wire, WireSeq;
    RunOk(states, actions, producers, n);
    var s := states[n];
    var tail: Bytes :| s.stream == WireSeq(s.whole) + tail && CutTail(tail, s.writer);
    ReadWhole(s.whole, tail);
    if tail == [] {
      assert ReadMany(tail, MAX_ENVELOPE) == [] by { ReadNothing(); }
    } else {
      var f: Bytes, k: nat :| |f| <= MAX_ENVELOPE && k < |Wire(f)| && tail == Wire(f)[..k];
      ReadCut(f, k, MAX_ENVELOPE);
      assert ReadMany(tail, MAX_ENVELOPE) == [];
    }
  }

  lemma ReadNothing()
    ensures ReadMany([], MAX_ENVELOPE) == []
  {}

  // ---------------------------------------------------------------- Frames do get through

  /** Bytes are admitted exactly while the counter stays within 1 MiB. */
  lemma ReserveExactly(s: State, i: nat)
    requires i < |s.producers| && s.producers[i].Checked?
    ensures var data := s.producers[i].data;
            Next(s, Reserve(i)).producers[i] == if s.pending + |data| <= 1048576 then Reserved(data) else Undo(data)
  {}

  /** A frame joins the queue exactly when it fits, a place is free, and the stream runs or the send wins. */
  lemma PlaceExactly(s: State, i: nat, pick: bool)
    requires i < |s.producers| && s.producers[i].Reserved?
    ensures var data, s' := s.producers[i].data, Next(s, Place(i, pick));
            if |data| <= 66000 && |s.queue| < 512 && (!s.done || pick)
            then s'.queue == s.queue + [data] && s'.accepted == s.accepted + [data]
            else s'.queue == s.queue && s'.accepted == s.accepted && s'.producers[i] == Undo(data)
  {}

  /** On a running stream with room in bytes and places, a call of enqueue accepts its frame. */
  lemma EnqueueAccepts(s: State, i: nat, data: Bytes, pick: bool)
    requires i < |s.producers| && s.producers[i].Idle? && !s.done
    requires |data| <= 66000 && s.pending + |data| <= 1048576 && |s.queue| < 512
    ensures var s' := Next(Next(Next(s, Begin(i, data)), Reserve(i)), Place(i, pick));
            && s'.queue == s.queue + [data] && s'.accepted == s.accepted + [data]
            && s'.pending == s.pending + |data| && s'.producers == s.producers
  {
    var s1 := Next(s, Begin(i, data));
    var s2 := Next(s1, Reserve(i));
    ReserveExactly(s1, i);
    PlaceExactly(s2, i, pick);
    assert Next(s2, Place(i, pick)).producers == s.producers;
  }

  /** A full write puts the oldest queued frame on the stream and gives its bytes back. */
  lemma WriterSends(s: State, n: int, pick: bool)
    requires s.writer.Waiting? && !s.done && s.queue != [] && n >= |Wire(s.queue[0])|
    ensures var f, s' := s.queue[0], Next(Next(Next(s, Take(pick)), Write(n, false)), Settle);
            && s'.stream == s.stream + Wire(f) && s'.whole == s.whole + [f] && s'.queue == s.queue[1..]
            && s'.pending == s.pending - |f| && s'.writer == Waiting && !s'.done
  {
    hide Wire;
    var f := s.queue[0];
    assert Wire(f)[..|Wire(f)|] == Wire(f);
  }

  /** With the writer idle and the queue empty, the far end can read every frame accepted so far. */
  lemma IdleMeansDelivered(states: seq<State>, actions: seq<Action>, producers: nat, n: nat)
    requires IsRun(states, actions, producers) && n <= |actions|
    requires states[n].writer == Waiting && states[n].queue == []
    ensures ReadMany(states[n].stream, MAX_ENVELOPE) == states[n].accepted
  {
    hide Next, ReadMany;
    RunOk(states, actions, producers, n);
    ReadsAcceptedPrefix(states, actions, producers, n);
  }

  /** A failed or short write ends the writer and stops the stream; a stopped stream takes no new call. */
  lemma FailureRetires(s: State, n: int, failed: bool, i: nat, data: Bytes)
    requires s.writer.Writing? && (failed || n < |Wire(s.writer.frame)|)
    ensures var s' := Next(Next(s, Write(n, failed)), Settle);
            s'.writer == Exited && s'.done && Next(s', Begin(i, data)) == s'
  {
    hide Wire;
  }
}
