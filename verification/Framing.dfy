/** Length-prefixed framing on byte streams: pkg/node/framing.go, and the same reader in the boot. */
module Framing {
  import opened BigEndian
  import opened Common

  const FRAME_LEN_SIZE := 4
  const MAX_FRAME_LEN := 1024 * 1024
  const MAX_WRITE_BATCH := 64 * 1024

  // ---------------------------------------------------------------- What is on the wire

  /** One frame with its length prefix. */
  function Wire(data: Bytes): (w: Bytes)
    ensures |w| == FRAME_LEN_SIZE + |data|
  {
    Put32(|data|) + data
  }

  /** The concatenation of single-frame writes; an empty frame writes nothing. */
  function WireAll(frames: seq<Bytes>): (w: Bytes) {
    if frames == [] then []
    else WireAll(frames[..|frames| - 1]) + WireOne(frames[|frames| - 1])
  }

  function WireOne(data: Bytes): (w: Bytes) {
    if data == [] then [] else Wire(data)
  }

  function NonEmpty(frames: seq<Bytes>): (r: seq<Bytes>) {
    if frames == [] then []
    else NonEmpty(frames[..|frames| - 1]) + if frames[|frames| - 1] == [] then [] else [frames[|frames| - 1]]
  }

  // ---------------------------------------------------------------- Reading back

  /** What one read makes of the bytes ahead: a frame and the rest, or an error. */
  datatype Read = Frame(data: Bytes, rest: Bytes) | Bad

  function ReadOne(stream: Bytes, room: nat): (r: Read)
    ensures r.Frame? ==> |r.rest| < |stream|
  {
    if |stream| < FRAME_LEN_SIZE then Bad
    else
      var n := Be32(stream, 0);
      if n == 0 then Frame([], stream[FRAME_LEN_SIZE..])
      else if n > room || FRAME_LEN_SIZE + n > |stream| then Bad
      else Frame(stream[FRAME_LEN_SIZE..FRAME_LEN_SIZE + n], stream[FRAME_LEN_SIZE + n..])
  }

  /** Every frame that repeated reads return before the first error. */
  function ReadMany(stream: Bytes, room: nat): (fs: seq<Bytes>)
    decreases |stream|
  {
    match ReadOne(stream, room)
    case Bad => []
    case Frame(data, rest) => [data] + ReadMany(rest, room)
  }

  lemma ReadWire(data: Bytes, rest: Bytes, room: nat)
    requires |data| <= room && |data| < 0x1_0000_0000
    ensures ReadOne(Wire(data) + rest, room) == Frame(data, rest)
  {
    hide Be32, Put32;
    var s := Wire(data) + rest;
    assert s[0..4] == Put32(|data|);
    Be32Put32(|data|, s, 0);
    assert s[4..4 + |data|] == data && s[4 + |data|..] == rest;
    assert |data| == 0 ==> s[4..] == rest && data == [];
  }

  /** A frame cut short reads as an error, whatever part of it arrived. */
  lemma ReadCut(data: Bytes, k: nat, room: nat)
    requires k < |Wire(data)| && |data| < 0x1_0000_0000
    ensures ReadOne(Wire(data)[..k], room) == Bad
  {
    hide Be32, Put32;
    if k >= 4 {
      var s := Wire(data)[..k];
      assert s[0..4] == Put32(|data|);
      Be32Put32(|data|, s, 0);
    }
  }

  ghost predicate Fits(frames: seq<Bytes>, room: nat) {
    forall i :: 0 <= i < |frames| ==> |frames[i]| <= room
  }

  lemma ReadManyWire(data: Bytes, tail: Bytes, room: nat)
    requires data != [] && |data| <= room < 0x1_0000_0000
    ensures ReadMany(WireOne(data) + tail, room) == [data] + ReadMany(tail, room)
  {
    hide ReadOne, Wire;
    ReadWire(data, tail, room);
  }

  /** Reading returns the non-empty frames, in order, then what follows them. */
  lemma {:induction false} ReadAll(frames: seq<Bytes>, tail: Bytes, room: nat)
    requires Fits(frames, room) && room < 0x1_0000_0000
    ensures ReadMany(WireAll(frames) + tail, room) == NonEmpty(frames) + ReadMany(tail, room)
    decreases |frames|
  {
    hide ReadMany, Wire;
    if frames == [] {
      assert WireAll(frames) + tail == tail;
    } else {
      var n := |frames| - 1;
      var front, last := frames[..n], frames[n];
      var tail' := WireOne(last) + tail;
      assert WireAll(frames) + tail == WireAll(front) + tail';
      ReadAll(front, tail', room);
      if last == [] {
        assert tail' == tail;
      } else {
        ReadManyWire(last, tail, room);
        assert NonEmpty(front) + ([last] + ReadMany(tail, room)) == NonEmpty(frames) + ReadMany(tail, room);
      }
    }
  }

  /** A stream that ends inside a frame yields exactly the whole frames before it. */
  lemma ReadAllCut(frames: seq<Bytes>, next: Bytes, k: nat, room: nat)
    requires Fits(frames, room) && room < 0x1_0000_0000 && |next| < 0x1_0000_0000 && k < |Wire(next)|
    ensures ReadMany(WireAll(frames) + Wire(next)[..k], room) == NonEmpty(frames)
  {
    hide ReadOne, Wire, WireAll, NonEmpty;
    ReadAll(frames, Wire(next)[..k], room);
    ReadCut(next, k, room);
    assert ReadMany(Wire(next)[..k], room) == [];
  }

  // ---------------------------------------------------------------- A writer that makes partial progress

  /** One answer of the transport: the count it reports, and whether it failed. */
  datatype Answer = Answer(n: int, failed: bool)

  /** The writer took at least one byte and reported no error. */
  predicate Progress(a: Answer) {
    !a.failed && a.n >= 1
  }

  /** A transport that takes some of what it is given: its answer to each call is arbitrary. */
  class Transport {
    var sent: Bytes
    var calls: nat
    const answers: nat -> Answer

    constructor (answers: nat -> Answer)
      ensures sent == [] && calls == 0 && this.answers == answers
    {
      sent, calls, this.answers := [], 0, answers;
    }

    /** Reports n; what really goes out is the part of data that n covers. */
    method Write(data: Bytes) returns (n: int, failed: bool)
      modifies this
      ensures Answer(n, failed) == answers(old(calls)) && calls == old(calls) + 1
      ensures sent == old(sent) + data[..Clamp(n, |data|)]
    {
      n, failed := answers(calls).n, answers(calls).failed;
      calls := calls + 1;
      sent := sent + data[..Clamp(n, |data|)];
    }

    /** Every answer since the given call made progress. */
    ghost predicate Progressing(since: nat)
      reads this
    {
      forall i :: since <= i < calls ==> Progress(answers(i))
    }
  }

  function Clamp(n: int, most: nat): (k: nat)
    ensures k <= most
  {
    if n <= 0 then 0 else if n > most then most else n
  }

  /** Between before and the full output, only a prefix of it has gone out. */
  ghost predicate SentPrefix(before: Bytes, after: Bytes, data: Bytes) {
    exists k :: 0 <= k <= |data| && after == before + data[..k]
  }

  lemma TakeTwice(data: Bytes, j: nat, k: nat)
    requires j + k <= |data|
    ensures data[..j + k] == data[..j] + data[j..][..k]
  {}

  lemma AppendAssoc(a: Bytes, b: Bytes, c: Bytes)
    ensures (a + b) + c == a + (b + c)
  {}

  lemma PrefixTrans(before: Bytes, middle: Bytes, after: Bytes, data: Bytes, j: nat)
    requires j <= |data| && middle == before + data[..j] && SentPrefix(middle, after, data[j..])
    ensures SentPrefix(before, after, data)
  {
    var k :| 0 <= k <= |data[j..]| && after == middle + data[j..][..k];
    TakeTwice(data, j, k);
    AppendAssoc(before, data[..j], data[j..][..k]);
  }

  lemma PrefixExtend(before: Bytes, after: Bytes, data: Bytes, more: Bytes)
    requires SentPrefix(before, after, data)
    ensures SentPrefix(before, after, data + more)
  {
    var k :| 0 <= k <= |data| && after == before + data[..k];
    assert (data + more)[..k] == data[..k];
  }

  /** writeAll: everything, or a prefix; it fails exactly when an answer it met made no progress. */
  method WriteAll(w: Transport, data: Bytes) returns (ok: bool)
    modifies w
    ensures ok <==> w.Progressing(old(w.calls))
    ensures ok ==> w.sent == old(w.sent) + data
    ensures SentPrefix(old(w.sent), w.sent, data)
    ensures old(w.calls) <= w.calls <= old(w.calls) + |data|
  {
    var done := 0;
    assert w.sent == old(w.sent) + data[..0];
    while done < |data|
      invariant 0 <= done <= |data| && w.sent == old(w.sent) + data[..done]
      invariant w.Progressing(old(w.calls)) && old(w.calls) <= w.calls <= old(w.calls) + done
    {
      ghost var middle := w.sent;
      var n, failed := w.Write(data[done..]);
      PrefixTrans(old(w.sent), middle, w.sent, data, done);
      if failed {
        assert !Progress(w.answers(w.calls - 1));
        return false;
      }
      if n <= 0 {
        assert !Progress(w.answers(w.calls - 1));
        return false;
      }
      var k := if n > |data| - done then |data| - done else n;
      assert data[..done + k] == data[..done] + data[done..][..k];
      done := done + k;
    }
    assert data[..done] == data;
    ok := true;
  }

  /** WriteFrame: prefix and payload in one write. */
  method WriteFrame(w: Transport, data: Bytes) returns (ok: bool)
    modifies w
    ensures ok <==> |data| <= 1048576 && w.Progressing(old(w.calls))
    ensures ok ==> w.sent == old(w.sent) + WireOne(data)
    ensures |data| > MAX_FRAME_LEN ==> w.sent == old(w.sent)
    ensures SentPrefix(old(w.sent), w.sent, WireOne(data))
    ensures old(w.calls) <= w.calls <= old(w.calls) + |WireOne(data)|
  {
    hide Put32;
    assert w.sent == old(w.sent) + WireOne(data)[..0];
    if |data| == 0 {
      return true;
    }
    if |data| > MAX_FRAME_LEN {
      return false;
    }
    ok := WriteAll(w, Wire(data));
  }

  /** Writes the used part of the scratch buffer and empties it. */
  method Flush(w: Transport, buf: array<bv8>, used: nat) returns (ok: bool)
    requires used <= buf.Length
    modifies w
    ensures ok <==> w.Progressing(old(w.calls))
    ensures ok ==> w.sent == old(w.sent) + buf[..used]
    ensures SentPrefix(old(w.sent), w.sent, buf[..used])
    ensures old(w.calls) <= w.calls <= old(w.calls) + used
  {
    if used == 0 {
      assert w.sent == old(w.sent) + buf[..used][..0];
      return true;
    }
    ok := WriteAll(w, buf[..used]);
  }

  /** Appends one framed message to the scratch buffer. */
  method PutFrame(buf: array<bv8>, used: nat, data: Bytes)
    requires used + FRAME_LEN_SIZE + |data| <= buf.Length
    modifies buf
    ensures buf[..used + FRAME_LEN_SIZE + |data|] == old(buf[..used]) + Wire(data)
  {
    hide Put32;
    var w := Wire(data);
    for i := 0 to |w|
      invariant buf[..used] == old(buf[..used])
      invariant forall j :: 0 <= j < i ==> buf[used + j] == w[j]
    {
      buf[used + i] := w[i];
    }
    assert buf[used..used + |w|] == w;
  }

  lemma {:induction false} WireAllSplit(frames: seq<Bytes>, i: nat) returns (rest: Bytes)
    requires i <= |frames|
    ensures WireAll(frames) == WireAll(frames[..i]) + rest
    decreases |frames|
  {
    hide WireOne;
    if i == |frames| {
      rest := [];
      assert frames[..i] == frames;
    } else {
      var front := frames[..|frames| - 1];
      var r := WireAllSplit(front, i);
      assert front[..i] == frames[..i];
      rest := r + WireOne(frames[|frames| - 1]);
    }
  }

  lemma WireAllStep(frames: seq<Bytes>, i: nat)
    requires i < |frames|
    ensures WireAll(frames[..i + 1]) == WireAll(frames[..i]) + WireOne(frames[i])
  {
    assert frames[..i + 1][..i] == frames[..i];
  }

  /** Output so far plus buffer is the encoding of the first i frames; so a prefix of the buffer is a prefix of all. */
  lemma FlushPrefix(before: Bytes, middle: Bytes, after: Bytes, buffered: Bytes, frames: seq<Bytes>, i: nat)
    requires i <= |frames| && middle + buffered == before + WireAll(frames[..i]) && |before| <= |middle|
    requires SentPrefix(middle, after, buffered)
    ensures SentPrefix(before, after, WireAll(frames))
  {
    hide WireAll;
    var data := WireAll(frames[..i]);
    var j := |middle| - |before|;
    assert middle == (middle + buffered)[..|middle|] == before + data[..j];
    assert buffered == (middle + buffered)[|middle|..] == data[j..];
    PrefixTrans(before, middle, after, data, j);
    var rest := WireAllSplit(frames, i);
    PrefixExtend(before, after, data, rest);
  }

  lemma AppendBoth(a: Bytes, b: Bytes, x: Bytes, y: Bytes, c: Bytes)
    requires a + b == x + y
    ensures a + (b + c) == x + (y + c)
  {
    AppendAssoc(a, b, c);
    AppendAssoc(x, y, c);
  }

  /** One round of the batching loop: the frame joins the buffer, which is flushed when it would overflow. */
  method AddFrame(w: Transport, buf: array<bv8>, used: nat, data: Bytes) returns (ok: bool, used': nat)
    requires used <= buf.Length == MAX_WRITE_BATCH && data != []
    modifies w, buf
    ensures ok <==> |data| <= 1048576 && w.Progressing(old(w.calls))
    ensures old(w.calls) <= w.calls
    ensures ok ==> used' <= buf.Length && |old(w.sent)| <= |w.sent|
    ensures w.calls + (if ok then used' else 0) <= old(w.calls) + used + |WireOne(data)|
    ensures ok ==> w.sent + buf[..used'] == old(w.sent) + (old(buf[..used]) + WireOne(data))
    ensures !ok ==> SentPrefix(old(w.sent), w.sent, old(buf[..used]) + WireOne(data))
  {
    hide Wire, SentPrefix, Put32;
    ghost var before, buffered := w.sent, buf[..used];
    used' := used;
    PrefixNone(before, buffered + WireOne(data));
    if |data| > MAX_FRAME_LEN {
      return false, used;
    }
    var total := FRAME_LEN_SIZE + |data|;
    if used + total > MAX_WRITE_BATCH {
      var flushed := Flush(w, buf, used);
      PrefixExtend(before, w.sent, buffered, WireOne(data));
      if !flushed {
        return false, used;
      }
      used' := 0;
    }
    ghost var middle, kept := w.sent, buf[..used'];
    assert middle + kept == before + buffered;
    if total > MAX_WRITE_BATCH {
      ok := WriteFrame(w, data);
      assert before + buffered == middle;
      assert (buffered + WireOne(data))[..|buffered|] == buffered;
      assert (buffered + WireOne(data))[|buffered|..] == WireOne(data);
      PrefixTrans(before, middle, w.sent, buffered + WireOne(data), |buffered|);
    } else {
      PutFrame(buf, used', data);
      used' := used' + total;
      ok := true;
      AppendBoth(middle, kept, before, buffered, WireOne(data));
    }
  }

  /**
    writeFrames: however the transport splits the writes and however the frames are
    batched, the bytes are those of the single-frame writes in order.  It fails exactly
    when a frame is too large or an answer made no progress; then a prefix has gone out.
   */
  method WriteFrames(w: Transport, frames: seq<Bytes>) returns (ok: bool)
    modifies w
    ensures ok <==> Fits(frames, 1048576) && w.Progressing(old(w.calls))
    ensures ok ==> w.sent == old(w.sent) + WireAll(frames)
    ensures SentPrefix(old(w.sent), w.sent, WireAll(frames))
    ensures old(w.calls) <= w.calls <= old(w.calls) + |WireAll(frames)|
  {
    hide Wire, WireOne, WireAll, SentPrefix, Put32;
    ghost var before := w.sent;
    if |frames| == 1 {
      SingleFrame(frames);
      ok := WriteFrame(w, frames[0]);
      return;
    }
    var buf := new bv8[MAX_WRITE_BATCH];
    var used := 0;
    NoFrames(frames);
    for i := 0 to |frames|
      invariant 0 <= used <= MAX_WRITE_BATCH && |before| <= |w.sent|
      invariant w.sent + buf[..used] == before + WireAll(frames[..i])
      invariant Fits(frames[..i], MAX_FRAME_LEN) && w.Progressing(old(w.calls))
      invariant old(w.calls) <= w.calls && w.calls + used <= old(w.calls) + |WireAll(frames[..i])|
    {
      WireAllStep(frames, i);
      EmptyFrame();
      if |frames[i]| == 0 {
        continue;
      }
      ghost var middle, buffered := w.sent, buf[..used];
      AppendBoth(middle, buffered, before, WireAll(frames[..i]), WireOne(frames[i]));
      ok, used := AddFrame(w, buf, used, frames[i]);
      if !ok {
        FlushPrefix(before, middle, w.sent, buffered + WireOne(frames[i]), frames, i + 1);
        PrefixLength(frames, i + 1);
        return;
      }
    }
    assert frames[..|frames|] == frames;
    ghost var middle := w.sent;
    ok := Flush(w, buf, used);
    FlushPrefix(before, middle, w.sent, buf[..used], frames, |frames|);
  }

  lemma PrefixLength(frames: seq<Bytes>, i: nat)
    requires i <= |frames|
    ensures |WireAll(frames[..i])| <= |WireAll(frames)|
  {
    var _ := WireAllSplit(frames, i);
  }

  lemma EmptyFrame()
    ensures WireOne([]) == []
  {}

  lemma SingleFrame(frames: seq<Bytes>)
    requires |frames| == 1
    ensures WireAll(frames) == WireOne(frames[0])
  {
    assert frames[..0] == [];
  }

  lemma NoFrames(frames: seq<Bytes>)
    ensures WireAll(frames[..0]) == []
  {}

  lemma PrefixNone(before: Bytes, data: Bytes)
    ensures SentPrefix(before, before, data)
  {
    assert before == before + data[..0];
  }

  // ---------------------------------------------------------------- ReadFrame

  /** A byte source; a read takes what it asked for or runs dry. */
  class Source {
    var ahead: Bytes

    constructor (bytes: Bytes)
      ensures ahead == bytes
    {
      ahead := bytes;
    }

    /** io.ReadFull. */
    method ReadFull(n: nat) returns (data: Option<Bytes>)
      modifies this
      ensures |old(ahead)| >= n ==> data == Some(old(ahead)[..n]) && ahead == old(ahead)[n..]
      ensures |old(ahead)| < n ==> data == None && ahead == []
    {
      if |ahead| < n {
        ahead := [];
        return None;
      }
      data := Some(ahead[..n]);
      ahead := ahead[n..];
    }
  }

  /** ReadFrame: fills the caller's buffer with exactly the frame ReadOne describes. */
  method ReadFrame(r: Source, buf: array<bv8>) returns (n: int, ok: bool)
    modifies r, buf
    ensures ok <==> ReadOne(old(r.ahead), buf.Length).Frame?
    ensures ok ==> var f := ReadOne(old(r.ahead), buf.Length);
                   n == |f.data| && n <= buf.Length && buf[..n] == f.data && r.ahead == f.rest
    ensures forall i :: (if ok then n else buf.Length) <= i < buf.Length ==> buf[i] == old(buf[i])
  {
    hide Be32;
    ghost var s := r.ahead;
    var prefix := r.ReadFull(FRAME_LEN_SIZE);
    if prefix.None? {
      return 0, false;
    }
    var frameLen := Be32(prefix.value, 0);
    PrefixLen(s);
    if frameLen == 0 {
      return 0, true;
    }
    if frameLen > buf.Length {
      return 0, false;
    }
    var data := r.ReadFull(frameLen);
    if data.None? {
      return 0, false;
    }
    for i := 0 to frameLen
      invariant r.ahead == s[4..][frameLen..]
      invariant forall j :: 0 <= j < i ==> buf[j] == data.value[j]
      invariant forall j :: i <= j < buf.Length ==> buf[j] == old(buf[j])
    {
      buf[i] := data.value[i];
    }
    assert buf[..frameLen] == data.value == s[4..4 + frameLen];
    assert r.ahead == s[4 + frameLen..];
    return frameLen, true;
  }

  lemma PrefixLen(s: Bytes)
    requires |s| >= 4
    ensures Be32(s[..4], 0) == Be32(s, 0)
  {}
}
