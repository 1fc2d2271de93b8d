/** The sending side of pkg/node/frag.go: cutting a frame into plain or striped fragments. */
module Fragmenter {
  import opened Generator
  import opened ErasureCode
  import opened FragmentWire
  import opened Parity
  import opened Common
  import Codec

  // ---------------------------------------------------------------- Cutting a frame

  function PartCount(len: nat, size: nat): (n: nat)
    requires size > 0
  {
    (len + size - 1) / size
  }

  function Chunk(frame: Bytes, size: nat, i: nat): (c: Bytes)
    requires i * size <= |frame|
  {
    var end := i * size + size;
    frame[i * size..if end > |frame| then |frame| else end]
  }

  lemma PartBounds(len: nat, size: nat)
    requires size > 0
    ensures len <= PartCount(len, size) * size < len + size
  {
    var n := PartCount(len, size);
    assert n * size + (len + size - 1) % size == len + size - 1;
  }

  lemma ChunkStart(len: nat, size: nat, i: nat)
    requires size > 0 && i < PartCount(len, size)
    ensures i * size < len
    ensures i + 1 < PartCount(len, size) ==> i * size + size < len
    ensures i + 1 == PartCount(len, size) ==> i * size + size >= len
  {
    var n := PartCount(len, size);
    PartBounds(len, size);
    MulMonotone(i + 1, n, size);
    assert (i + 1) * size == i * size + size;
    if i + 1 < n {
      MulMonotone(i + 2, n, size);
      assert (i + 2) * size == i * size + size + size;
    }
  }

  /** The first n parts, joined. */
  function Join(parts: seq<Bytes>, n: nat): (r: Bytes)
    requires n <= |parts|
  {
    if n == 0 then [] else Join(parts, n - 1) + parts[n - 1]
  }

  function Chunks(frame: Bytes, size: nat): (parts: seq<Bytes>)
    requires size > 0
    ensures |parts| == PartCount(|frame|, size)
  {
    var n := PartCount(|frame|, size);
    seq(n, i requires 0 <= i < n => ChunkStart(|frame|, size, i); Chunk(frame, size, i))
  }

  lemma {:induction false} JoinChunks(frame: Bytes, size: nat, n: nat)
    requires size > 0 && n <= PartCount(|frame|, size)
    ensures Join(Chunks(frame, size), n) == frame[..if n * size < |frame| then n * size else |frame|]
  {
    if n > 0 {
      JoinChunks(frame, size, n - 1);
      ChunkStart(|frame|, size, n - 1);
      assert n * size == (n - 1) * size + size;
      assert Chunks(frame, size)[n - 1] == Chunk(frame, size, n - 1);
    }
  }

  /** Cutting and joining is the identity. */
  lemma JoinAllChunks(frame: Bytes, size: nat)
    requires size > 0
    ensures Join(Chunks(frame, size), PartCount(|frame|, size)) == frame
  {
    JoinChunks(frame, size, PartCount(|frame|, size));
    PartBounds(|frame|, size);
  }

  // ---------------------------------------------------------------- What is sent

  /** A frame with the shards it was cut into. */
  datatype Sent = Sent(frame: Bytes, shape: Shape, shards: seq<Bytes>)

  /** A shard zero-padded to the common length. */
  function Pad(b: Bytes, size: nat): (r: Bytes)
    ensures |r| == if |b| < size then size else |b|
  {
    if |b| < size then b + seq(size - |b|, _ => 0) else b
  }

  function PaddedData(s: Sent): (data: seq<Bytes>)
    requires s.shape.dataParts <= |s.shards|
    ensures |data| == s.shape.dataParts
  {
    seq(s.shape.dataParts, i requires 0 <= i < s.shape.dataParts => Pad(s.shards[i], s.shape.chunkSize))
  }

  /** A fragmented frame a receiver can put together again. */
  ghost predicate IsSent(s: Sent) {
    && ShapeOk(s.shape) && 2 <= s.shape.total == |s.shards|
    && |s.frame| <= MAX_REASM_BYTES && s.shape.chunkSize < 0x1_0000
    && (forall i :: 0 <= i < s.shape.total ==> 0 < |s.shards[i]| < 0x1_0000)
    && Join(s.shards, s.shape.dataParts) == s.frame
    && (s.shape.fec ==>
      && s.shape.total <= MAX_SHARDS && s.shape.origLen == |s.frame|
      && (forall i :: 0 <= i < s.shape.total ==> |s.shards[i]| == WantLen(s.shape, i))
      && (forall i :: s.shape.dataParts <= i < s.shape.total ==>
            s.shards[i] == CodeShard(PaddedData(s), i, s.shape.chunkSize)))
  }

  /** The envelope of shard i, as it goes on the wire. */
  function Envelope(s: Sent, origSeq: nat, i: nat): (p: Bytes)
    requires i < |s.shards|
  {
    if s.shape.fec
    then FecEnvelope(origSeq, i, s.shape.total, s.shape.dataParts, s.shape.chunkSize, s.shape.tailLen, s.shards[i])
    else PlainEnvelope(origSeq, i, s.shape.total, s.shards[i])
  }

  function Envelopes(s: Sent, origSeq: nat): (ps: seq<Bytes>) {
    seq(|s.shards|, i requires 0 <= i < |s.shards| => Envelope(s, origSeq, i))
  }

  /** Every envelope parses back to its shard. */
  lemma EnvelopeParses(s: Sent, origSeq: nat, i: nat)
    requires IsSent(s) && i < s.shape.total
    ensures var p := Envelope(s, origSeq, i);
            && IsFragPayload(p) && OrigSeq(p) == origSeq % 0x1_0000_0000
            && ParseFragHeader(p) == Some(FragHeader(s.shape, i, s.shards[i]))
  {
    hide FecEnvelope, PlainEnvelope, ParseFragHeader, IsFragPayload, OrigSeq, Join, FrameLen;
    if s.shape.fec {
      ParseFecEnvelope(origSeq, s.shape, i, s.shards[i]);
    } else {
      ParsePlainEnvelope(origSeq, i, s.shape.total, s.shards[i]);
    }
  }

  /** The result of plain fragmentation. */
  function SentPlain(frame: Bytes, size: nat): (s: Sent)
    requires size > 0
  {
    var total := PartCount(|frame|, size);
    Sent(frame, Shape(false, total, total, 0, 0, 0), Chunks(frame, size))
  }

  lemma AtLeastTwoParts(len: nat, size: nat)
    requires 0 < size < len
    ensures PartCount(len, size) >= 2
  {
    hide PartCount;
    PartBounds(len, size);
    var n := PartCount(len, size);
    if n <= 1 { MulMonotone(n, 1, size); }
  }

  lemma FewParts(n: nat, size: nat, len: nat)
    requires 256 <= size && n * size < len + size && len <= MAX_SEALED_FRAME_SIZE
    ensures n <= 257
  {
    if n > 257 {
      MulMonotone(258, n, size);
    }
  }

  lemma PartCountRange(len: nat, size: nat)
    requires 256 <= size < len <= MAX_SEALED_FRAME_SIZE
    ensures 2 <= PartCount(len, size) <= 257
  {
    hide PartCount;
    PartBounds(len, size);
    AtLeastTwoParts(len, size);
    FewParts(PartCount(len, size), size, len);
  }

  lemma ChunkLengths(frame: Bytes, size: nat, i: nat)
    requires size > 0 && i < PartCount(|frame|, size)
    ensures var c := Chunks(frame, size)[i];
            && 0 < |c| <= size
            && |c| == if i + 1 < PartCount(|frame|, size) then size else |frame| - i * size
  {
    ChunkStart(|frame|, size, i);
  }

  /** Plain fragments are receivable exactly when their size fits the 16-bit length field. */
  lemma SentPlainOk(frame: Bytes, size: nat)
    requires 256 <= size < |frame| <= MAX_SEALED_FRAME_SIZE
    ensures IsSent(SentPlain(frame, size)) <==> size < 0x1_0000
  {
    hide PartCount, Chunks, Join;
    PartCountRange(|frame|, size);
    JoinAllChunks(frame, size);
    ChunkLengths(frame, size, 0);
    if size < 0x1_0000 {
      forall i | 0 <= i < PartCount(|frame|, size) ensures 0 < |Chunks(frame, size)[i]| < 0x1_0000 {
        ChunkLengths(frame, size, i);
      }
    }
  }

  /**
    The chunk length travels in 16 bits.  Plain fragments of a full-size frame are
    all understood exactly when the fragment size fits them: from 65536 on, the first
    chunk's length wraps and the receiver rejects it.
   */
  lemma PlainUnderstoodIff(frame: Bytes, size: nat, origSeq: nat)
    requires 256 <= size < |frame| <= MAX_SEALED_FRAME_SIZE
    ensures var s := SentPlain(frame, size);
            (forall i :: 0 <= i < s.shape.total ==> ParseFragHeader(Envelope(s, origSeq, i)).Some?)
            <==> size < 0x1_0000
  {
    hide PartCount, Chunks, ParseFragHeader, PlainEnvelope, IsSent, IsFragPayload, OrigSeq;
    var s := SentPlain(frame, size);
    PartCountRange(|frame|, size);
    if size < 0x1_0000 {
      SentPlainOk(frame, size);
      forall i | 0 <= i < s.shape.total ensures ParseFragHeader(Envelope(s, origSeq, i)).Some? {
        ReceivableShape(s);
        EnvelopeParses(s, origSeq, i);
      }
    } else {
      ChunkLengths(frame, size, 0);
      ParsePlainEnvelope(origSeq, 0, s.shape.total, s.shards[0]);
      assert ParseFragHeader(Envelope(s, origSeq, 0)) == None;
    }
  }

  /** The smallest failing size: the first fragment of any frame one byte longer is rejected. */
  lemma FirstFragmentRejected(frame: Bytes, origSeq: nat)
    requires |frame| == 65537
    ensures PartCount(65537, 65536) == 2
    ensures ParseFragHeader(Envelope(SentPlain(frame, 65536), origSeq, 0)) == None
  {
    hide Chunks, ParseFragHeader, PlainEnvelope, IsFragPayload, OrigSeq;
    ChunkLengths(frame, 65536, 0);
    var s := SentPlain(frame, 65536);
    ParsePlainEnvelope(origSeq, 0, s.shape.total, s.shards[0]);
  }

  lemma ReceivableShape(s: Sent)
    requires IsSent(s)
    ensures |s.shards| == s.shape.total
  {}

  /** The data shards the codec works on: the chunks, the last one zero-padded. */
  function StripedData(frame: Bytes, size: nat): (data: seq<Bytes>)
    requires size > 0
    ensures |data| == PartCount(|frame|, size)
  {
    var chunks := Chunks(frame, size);
    seq(|chunks|, i requires 0 <= i < |chunks| => Pad(chunks[i], size))
  }

  function StripedShape(len: nat, size: nat, parity: nat): (s: Shape)
    requires 0 < size < len
  {
    StripeTail(len, size);
    var k := PartCount(len, size);
    Shape(true, k + parity, k, size, len - (k - 1) * size, len)
  }

  /** The result of striped fragmentation with the given parity. */
  ghost function SentStriped(frame: Bytes, size: nat, parity: nat): (s: Sent)
    requires 0 < size < |frame| && PartCount(|frame|, size) + parity <= MAX_SHARDS
  {
    var data := StripedData(frame, size);
    Sent(frame, StripedShape(|frame|, size, parity),
         Chunks(frame, size) + seq(parity, j requires 0 <= j < parity => CodeShard(data, |data| + j, size)))
  }

  lemma {:induction false} JoinPrefix(a: seq<Bytes>, b: seq<Bytes>, n: nat)
    requires n <= |a|
    ensures Join(a + b, n) == Join(a, n)
  {
    if n > 0 {
      JoinPrefix(a, b, n - 1);
    }
  }

  lemma StripedLengths(frame: Bytes, size: nat, parity: nat, i: nat)
    requires 0 < size < |frame| && PartCount(|frame|, size) + parity <= MAX_SHARDS
    requires i < PartCount(|frame|, size) + parity
    ensures var s := SentStriped(frame, size, parity); 0 < |s.shards[i]| == WantLen(s.shape, i) <= size
  {
    hide PartCount, Chunks, CodeShard;
    var k := PartCount(|frame|, size);
    var s := SentStriped(frame, size, parity);
    StripeTail(|frame|, size);
    if i < k {
      ChunkLengths(frame, size, i);
      assert s.shards[i] == Chunks(frame, size)[i];
    } else {
      assert s.shards[i] == CodeShard(StripedData(frame, size), i, size);
    }
  }

  lemma StripedPadding(frame: Bytes, size: nat, parity: nat)
    requires 0 < size < |frame| && PartCount(|frame|, size) + parity <= MAX_SHARDS
    ensures PaddedData(SentStriped(frame, size, parity)) == StripedData(frame, size)
  {
    hide PartCount, Chunks, CodeShard, Pad;
    StripeTail(|frame|, size);
  }

  /** Striped fragments are receivable. */
  lemma SentStripedOk(frame: Bytes, size: nat, parity: nat)
    requires 0 < size < 0x1_0000 && size < |frame| <= MAX_SEALED_FRAME_SIZE
    requires parity >= 1 && PartCount(|frame|, size) + parity <= MAX_SHARDS
    ensures IsSent(SentStriped(frame, size, parity))
  {
    hide PartCount, Chunks, Join, CodeShard, Pad, FrameLen, WantLen, PaddedData, StripedData;
    var k := PartCount(|frame|, size);
    var s := SentStriped(frame, size, parity);
    StripeTail(|frame|, size);
    JoinAllChunks(frame, size);
    JoinPrefix(Chunks(frame, size), s.shards[k..], k);
    assert s.shards == Chunks(frame, size) + s.shards[k..];
    forall i | 0 <= i < s.shape.total ensures 0 < |s.shards[i]| == WantLen(s.shape, i) < 0x1_0000 {
      StripedLengths(frame, size, parity, i);
    }
    StripedPadding(frame, size, parity);
  }

  lemma StripeTail(len: nat, size: nat)
    requires 0 < size < len
    ensures var k := PartCount(len, size);
            && k >= 2 && 0 < len - (k - 1) * size <= size && FrameLen(k, size, len - (k - 1) * size) == len
  {
    var k := PartCount(len, size);
    PartBounds(len, size);
    AtLeastTwoParts(len, size);
    ChunkStart(len, size, k - 1);
  }

  // ---------------------------------------------------------------- The sender

  const MULTIPATH_STRIPE_CHUNK := 16 * 1024

  /** Large frames are striped when there is more than one path. */
  predicate Stripes(len: nat, pathCount: int) {
    pathCount >= 2 && len > MULTIPATH_STRIPE_CHUNK
  }

  /** The fragment size the policy settles on; stripes are never cut coarser than 16 KiB. */
  function PolicySize(len: nat, defaultPayload: nat, maxPayload: int, pathCount: int): (size: nat)
    requires defaultPayload > 0
    ensures size > 0
    ensures pathCount >= 2 && len > 16384 ==> size == if 0 < maxPayload <= 16384 then maxPayload else 16384
    ensures pathCount < 2 || len <= 16384 ==> size == if maxPayload > 0 then maxPayload else defaultPayload
  {
    if Stripes(len, pathCount) then
      if maxPayload <= 0 || maxPayload > MULTIPATH_STRIPE_CHUNK then MULTIPATH_STRIPE_CHUNK else maxPayload
    else if maxPayload <= 0 then defaultPayload
    else maxPayload
  }

  /** The transmit half: the sequence counter and the codec it stripes with. */
  class FragmentSender {
    var seqGen: nat
    const defaultPayload: nat
    const fec: Codec.Fec

    ghost predicate Valid()
      reads this, fec
    {
      seqGen < 0x1_0000_0000 && defaultPayload >= 256 && fec.Valid()
    }

    constructor (defaultPayload: nat, fec: Codec.Fec)
      requires defaultPayload >= 256 && fec.Valid()
      ensures Valid() && seqGen == 0 && this.defaultPayload == defaultPayload && this.fec == fec
    {
      seqGen, this.defaultPayload, this.fec := 0, defaultPayload, fec;
    }

    /** nextOrigSeq: a wrapping 32-bit counter. */
    method NextOrigSeq() returns (n: nat)
      requires Valid()
      modifies this`seqGen
      ensures Valid() && n == seqGen == (old(seqGen) + 1) % 0x1_0000_0000
    {
      seqGen := (seqGen + 1) % 0x1_0000_0000;
      n := seqGen;
    }

    /** fragmentFrame: the frame itself when it fits, its plain fragments otherwise. */
    method FragmentFrame(packed: Bytes, enabled: bool, maxPayload: int) returns (frags: seq<Bytes>, fragmented: bool)
      requires Valid()
      modifies this`seqGen
      ensures Valid()
      ensures var size := if maxPayload <= 0 then defaultPayload else maxPayload;
              && (fragmented <==> enabled && |packed| > size)
              && (!fragmented ==> frags == [packed] && seqGen == old(seqGen))
              && (fragmented ==> seqGen == (old(seqGen) + 1) % 0x1_0000_0000
                                 && frags == Envelopes(SentPlain(packed, size), seqGen))
    {
      hide Codec.Fec.Valid, Envelope, PlainEnvelope, PartCount, Chunk, Chunks;
      var size := if maxPayload <= 0 then defaultPayload else maxPayload;
      if |packed| <= size || !enabled {
        return [packed], false;
      }
      var seqNo := NextOrigSeq();
      var total := PartCount(|packed|, size);
      ghost var sent := SentPlain(packed, size);
      frags := [];
      for i := 0 to total
        invariant Valid() && seqGen == seqNo
        invariant |frags| == i && forall j :: 0 <= j < i ==> frags[j] == Envelope(sent, seqNo, j)
      {
        ChunkStart(|packed|, size, i);
        PlainEnvelopeOf(packed, size, seqNo, i);
        frags := frags + [PlainEnvelope(seqNo, i, total, Chunk(packed, size, i))];
      }
      fragmented := true;
    }

    /** fragmentFrameStriped: data and parity shards, or plain fragments when no parity fits. */
    method FragmentStriped(packed: Bytes, enabled: bool, chunkSize: int, paths: int)
      returns (frags: seq<Bytes>, fragmented: bool)
      requires Valid()
      modifies this`seqGen, fec`cache
      ensures Valid()
      ensures chunkSize <= 0 ==> (fragmented <==> enabled && |packed| > defaultPayload)
      ensures chunkSize > 0 ==> (fragmented <==> enabled && |packed| > chunkSize)
      ensures !fragmented ==> frags == [packed] && seqGen == old(seqGen)
      ensures fragmented ==> seqGen == (old(seqGen) + 1) % 0x1_0000_0000
      ensures fragmented && chunkSize <= 0 ==> frags == Envelopes(SentPlain(packed, defaultPayload), seqGen)
      ensures fragmented && chunkSize > 0 ==>
                var parity := FecParityFor(PartCount(|packed|, chunkSize), paths);
                frags == Envelopes(if parity > 0 then SentStriped(packed, chunkSize, parity)
                                   else SentPlain(packed, chunkSize), seqGen)
    {
      hide Codec.Fec.Valid, Envelope, PartCount, Chunk, Chunks, FecEnvelope, CodeShard;
      if chunkSize <= 0 || |packed| <= chunkSize {
        frags, fragmented := FragmentFrame(packed, enabled, chunkSize);
        return;
      }
      if !enabled {
        return [packed], false;
      }
      var dataParts := PartCount(|packed|, chunkSize);
      StripeTail(|packed|, chunkSize);
      var parityParts := FecParityFor(dataParts, paths);
      if parityParts <= 0 {
        frags, fragmented := FragmentFrame(packed, enabled, chunkSize);
        return;
      }
      var data := PadChunks(packed, chunkSize);
      var coded := fec.Encode(data, parityParts);
      var parity := coded.value;
      var total := dataParts + parityParts;
      var tailLen := |packed| - (dataParts - 1) * chunkSize;
      var seqNo := NextOrigSeq();
      ghost var sent := SentStriped(packed, chunkSize, parityParts);
      frags := [];
      for i := 0 to total
        invariant Valid() && seqGen == seqNo
        invariant |frags| == i && forall j :: 0 <= j < i ==> frags[j] == Envelope(sent, seqNo, j)
      {
        var chunk;
        if i < dataParts {
          ChunkStart(|packed|, chunkSize, i);
          chunk := Chunk(packed, chunkSize, i);
        } else {
          chunk := parity[i - dataParts];
        }
        StripedEnvelopeOf(packed, chunkSize, parityParts, seqNo, i, chunk);
        frags := frags + [FecEnvelope(seqNo, i, total, dataParts, chunkSize, tailLen, chunk)];
      }
      fragmented := true;
    }

    /**
      fragmentFrameForPaths: fragments exactly what exceeds the policy's size, with
      parity exactly when the frame is striped and enough of it fits.  What is sent can
      be received exactly when the size fits 16 bits, which every stripe does, and a
      frame with parity survives the loss of any one path.
     */
    method FragmentForPaths(packed: Bytes, enabled: bool, maxPayload: int, pathCount: int)
      returns (frags: seq<Bytes>, fragmented: bool, ghost sent: Sent)
      requires Valid()
      modifies this`seqGen, fec`cache
      ensures Valid()
      ensures fragmented <==> enabled && |packed| > PolicySize(|packed|, defaultPayload, maxPayload, pathCount)
      ensures !fragmented ==> frags == [packed] && seqGen == old(seqGen)
      ensures fragmented ==> seqGen == (old(seqGen) + 1) % 0x1_0000_0000
      ensures fragmented ==> sent.frame == packed && frags == Envelopes(sent, seqGen)
      ensures fragmented ==>
                var size := PolicySize(|packed|, defaultPayload, maxPayload, pathCount);
                && (sent.shape.fec <==>
                      pathCount >= 2 && |packed| > 16384 && FecParityFor(PartCount(|packed|, size), pathCount) > 0)
                && sent.shape.dataParts == PartCount(|packed|, size)
                && (256 <= size && |packed| <= MAX_SEALED_FRAME_SIZE ==> (IsSent(sent) <==> size < 0x1_0000))
                && (sent.shape.fec && |packed| <= MAX_SEALED_FRAME_SIZE ==> IsSent(sent))
      ensures fragmented && sent.shape.fec ==>
                && sent.shape.total >= sent.shape.dataParts
                && SurvivesAnyPath(sent.shape.dataParts, sent.shape.total - sent.shape.dataParts, pathCount)
    {
      hide Codec.Fec.Valid, Envelopes, IsSent, PartCount, Chunks, CodeShard, SurvivesAnyPath;
      if pathCount < 2 || |packed| <= MULTIPATH_STRIPE_CHUNK {
        frags, fragmented := FragmentFrame(packed, enabled, maxPayload);
        var size := if maxPayload <= 0 then defaultPayload else maxPayload;
        sent := SentPlain(packed, size);
        if fragmented && |packed| <= MAX_SEALED_FRAME_SIZE && 256 <= size {
          SentPlainOk(packed, size);
        }
        return;
      }
      var chunkSize := maxPayload;
      if chunkSize <= 0 || chunkSize > MULTIPATH_STRIPE_CHUNK {
        chunkSize := MULTIPATH_STRIPE_CHUNK;
      }
      frags, fragmented := FragmentStriped(packed, enabled, chunkSize, pathCount);
      ghost var parity := FecParityFor(PartCount(|packed|, chunkSize), pathCount);
      if parity > 0 {
        StripeTail(|packed|, chunkSize);
        sent := SentStriped(packed, chunkSize, parity);
        if |packed| <= MAX_SEALED_FRAME_SIZE {
          SentStripedOk(packed, chunkSize, parity);
        }
      } else {
        sent := SentPlain(packed, chunkSize);
        if |packed| <= MAX_SEALED_FRAME_SIZE && 256 <= chunkSize {
          SentPlainOk(packed, chunkSize);
        }
      }
    }
  }

  lemma PlainEnvelopeOf(frame: Bytes, size: nat, seqNo: nat, i: nat)
    requires size > 0 && i < PartCount(|frame|, size) && i * size <= |frame|
    ensures Envelope(SentPlain(frame, size), seqNo, i)
         == PlainEnvelope(seqNo, i, PartCount(|frame|, size), Chunk(frame, size, i))
  {}

  lemma StripedEnvelopeOf(frame: Bytes, size: nat, parity: nat, seqNo: nat, i: nat, chunk: Bytes)
    requires 0 < size < |frame| && PartCount(|frame|, size) + parity <= MAX_SHARDS
    requires i < PartCount(|frame|, size) + parity
    requires i < PartCount(|frame|, size) ==> i * size <= |frame| && chunk == Chunk(frame, size, i)
    requires PartCount(|frame|, size) <= i ==> chunk == CodeShard(StripedData(frame, size), i, size)
    ensures var k := PartCount(|frame|, size);
            && Envelope(SentStriped(frame, size, parity), seqNo, i)
               == FecEnvelope(seqNo, i, k + parity, k, size, |frame| - (k - 1) * size, chunk)
  {
    hide FecEnvelope, CodeShard;
  }

  /** The loop that cuts the data shards and zero-pads the tail copy. */
  method PadChunks(packed: Bytes, size: nat) returns (data: seq<Bytes>)
    requires size > 0
    ensures data == StripedData(packed, size)
    ensures EqualLengths(data, size)
  {
    data := [];
    var dataParts := PartCount(|packed|, size);
    for i := 0 to dataParts
      invariant |data| == i && data == StripedData(packed, size)[..i] && EqualLengths(data, size)
    {
      ChunkStart(|packed|, size, i);
      var start, end := i * size, i * size + size;
      var shard;
      if end <= |packed| {
        shard := packed[start..end];
      } else {
        shard := packed[start..] + seq(end - |packed|, _ => 0);
      }
      assert shard == Pad(Chunk(packed, size, i), size);
      data := data + [shard];
    }
  }
}
