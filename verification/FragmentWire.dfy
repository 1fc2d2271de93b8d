/** The two fragment envelopes of pkg/node/frag.go: writing, recognising and parsing them. */
module FragmentWire {
  import opened BigEndian
  import opened Common

  const FRAG_MAGIC := 0xF5A1
  const FRAG_MAGIC_FEC := 0xF5A2
  const FRAG_HEADER_LEN := 12
  const FRAG_HEADER_LEN_FEC := 18
  const MAX_SEALED_FRAME_SIZE := 65551
  const MAX_FRAG_TOTAL := (MAX_SEALED_FRAME_SIZE + 255) / 256 + 128
  const MAX_REASM_BYTES := MAX_SEALED_FRAME_SIZE

  // ---------------------------------------------------------------- Headers

  /** One parsed envelope, covering both formats; the last three sizes are zero for plain ones. */
  datatype Shape = Shape(fec: bool, total: nat, dataParts: nat, chunkSize: nat, tailLen: nat, origLen: nat)

  datatype FragHeader = FragHeader(shape: Shape, index: nat, chunk: Bytes)

  /** putPlainFragHeader followed by the chunk. */
  function PlainEnvelope(origSeq: nat, index: nat, total: nat, chunk: Bytes): (p: Bytes) {
    Put16(FRAG_MAGIC) + Put32(origSeq) + Put16(index) + Put16(total) + Put16(|chunk|) + chunk
  }

  /** putFECFragHeader followed by the chunk. */
  function FecEnvelope(origSeq: nat, index: nat, total: nat, dataParts: nat, chunkSize: nat, tailLen: nat,
                       chunk: Bytes): (p: Bytes)
  {
    Put16(FRAG_MAGIC_FEC) + Put32(origSeq) + Put16(index) + Put16(total) + Put16(dataParts)
    + Put16(|chunk|) + Put16(chunkSize) + Put16(tailLen) + chunk
  }

  predicate IsFragPayload(p: Bytes) {
    && |p| >= FRAG_HEADER_LEN
    && (Be16(p, 0) == FRAG_MAGIC || (Be16(p, 0) == FRAG_MAGIC_FEC && |p| >= FRAG_HEADER_LEN_FEC))
  }

  function OrigSeq(p: Bytes): (n: nat)
    requires IsFragPayload(p)
  {
    Be32(p, 2)
  }

  function ParsePlain(p: Bytes, index: nat, total: nat): (h: Option<FragHeader>)
    requires |p| >= FRAG_HEADER_LEN
  {
    var chunk := p[FRAG_HEADER_LEN..];
    if Be16(p, 10) != |chunk| || |chunk| == 0 || |chunk| > MAX_REASM_BYTES then None
    else Some(FragHeader(Shape(false, total, total, 0, 0, 0), index, chunk))
  }

  /** The frame length that a shard size, a shard count and a tail length add up to. */
  function FrameLen(dataParts: nat, chunkSize: nat, tailLen: nat): (n: nat)
    requires dataParts >= 1
  {
    (dataParts - 1) * chunkSize + tailLen
  }

  /** The checks on the fields of a parity-carrying envelope. */
  function CheckFec(index: nat, total: nat, dataParts: nat, chunkLen: nat, chunkSize: nat, tailLen: nat,
                    chunk: Bytes): (h: Option<FragHeader>)
    requires 1 <= total <= MAX_FRAG_TOTAL && index < total
    ensures h.Some? ==> HeaderOk(h.value)
  {
    if dataParts < 2 || dataParts >= total || chunkSize == 0 || chunkSize > MAX_REASM_BYTES
       || tailLen == 0 || tailLen > chunkSize || chunkLen != |chunk| || |chunk| == 0 || |chunk| > MAX_REASM_BYTES
    then None
    else
      var origLen := FrameLen(dataParts, chunkSize, tailLen);
      if origLen > MAX_REASM_BYTES || chunkLen != (if index == dataParts - 1 then tailLen else chunkSize) then None
      else Some(FragHeader(Shape(true, total, dataParts, chunkSize, tailLen, origLen), index, chunk))
  }

  function ParseFec(p: Bytes, index: nat, total: nat): (h: Option<FragHeader>)
    requires |p| >= FRAG_HEADER_LEN_FEC && 1 <= total <= MAX_FRAG_TOTAL && index < total
    ensures h.Some? ==> HeaderOk(h.value)
  {
    hide Be16, HeaderOk;
    CheckFec(index, total, Be16(p, 10), Be16(p, 12), Be16(p, 14), Be16(p, 16), p[FRAG_HEADER_LEN_FEC..])
  }

  /** parseFragHeader: everything is checked before a group can be opened. */
  function ParseFragHeader(p: Bytes): (h: Option<FragHeader>)
    ensures h.Some? ==> HeaderOk(h.value)
  {
    if |p| < FRAG_HEADER_LEN then None
    else
      var total, index := Be16(p, 8), Be16(p, 6);
      if total == 0 || total > MAX_FRAG_TOTAL || index >= total then None
      else if Be16(p, 0) == FRAG_MAGIC then ParsePlain(p, index, total)
      else if Be16(p, 0) == FRAG_MAGIC_FEC then
        if |p| < FRAG_HEADER_LEN_FEC then None else ParseFec(p, index, total)
      else None
  }

  /** What the shape of an accepted group promises. */
  predicate ShapeOk(s: Shape) {
    && 1 <= s.total <= MAX_FRAG_TOTAL
    && (!s.fec ==> s.dataParts == s.total && s.chunkSize == 0 && s.tailLen == 0 && s.origLen == 0)
    && (s.fec ==>
      && 2 <= s.dataParts < s.total && 0 < s.tailLen <= s.chunkSize
      && s.origLen == FrameLen(s.dataParts, s.chunkSize, s.tailLen) <= MAX_REASM_BYTES)
  }

  /** The exact length of shard i of a parity-carrying group. */
  function WantLen(s: Shape, i: nat): (n: nat) {
    if i + 1 == s.dataParts then s.tailLen else s.chunkSize
  }

  predicate HeaderOk(h: FragHeader) {
    && ShapeOk(h.shape) && h.index < h.shape.total
    && 0 < |h.chunk| <= MAX_REASM_BYTES
    && (h.shape.fec ==> |h.chunk| == WantLen(h.shape, h.index))
  }

  // ---------------------------------------------------------------- Round trips

  /** A plain envelope parses back exactly when its two counts and its length fit the header. */
  lemma ParsePlainEnvelope(origSeq: nat, index: nat, total: nat, chunk: Bytes)
    requires index < total
    ensures var p := PlainEnvelope(origSeq, index, total, chunk);
            && IsFragPayload(p) && OrigSeq(p) == origSeq % 0x1_0000_0000
            && (total <= MAX_FRAG_TOTAL && 0 < |chunk| < 0x1_0000 ==>
                 ParseFragHeader(p) == Some(FragHeader(Shape(false, total, total, 0, 0, 0), index, chunk)))
            && (total < 0x1_0000 && !(total <= MAX_FRAG_TOTAL && 0 < |chunk| < 0x1_0000) ==> ParseFragHeader(p) == None)
  {
    hide Be16, Be32, Put16, Put32;
    var p := PlainEnvelope(origSeq, index, total, chunk);
    assert p[0..2] == Put16(FRAG_MAGIC) && p[2..6] == Put32(origSeq) && p[6..8] == Put16(index);
    assert p[8..10] == Put16(total) && p[10..12] == Put16(|chunk|) && p[12..] == chunk;
    Be16Put16(FRAG_MAGIC, p, 0);
    Be32Put32(origSeq, p, 2);
    Be16Put16(index, p, 6);
    Be16Put16(total, p, 8);
    Be16Put16(|chunk|, p, 10);
  }

  lemma FecFields(origSeq: nat, index: nat, total: nat, dataParts: nat, chunkSize: nat, tailLen: nat, chunk: Bytes)
    requires index < 0x1_0000 && total < 0x1_0000 && dataParts < 0x1_0000
    requires chunkSize < 0x1_0000 && tailLen < 0x1_0000 && |chunk| < 0x1_0000
    ensures var p := FecEnvelope(origSeq, index, total, dataParts, chunkSize, tailLen, chunk);
            && |p| >= FRAG_HEADER_LEN_FEC && p[FRAG_HEADER_LEN_FEC..] == chunk
            && Be16(p, 0) == FRAG_MAGIC_FEC && Be32(p, 2) == origSeq % 0x1_0000_0000
            && Be16(p, 6) == index && Be16(p, 8) == total && Be16(p, 10) == dataParts
            && Be16(p, 12) == |chunk| && Be16(p, 14) == chunkSize && Be16(p, 16) == tailLen
  {
    hide Be16, Be32, Put16, Put32;
    var p := FecEnvelope(origSeq, index, total, dataParts, chunkSize, tailLen, chunk);
    assert p[0..2] == Put16(FRAG_MAGIC_FEC) && p[2..6] == Put32(origSeq) && p[6..8] == Put16(index);
    assert p[8..10] == Put16(total) && p[10..12] == Put16(dataParts) && p[12..14] == Put16(|chunk|);
    assert p[14..16] == Put16(chunkSize) && p[16..18] == Put16(tailLen) && p[18..] == chunk;
    Be16Put16(FRAG_MAGIC_FEC, p, 0);
    Be32Put32(origSeq, p, 2);
    Be16Put16(index, p, 6);
    Be16Put16(total, p, 8);
    Be16Put16(dataParts, p, 10);
    Be16Put16(|chunk|, p, 12);
    Be16Put16(chunkSize, p, 14);
    Be16Put16(tailLen, p, 16);
  }

  /** A parity-carrying envelope with an acceptable layout parses back to it. */
  lemma ParseFecEnvelope(origSeq: nat, s: Shape, index: nat, chunk: Bytes)
    requires s.fec && HeaderOk(FragHeader(s, index, chunk)) && s.chunkSize < 0x1_0000
    ensures var p := FecEnvelope(origSeq, index, s.total, s.dataParts, s.chunkSize, s.tailLen, chunk);
            && IsFragPayload(p) && OrigSeq(p) == origSeq % 0x1_0000_0000
            && ParseFragHeader(p) == Some(FragHeader(s, index, chunk))
  {
    hide Be16, Be32, FecEnvelope, FrameLen;
    FecFields(origSeq, index, s.total, s.dataParts, s.chunkSize, s.tailLen, chunk);
  }

  // ---------------------------------------------------------------- The bytes themselves

  lemma MagicBytes(p: Bytes)
    requires |p| >= 2
    ensures Be16(p, 0) == FRAG_MAGIC <==> p[..2] == [0xF5, 0xA1]
    ensures Be16(p, 0) == FRAG_MAGIC_FEC <==> p[..2] == [0xF5, 0xA2]
  {
    hide Be16, Put16;
    MagicPut();
    assert p[..2] == p[0..2];
    Put16Be16(p, 0);
    if p[..2] == [0xF5, 0xA1] { Be16Put16(0xF5A1, p, 0); }
    if p[..2] == [0xF5, 0xA2] { Be16Put16(0xF5A2, p, 0); }
  }

  lemma MagicPut()
    ensures Put16(0xF5A1) == [0xF5, 0xA1] && Put16(0xF5A2) == [0xF5, 0xA2]
  {
    hide Put16;
    PutPair(0xF5, 0xA1);
    PutPair(0xF5, 0xA2);
  }

  /** A payload is an envelope exactly by its first two bytes and its length. */
  lemma RecognisedIff(p: Bytes)
    ensures IsFragPayload(p)
            <==> |p| >= 12 && (p[..2] == [0xF5, 0xA1] || (p[..2] == [0xF5, 0xA2] && |p| >= 18))
  {
    hide Be16;
    if |p| >= 12 { MagicBytes(p); }
  }

  /** The plain envelope, byte by byte. */
  lemma PlainBytes(origSeq: nat, index: nat, total: nat, chunk: Bytes)
    ensures PlainEnvelope(origSeq, index, total, chunk)
         == [0xF5, 0xA1, ((origSeq / 0x100_0000) % 256) as bv8, ((origSeq / 0x1_0000) % 256) as bv8,
             ((origSeq / 0x100) % 256) as bv8, (origSeq % 256) as bv8,
             ((index / 256) % 256) as bv8, (index % 256) as bv8, ((total / 256) % 256) as bv8, (total % 256) as bv8,
             ((|chunk| / 256) % 256) as bv8, (|chunk| % 256) as bv8] + chunk
  {
    hide Put16, Put32;
    MagicPut();
    ByteOrder(origSeq);
    ByteOrder(index);
    ByteOrder(total);
    ByteOrder(|chunk|);
    HeaderConcat([0xF5, 0xA1], Put32(origSeq), Put16(index), Put16(total), Put16(|chunk|), chunk);
  }

  lemma HeaderConcat(a: Bytes, b: Bytes, c: Bytes, d: Bytes, e: Bytes, rest: Bytes)
    requires |a| == 2 && |b| == 4 && |c| == 2 && |d| == 2 && |e| == 2
    ensures a + b + c + d + e + rest
         == [a[0], a[1], b[0], b[1], b[2], b[3], c[0], c[1], d[0], d[1], e[0], e[1]] + rest
  {}

  /** What is accepted as a plain fragment is a plain envelope of what was parsed. */
  lemma PlainParsedIsEnvelope(p: Bytes)
    requires ParseFragHeader(p).Some? && !ParseFragHeader(p).value.shape.fec
    ensures var h := ParseFragHeader(p).value; p == PlainEnvelope(Be32(p, 2), h.index, h.shape.total, h.chunk)
  {
    hide Be16, Be32, Put16, Put32;
    Put16Be16(p, 0);
    Put32Be32(p, 2);
    Put16Be16(p, 6);
    Put16Be16(p, 8);
    Put16Be16(p, 10);
    assert p == p[0..2] + p[2..6] + p[6..8] + p[8..10] + p[10..12] + p[12..];
  }

  /** What is accepted as a parity-carrying fragment is such an envelope of what was parsed. */
  lemma FecParsedIsEnvelope(p: Bytes)
    requires ParseFragHeader(p).Some? && ParseFragHeader(p).value.shape.fec
    ensures var h := ParseFragHeader(p).value;
            p == FecEnvelope(Be32(p, 2), h.index, h.shape.total, h.shape.dataParts, h.shape.chunkSize,
                             h.shape.tailLen, h.chunk)
  {
    hide Be16, Be32, Put16, Put32, FrameLen;
    Put16Be16(p, 0);
    Put32Be32(p, 2);
    Put16Be16(p, 6);
    Put16Be16(p, 8);
    Put16Be16(p, 10);
    Put16Be16(p, 12);
    Put16Be16(p, 14);
    Put16Be16(p, 16);
    assert p == p[0..2] + p[2..6] + p[6..8] + p[8..10] + p[10..12] + p[12..14] + p[14..16] + p[16..18] + p[18..];
  }
}
