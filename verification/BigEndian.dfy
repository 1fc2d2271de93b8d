/** Big-endian integers in byte strings. */
module BigEndian {
  import opened Common

  function Be16(p: Bytes, i: nat): (n: nat)
    requires i + 2 <= |p|
    ensures n < 0x1_0000
  {
    Code(p[i]) * 256 + Code(p[i + 1])
  }

  function Be32(p: Bytes, i: nat): (n: nat)
    requires i + 4 <= |p|
    ensures n < 0x1_0000_0000
  {
    Be16(p, i) * 0x1_0000 + Be16(p, i + 2)
  }

  /** The low 16 bits, most significant byte first: Go's uint16 conversion truncates. */
  function Put16(n: nat): (p: Bytes)
    ensures |p| == 2
  {
    [((n / 256) % 256) as bv8, (n % 256) as bv8]
  }

  function Put32(n: nat): (p: Bytes)
    ensures |p| == 4
  {
    Put16(n / 0x1_0000) + Put16(n)
  }

  lemma SplitBytes(n: nat)
    ensures ((n / 256) % 256) * 256 + n % 256 == n % 0x1_0000
  {}

  lemma Be16Put16(n: nat, p: Bytes, i: nat)
    requires i + 2 <= |p| && p[i..i + 2] == Put16(n)
    ensures Be16(p, i) == n % 0x1_0000
  {
    hide Code;
    var hi, lo := (n / 256) % 256, n % 256;
    SplitBytes(n);
    assert p[i] == p[i..i + 2][0] == hi as bv8 && p[i + 1] == p[i..i + 2][1] == lo as bv8;
    CodeOfByte(hi);
    CodeOfByte(lo);
  }

  lemma Be32Put32(n: nat, p: Bytes, i: nat)
    requires i + 4 <= |p| && p[i..i + 4] == Put32(n)
    ensures Be32(p, i) == n % 0x1_0000_0000
  {
    hide Be16, Put16;
    assert p[i..i + 2] == p[i..i + 4][..2] && p[i + 2..i + 4] == p[i..i + 4][2..];
    Be16Put16(n / 0x1_0000, p, i);
    Be16Put16(n, p, i + 2);
  }

  /** Most significant byte first. */
  lemma ByteOrder(n: nat)
    ensures Put16(n) == [((n / 0x100) % 256) as bv8, (n % 256) as bv8]
    ensures Put32(n) == [((n / 0x100_0000) % 256) as bv8, ((n / 0x1_0000) % 256) as bv8,
                         ((n / 0x100) % 256) as bv8, (n % 256) as bv8]
  {
    assert n / 0x1_0000 / 256 == n / 0x100_0000;
  }

  lemma SplitByte(hi: nat, lo: nat)
    requires hi < 256 && lo < 256
    ensures ((hi * 256 + lo) / 256) % 256 == hi && (hi * 256 + lo) % 256 == lo
  {}

  lemma PutPair(hi: nat, lo: nat)
    requires hi < 256 && lo < 256
    ensures Put16(hi * 256 + lo) == [hi as bv8, lo as bv8]
  {
    SplitByte(hi, lo);
  }

  lemma Put16Be16(p: Bytes, i: nat)
    requires i + 2 <= |p|
    ensures Put16(Be16(p, i)) == p[i..i + 2]
  {
    hide Code, Put16;
    PutPair(Code(p[i]), Code(p[i + 1]));
    ByteOfCode(p[i]);
    ByteOfCode(p[i + 1]);
  }

  lemma SplitWords(hi: nat, lo: nat)
    requires lo < 0x1_0000
    ensures (hi * 0x1_0000 + lo) / 0x1_0000 == hi && (hi * 0x1_0000 + lo) % 0x1_0000 == lo
  {}

  lemma LowWord(q: nat, r: nat)
    requires r < 0x1_0000
    ensures ((q * 0x1_0000 + r) / 256) % 256 == (r / 256) % 256 && (q * 0x1_0000 + r) % 256 == r % 256
  {
    assert (q * 0x1_0000 + r) / 256 == q * 256 + r / 256;
    assert (q * 256 + r / 256) % 256 == (r / 256) % 256;
  }

  lemma SamePut(n: nat, m: nat)
    requires (n / 256) % 256 == (m / 256) % 256 && n % 256 == m % 256
    ensures Put16(n) == Put16(m)
  {}

  lemma Put16Low(q: nat, r: nat)
    requires r < 0x1_0000
    ensures Put16(q * 0x1_0000 + r) == Put16(r)
  {
    hide Put16;
    LowWord(q, r);
    SamePut(q * 0x1_0000 + r, r);
  }

  lemma Put32Be32(p: Bytes, i: nat)
    requires i + 4 <= |p|
    ensures Put32(Be32(p, i)) == p[i..i + 4]
  {
    hide Put16, Be16;
    var hi, lo := Be16(p, i), Be16(p, i + 2);
    SplitWords(hi, lo);
    Put16Be16(p, i);
    Put16Be16(p, i + 2);
    Put16Low(hi, lo);
    assert p[i..i + 4] == p[i..i + 2] + p[i + 2..i + 4];
  }
}
