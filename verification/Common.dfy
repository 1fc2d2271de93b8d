/** Types and small facts shared by the modules. */
module Common {
  type PeerId = string

  type Bytes = seq<bv8>

  /** A byte as a number. */
  function Code(a: bv8): (n: nat)
    ensures n < 256
  {
    a as int
  }

  lemma CodeInjective(a: bv8, b: bv8)
    requires Code(a) == Code(b)
    ensures a == b
  {}

  lemma CodeOfByte(n: nat)
    requires n < 256
    ensures Code(n as bv8) == n
  {}

  lemma ByteOfCode(a: bv8)
    ensures Code(a) as bv8 == a
  {}

  lemma CodeZero(a: bv8)
    ensures Code(a) == 0 <==> a == 0
  {}

  datatype Option<+T> = None | Some(value: T)

  datatype Result<+T, +E> = Ok(value: T) | Err(error: E)

  /** The errors of pkg/fec. */
  datatype FecError = TooManyShards | InvalidLayout | NotEnoughShards | Singular

  /** The network a peer authenticated in; empty for an unknown peer. */
  function NetworkOf(networks: map<PeerId, string>, p: PeerId): (net: string) {
    if p in networks then networks[p] else ""
  }

  lemma SubsetSize<T>(a: set<T>, b: set<T>)
    requires a <= b
    ensures |a| <= |b|
  {
    assert b == a + (b - a);
  }
}
