/**
 * The scalar field of BN254, in which the step circuit's inputs live, and
 * the reduction of an arbitrary-precision integer into it.
 */
module Field {
  import opened BigEndian

  /** The order of the BN254 scalar field. */
  const P: nat := 21888242871839275222246405745257275088548364400416034343698204186575808495617

  /** 2^248, the bound of any value whose 32-byte big-endian form starts with a zero byte. */
  const PAYLOAD_BOUND: nat := 452312848583266388373324160190187140051835877600158453279131187530910662656

  /** The field order fits in 32 bytes and a 31-byte payload fits below it. */
  lemma PayloadBelowModulus()
    ensures Pow256(31) == PAYLOAD_BOUND < P < Pow256(32)
  {
    Pow256Of31();
  }

  function Abs(v: int): nat
  {
    if v < 0 then -v else v
  }

  /**
   * The field element of `v`: `to_bytes_le` keeps only the magnitude and
   * `from_le_bytes_mod_order` reduces it modulo P.
   */
  function FromBigInt(v: int): (e: nat)
    ensures e < P
  {
    Abs(v) % P
  }

  /** Values already in [0, P) are left unchanged by the reduction. */
  lemma FromBigIntCanonical(v: int)
    requires 0 <= v < P
    ensures FromBigInt(v) == v
  {
  }

  /** The reduction ignores the sign. */
  lemma FromBigIntDropsSign(v: int)
    ensures FromBigInt(-v) == FromBigInt(v)
  {
  }
}
