/** Powers of two and Python's int.bit_length. */
module Powers {

  function Pow2(n: nat): (r: nat)
    ensures r >= 1
  {
    if n == 0 then 1 else 2 * Pow2(n - 1)
  }

  function BitLength(v: nat): nat {
    if v == 0 then 0 else 1 + BitLength(v / 2)
  }

  /** 1 << v.bit_length() is the first power of two above v. */
  lemma {:induction false} BitLengthAbove(v: nat)
    ensures v < Pow2(BitLength(v)) && (v > 0 ==> Pow2(BitLength(v)) <= 2 * v)
  {
    if v == 0 {
    } else {
      BitLengthAbove(v / 2);
    }
  }
}
