/**
  The 128-bit secondary keys of the badge and achievement tables. Both pack a
  first 64-bit component into the high half and a second into the low half;
  `(uint128)hi << 64 | lo` equals `hi * 2^64 + lo` because the low 64 bits of
  the shifted value are zero.
 */
module Keys {
  import opened Primitives

  function Pack(hi: U64, lo: U64): (k: U128)
    ensures k / TWO_64 == hi
    ensures k % TWO_64 == lo
  {
    hi * TWO_64 + lo
  }

  /** Splits a key back into its high and low halves. */
  function Unpack(k: U128): (p: (U64, U64))
    ensures Pack(p.0, p.1) == k
  {
    (k / TWO_64, k % TWO_64)
  }

  lemma UnpackPack(hi: U64, lo: U64)
    ensures Unpack(Pack(hi, lo)) == (hi, lo)
  {
  }

  /** Distinct pairs give distinct keys. */
  lemma PackInjective(hi: U64, lo: U64, hi': U64, lo': U64)
    ensures Pack(hi, lo) == Pack(hi', lo') <==> hi == hi' && lo == lo'
  {
    if Pack(hi, lo) == Pack(hi', lo') {
      UnpackPack(hi, lo);
      UnpackPack(hi', lo');
    }
  }
}
