/** Numbers as bytes, the most significant byte first. */
module BigEndian {
  import opened Basics
  import opened PageFile

  /** `n` in `k` bytes, the most significant first. */
  function ToBigEndian(n: nat, k: nat): (b: Bytes)
    ensures |b| == k
  {
    if k == 0 then [] else ToBigEndian(n / 256, k - 1) + [n % 256]
  }

  function FromBigEndian(b: Bytes): nat {
    if b == [] then 0 else 256 * FromBigEndian(b[..|b| - 1]) + b[|b| - 1]
  }

  function Pow256(k: nat): nat {
    if k == 0 then 1 else 256 * Pow256(k - 1)
  }

  lemma {:induction false} BigEndianBack(n: nat, k: nat)
    requires n < Pow256(k)
    ensures FromBigEndian(ToBigEndian(n, k)) == n
  {
    if k > 0 {
      BigEndianBack(n / 256, k - 1);
      assert ToBigEndian(n, k)[..k - 1] == ToBigEndian(n / 256, k - 1);
    }
  }

  lemma {:induction false} FromBigEndianBack(b: Bytes)
    ensures FromBigEndian(b) < Pow256(|b|)
    ensures ToBigEndian(FromBigEndian(b), |b|) == b
  {
    if b != [] {
      var front, n := b[..|b| - 1], FromBigEndian(b);
      FromBigEndianBack(front);
      assert n / 256 == FromBigEndian(front) && n % 256 == b[|b| - 1];
      assert b == front + [b[|b| - 1]];
    }
  }

  /** Numbers are ordered as their bytes are, the first that differ deciding. */
  lemma {:induction false} BigEndianOrder(a: nat, b: nat, k: nat) returns (i: nat)
    requires a < b < Pow256(k)
    ensures i < k && ToBigEndian(a, k)[..i] == ToBigEndian(b, k)[..i] && ToBigEndian(a, k)[i] < ToBigEndian(b, k)[i]
  {
    var x, y := ToBigEndian(a, k), ToBigEndian(b, k);
    assert x[..k - 1] == ToBigEndian(a / 256, k - 1) && y[..k - 1] == ToBigEndian(b / 256, k - 1);
    if a / 256 < b / 256 {
      i := BigEndianOrder(a / 256, b / 256, k - 1);
      assert x[..i] == x[..k - 1][..i] && y[..i] == y[..k - 1][..i];
    } else {
      i := k - 1;
    }
  }

  lemma FourBytes()
    ensures Pow256(4) == U32_RANGE
  {
  }

  lemma EightBytes()
    ensures Pow256(8) == U64_RANGE
  {
    assert Pow256(4) == 0x1_0000_0000;
    assert Pow256(8) == 0x1_0000_0000 * Pow256(4);
  }
}
