/** Little-endian byte strings, `to_le_bytes` and `from_le_bytes`. */
module LeBytes {
  import opened AddressSpace
  import opened Flags

  /** `256^n`. */
  function Pow256(n: nat): (p: nat)
    ensures p > 0
  {
    if n == 0 then 1 else 256 * Pow256(n - 1)
  }

  /** The low `n` bytes of `v`, lowest first. */
  function ToBytes(v: nat, n: nat): (bs: seq<Byte>)
    ensures |bs| == n
  {
    if n == 0 then [] else [v % 256] + ToBytes(v / 256, n - 1)
  }

  function FromBytes(bs: seq<Byte>): (v: nat) {
    if bs == [] then 0 else bs[0] + 256 * FromBytes(bs[1..])
  }

  lemma {:induction false} FromBytesBound(bs: seq<Byte>)
    ensures FromBytes(bs) < Pow256(|bs|)
  {
    if bs != [] {
      FromBytesBound(bs[1..]);
    }
  }

  /** Reading bytes and writing them back. */
  lemma {:induction false} BytesRoundTrip(bs: seq<Byte>)
    ensures ToBytes(FromBytes(bs), |bs|) == bs
  {
    if bs != [] {
      BytesRoundTrip(bs[1..]);
      assert FromBytes(bs) / 256 == FromBytes(bs[1..]) && FromBytes(bs) % 256 == bs[0];
    }
  }

  /** Writing `n` bytes of a number and reading them back truncates it. */
  lemma {:induction false} ValueRoundTrip(v: nat, n: nat)
    ensures FromBytes(ToBytes(v, n)) == v % Pow256(n)
  {
    if n > 0 {
      ValueRoundTrip(v / 256, n - 1);
      assert ToBytes(v, n)[1..] == ToBytes(v / 256, n - 1);
      LowByteMod(v, Pow256(n - 1));
    }
  }

  /** Byte `i` of a number has the weight `256^i`. */
  lemma {:induction false} ByteAt(v: nat, n: nat, i: nat)
    requires i < n
    ensures ToBytes(v, n)[i] == v / Pow256(i) % 256
  {
    if i > 0 {
      ByteAt(v / 256, n - 1, i - 1);
      assert ToBytes(v, n)[i] == ToBytes(v / 256, n - 1)[i - 1];
      DivDiv(v, Pow256(i - 1));
    } else {
      assert v / 1 == v;
    }
  }

  lemma DivDiv(v: nat, p: nat)
    requires p > 0
    ensures v / 256 / p == v / (256 * p)
  {
    var q, r := v / 256 / p, v / 256 % p;
    assert v / 256 == q * p + r;
    Scale(q, p);
    DivUnique(v, 256 * p, q, v % 256 + 256 * r);
  }

  /** The number of two strings of bytes, one after the other. */
  lemma {:induction false} FromBytesAppend(a: seq<Byte>, b: seq<Byte>)
    ensures FromBytes(a + b) == FromBytes(a) + Pow256(|a|) * FromBytes(b)
  {
    if a == [] {
      assert a + b == b;
    } else {
      FromBytesAppend(a[1..], b);
      assert (a + b)[1..] == a[1..] + b;
      Weigh(Pow256(|a| - 1), FromBytes(b));
    }
  }

  lemma Weigh(p: nat, n: nat)
    ensures 256 * (p * n) == 256 * p * n
  {
  }

  /** The instruction word of four bytes is their little-endian number. */
  lemma WordIsNumber(b0: Byte, b1: Byte, b2: Byte, b3: Byte)
    ensures LittleEndian(b0, b1, b2, b3) == FromBytes([b0, b1, b2, b3])
    ensures ToBytes(LittleEndian(b0, b1, b2, b3), 4) == [b0, b1, b2, b3]
  {
    var bs, b123, b23 := [b0, b1, b2, b3], [b1, b2, b3], [b2, b3];
    assert bs[1..] == b123 && b123[1..] == b23 && b23[1..] == [b3] && [b3][1..] == [];
    assert FromBytes([b3]) == b3;
    assert FromBytes(b23) == b2 + 256 * b3;
    assert FromBytes(b123) == b1 + 256 * FromBytes(b23);
    BytesRoundTrip(bs);
  }

  lemma LowByteMod(v: nat, p: nat)
    requires p > 0
    ensures v % (256 * p) == v % 256 + 256 * (v / 256 % p)
  {
    var q, r := v / 256 / p, v / 256 % p;
    assert v / 256 == q * p + r;
    Scale(q, p);
    ModUnique(v, 256 * p, q, v % 256 + 256 * r);
  }

  lemma Scale(q: nat, p: nat)
    ensures q * (256 * p) == 256 * (q * p)
  {
  }
}
