/** Numbers as bits and bytes, low end first. */
module BitStreams {
  type Byte = n: nat | n < 256

  function Pow2(n: nat): (p: nat)
    ensures p > 0
  {
    if n == 0 then 1 else 2 * Pow2(n - 1)
  }

  /** The n lowest bits of v. */
  function FieldBits(v: nat, n: nat): (bits: seq<bool>)
    ensures |bits| == n
    decreases n
  {
    if n == 0 then [] else [v % 2 == 1] + FieldBits(v / 2, n - 1)
  }

  function BitsValue(bits: seq<bool>): nat
    decreases |bits|
  {
    if bits == [] then 0 else (if bits[0] then 1 else 0) + 2 * BitsValue(bits[1..])
  }

  lemma {:induction false} BitsValueBound(bits: seq<bool>)
    ensures BitsValue(bits) < Pow2(|bits|)
    decreases |bits|
  {
    if bits != [] {
      BitsValueBound(bits[1..]);
    }
  }

  lemma {:induction false} BitsValueSnoc(bits: seq<bool>, b: bool)
    ensures BitsValue(bits + [b]) == BitsValue(bits) + if b then Pow2(|bits|) else 0
    decreases |bits|
  {
    if bits != [] {
      BitsValueSnoc(bits[1..], b);
      assert (bits + [b])[1..] == bits[1..] + [b];
    }
  }

  /** Cutting a number down to n bits is reducing it modulo 2^n. */
  lemma {:induction false} FieldRoundTrip(v: nat, n: nat)
    ensures BitsValue(FieldBits(v, n)) == v % Pow2(n)
    decreases n
  {
    if n > 0 {
      var rest := FieldBits(v / 2, n - 1);
      assert FieldBits(v, n)[1..] == rest;
      FieldRoundTrip(v / 2, n - 1);
      HalveModulus(v, Pow2(n - 1));
    }
  }

  lemma HalveModulus(v: nat, p: nat)
    requires p > 0
    ensures v % (2 * p) == v % 2 + 2 * (v / 2 % p)
  {
    var q, r := v / 2 / p, v / 2 % p;
    assert v == 2 * (q * p + r) + v % 2;
    assert v == q * (2 * p) + (2 * r + v % 2);
    UniqueRemainder(v, 2 * p, q, 2 * r + v % 2);
  }

  lemma UniqueRemainder(v: nat, d: nat, q: nat, r: nat)
    requires 0 <= r < d && v == q * d + r
    ensures v % d == r
  {
    var k := v / d;
    assert v == k * d + v % d;
    if q < k {
      MultipleIsLarge(k - q, d);
    } else if k < q {
      MultipleIsLarge(q - k, d);
    }
  }

  lemma MultipleIsLarge(k: nat, d: nat)
    requires k >= 1
    ensures k * d >= d
  {
    assert (k - 1) * d >= 0;
  }

  lemma Regroup(q: nat, b: nat, z: nat, a: nat)
    ensures (q * b + z) * a == q * (a * b) + z * a
    ensures b > 0 ==> (b - 1) * a + a == a * b
    ensures a > 0 && b > 0 ==> a * b > 0
  {
    assert q * b * a == q * (a * b);
  }

  lemma MultipleIsLarger(x: int, y: int, a: nat)
    requires x <= y
    ensures x * a <= y * a
  {
    assert (y - x) * a >= 0;
  }

  lemma DivideTwice(u: nat, a: nat, b: nat)
    requires a > 0 && b > 0
    ensures a * b > 0 && u / a / b == u / (a * b)
  {
    var q, z := u / a / b, u / a % b;
    assert u / a == q * b + z;
    assert u == u / a * a + u % a;
    Regroup(q, b, z, a);
    MultipleIsLarger(z, b - 1, a);
    UniqueQuotient(u, a * b, q, z * a + u % a);
  }

  lemma UniqueQuotient(v: nat, d: nat, q: nat, r: nat)
    requires 0 <= r < d && v == q * d + r
    ensures v / d == q
  {
    UniqueRemainder(v, d, q, r);
    var k := v / d;
    assert k * d == q * d;
    if q < k {
      MultipleIsLarge(k - q, d);
    } else if k < q {
      MultipleIsLarge(q - k, d);
    }
  }

  lemma {:induction false} BitsRoundTrip(bits: seq<bool>, n: nat)
    requires |bits| <= n
    ensures FieldBits(BitsValue(bits), n)[..|bits|] == bits
    decreases |bits|
  {
    if bits != [] {
      BitsRoundTrip(bits[1..], n - 1);
      var v := BitsValue(bits);
      assert FieldBits(v, n)[..|bits|] == [v % 2 == 1] + FieldBits(v / 2, n - 1)[..|bits| - 1];
    }
  }

  // ----- Bits in bytes -----

  function ByteOf(bits: seq<bool>): Byte
    requires |bits| <= 8
  {
    BitsValueBound(bits);
    PowersAre();
    PowMonotone(|bits|, 8);
    BitsValue(bits)
  }

  lemma PowersAre()
    ensures Pow2(7) == 128 && Pow2(8) == 256
  {
    assert Pow2(4) == 16;
    assert Pow2(7) == 128;
  }

  lemma {:induction false} PowMonotone(m: nat, n: nat)
    requires m <= n
    ensures Pow2(m) <= Pow2(n)
    decreases n
  {
    if m < n {
      PowMonotone(m, n - 1);
    }
  }

  /** Whole bytes filled with bits from the low end; the last byte may be left part empty. */
  function Pack(bits: seq<bool>): seq<Byte>
    decreases |bits|
  {
    if bits == [] then []
    else if |bits| <= 8 then [ByteOf(bits)]
    else [ByteOf(bits[..8])] + Pack(bits[8..])
  }

  function Unpack(bytes: seq<Byte>): (bits: seq<bool>)
    ensures |bits| == 8 * |bytes|
    decreases |bytes|
  {
    if bytes == [] then [] else FieldBits(bytes[0], 8) + Unpack(bytes[1..])
  }

  lemma {:induction false} UnpackConcat(a: seq<Byte>, b: seq<Byte>)
    ensures Unpack(a + b) == Unpack(a) + Unpack(b)
    decreases |a|
  {
    if a == [] {
      assert a + b == b;
    } else {
      assert (a + b)[1..] == a[1..] + b;
      UnpackConcat(a[1..], b);
    }
  }

  lemma {:induction false} PackSize(bits: seq<bool>)
    ensures |Pack(bits)| == (|bits| + 7) / 8
    decreases |bits|
  {
    if |bits| > 8 {
      PackSize(bits[8..]);
    }
  }

  /** A full byte more. */
  lemma {:induction false} PackConcat(full: seq<bool>, more: seq<bool>)
    requires |full| % 8 == 0
    ensures Pack(full + more) == Pack(full) + Pack(more)
    decreases |full|
  {
    hide ByteOf, Pack;
    if full == [] {
      assert full + more == more;
      PackNothing();
    } else {
      assert (full + more)[..8] == full[..8] && (full + more)[8..] == full[8..] + more;
      PackConcat(full[8..], more);
      PackStep(full);
      PackStep(full + more);
    }
  }

  lemma PackNothing()
    ensures Pack([]) == []
  {
  }

  /** The first eight bits are the first byte. */
  lemma PackStep(bits: seq<bool>)
    requires |bits| >= 8
    ensures Pack(bits) == [ByteOf(bits[..8])] + Pack(bits[8..])
  {
    hide ByteOf;
    if |bits| == 8 {
      assert bits[8..] == [] && bits[..8] == bits;
    }
  }

  lemma FullByte(full: seq<bool>, part: seq<bool>)
    requires |full| % 8 == 0 && |part| == 8
    ensures Pack(full + part) == Pack(full) + [ByteOf(part)]
  {
    PackConcat(full, part);
  }

  lemma FirstBit(v: nat, n: nat, rest: seq<bool>)
    requires n > 0
    ensures FieldBits(v, n) + rest == [v % 2 == 1] + (FieldBits(v / 2, n - 1) + rest)
  {
  }

  lemma NoBits(v: nat, rest: seq<bool>)
    ensures FieldBits(v, 0) + rest == rest
  {
  }

  lemma UnpackFirst(bytes: seq<Byte>, pos: nat)
    requires pos < |bytes|
    ensures Unpack(bytes[pos..]) == FieldBits(bytes[pos], 8) + Unpack(bytes[pos + 1..])
  {
    assert bytes[pos..][1..] == bytes[pos + 1..];
  }

  /** Packing loses no bit. */
  lemma {:induction false} PackRoundTrip(bits: seq<bool>)
    ensures |bits| <= |Unpack(Pack(bits))| && Unpack(Pack(bits))[..|bits|] == bits
    decreases |bits|
  {
    PackSize(bits);
    if bits == [] {
    } else if |bits| <= 8 {
      BitsRoundTrip(bits, 8);
      assert Pack(bits)[1..] == [];
      assert Unpack(Pack(bits)) == FieldBits(BitsValue(bits), 8);
    } else {
      var head, tail := bits[..8], bits[8..];
      PackRoundTrip(tail);
      PackSize(tail);
      BitsRoundTrip(head, 8);
      assert Pack(bits)[1..] == Pack(tail);
      assert Unpack(Pack(bits)) == head + Unpack(Pack(tail));
      assert bits == head + tail;
    }
  }

  // ----- Numbers in bytes -----

  function LowBytes(u: nat, n: nat): (bytes: seq<Byte>)
    ensures |bytes| == n
    decreases n
  {
    if n == 0 then [] else [u % 256] + LowBytes(u / 256, n - 1)
  }

  function BytesValue(bytes: seq<Byte>): nat
    decreases |bytes|
  {
    if bytes == [] then 0 else bytes[0] + 256 * BytesValue(bytes[1..])
  }

  function Pow256(n: nat): (p: nat)
    ensures p > 0
  {
    if n == 0 then 1 else 256 * Pow256(n - 1)
  }

  lemma {:induction false} BytesRoundTrip(u: nat, n: nat)
    requires u < Pow256(n)
    ensures BytesValue(LowBytes(u, n)) == u
    decreases n
  {
    if n > 0 {
      assert LowBytes(u, n)[1..] == LowBytes(u / 256, n - 1);
      BytesRoundTrip(u / 256, n - 1);
    }
  }
}
