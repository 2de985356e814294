/** Writing a binary stream and reading it back: groups of bits among byte-aligned data. */
module BinaryStreams {
  import opened BitStreams

  const SIGNED_BYTE := 128

  /** Conversion to an 8-bit signed integer. */
  function ToInt8(n: int): (r: int)
    ensures -128 <= r <= 127 && r % 256 == n % 256
  {
    if n % 256 >= SIGNED_BYTE then n % 256 - 256 else n % 256
  }

  function Reverse(bytes: seq<Byte>): (r: seq<Byte>)
    ensures |r| == |bytes|
    decreases |bytes|
  {
    if bytes == [] then [] else Reverse(bytes[1..]) + [bytes[0]]
  }

  /** The bytes of an n-byte number in the order of the stream. */
  function Ordered(u: nat, n: nat, swap: bool): (bytes: seq<Byte>)
    ensures |bytes| == n
  {
    if swap then Reverse(LowBytes(u, n)) else LowBytes(u, n)
  }

  lemma {:induction false} ReverseTwice(bytes: seq<Byte>)
    ensures Reverse(Reverse(bytes)) == bytes
    decreases |bytes|
  {
    if bytes != [] {
      ReverseTwice(bytes[1..]);
      ReverseSnoc(Reverse(bytes[1..]), bytes[0]);
    }
  }

  lemma {:induction false} ReverseSnoc(bytes: seq<Byte>, b: Byte)
    ensures Reverse(bytes + [b]) == [b] + Reverse(bytes)
    decreases |bytes|
  {
    if bytes != [] {
      ReverseSnoc(bytes[1..], b);
      assert (bytes + [b])[1..] == bytes[1..] + [b];
    }
  }

  lemma {:induction false} ReverseAt(bytes: seq<Byte>, k: nat)
    requires k < |bytes|
    ensures Reverse(bytes)[k] == bytes[|bytes| - 1 - k]
    decreases |bytes|
  {
    if k < |bytes| - 1 {
      ReverseAt(bytes[1..], k);
    }
  }

  /** A bit set in the signed current byte: below the top bit the byte is the number so far, and with
      the top bit its value as an unsigned byte is. */
  lemma PartGrows(part: seq<bool>, bit: bool)
    requires |part| < 8
    ensures var n := BitsValue(part) + if bit then Pow2(|part|) else 0;
      && n == BitsValue(part + [bit]) && 0 <= n < 256 && ToInt8(n) % 256 == n
      && (|part| < 7 ==> ToInt8(n) == n)
  {
    hide Pow2, BitsValue;
    BitsValueSnoc(part, bit);
    BitsValueBound(part + [bit]);
    PowMonotone(|part| + 1, if |part| < 7 then 7 else 8);
    PowersAre();
    var n := BitsValue(part) + if bit then Pow2(|part|) else 0;
    assert n == BitsValue(part + [bit]);
  }

  /** A stream being written; `buffer` is what lies before the write position. */
  class BinaryOutput {
    var buffer: seq<Byte>
    var swapBytes: bool
    var bitString: int
    var bitPos: nat
    var inBits: bool
    /** The bits of the current group: those in whole bytes, and those still in bitString. */
    ghost var base: seq<Byte>
    ghost var full: seq<bool>
    ghost var part: seq<bool>

    ghost predicate Valid()
      reads this
    {
      if inBits then
        && |full| % 8 == 0 && |part| == bitPos < 8
        && bitString == BitsValue(part) && buffer == base + Pack(full)
      else bitPos == 0 && bitString == 0
    }

    constructor (swap: bool)
      ensures Valid() && !inBits && buffer == [] && swapBytes == swap
    {
      buffer, swapBytes, bitString, bitPos, inBits := [], swap, 0, 0, false;
      base, full, part := [], [], [];
    }

    method WriteUInt8(b: Byte)
      modifies this`buffer
      ensures buffer == old(buffer) + [b]
    {
      buffer := buffer + [b];
    }

    method BeginBits()
      requires Valid() && !inBits
      modifies this
      ensures Valid() && inBits && buffer == old(buffer) && swapBytes == old(swapBytes)
      ensures base == old(buffer) && full + part == []
    {
      bitString, bitPos, inBits := 0, 0, true;
      base, full, part := buffer, [], [];
    }

    /** Appends one bit to the current byte, and the byte to the stream when it is full. */
    method WriteBit(bit: bool)
      requires Valid() && inBits
      modifies this
      ensures Valid() && inBits && base == old(base) && swapBytes == old(swapBytes)
      ensures full + part == old(full + part) + [bit]
    {
      hide Pack, Pow2, ToInt8;
      PartGrows(part, bit);
      assert full + (part + [bit]) == full + part + [bit];
      bitString := ToInt8(bitString + if bit then Pow2(bitPos) else 0);
      bitPos := bitPos + 1;
      part := part + [bit];
      if bitPos > 7 {
        FullByte(full, part);
        WriteUInt8(bitString % 256);
        full, part := full + part, [];
        bitString := 0;
        bitPos := 0;
      }
    }

    /** Appends the low bits of a value, lowest first. */
    method WriteBits(value: nat, numBits: nat)
      requires Valid() && inBits
      modifies this
      ensures Valid() && inBits && base == old(base) && swapBytes == old(swapBytes)
      ensures full + part == old(full + part) + FieldBits(value, numBits)
    {
      var v, k := value, numBits;
      while k > 0
        invariant Valid() && inBits && base == old(base) && swapBytes == old(swapBytes)
        invariant full + part + FieldBits(v, k) == old(full + part) + FieldBits(value, numBits)
      {
        ghost var before := full + part;
        WriteBit(v % 2 == 1);
        assert before + FieldBits(v, k) == before + [v % 2 == 1] + FieldBits(v / 2, k - 1);
        v := v / 2;
        k := k - 1;
      }
      assert FieldBits(v, 0) == [];
    }

    /** Closes the group; the last byte is filled up with zero bits. */
    method EndBits()
      requires Valid() && inBits
      modifies this
      ensures Valid() && !inBits && swapBytes == old(swapBytes)
      ensures buffer == old(base) + Pack(old(full + part))
    {
      PackConcat(full, part);
      if bitPos > 0 {
        BitsValueBound(part);
        PowMonotone(bitPos, 7);
        PowersAre();
        WriteUInt8(bitString % 256);
      }
      bitString, bitPos, inBits := 0, 0, false;
    }

    method WriteUInt64(u: nat)
      requires Valid() && !inBits
      modifies this`buffer
      ensures Valid() && buffer == old(buffer) + Ordered(u, 8, swapBytes)
    {
      var c := LowBytes(u, 8);
      if swapBytes {
        assert [c[7], c[6], c[5], c[4], c[3], c[2], c[1], c[0]] == Reverse(c) by { ReverseEight(c); }
        buffer := buffer + [c[7], c[6], c[5], c[4], c[3], c[2], c[1], c[0]];
      } else {
        buffer := buffer + c;
      }
    }

    method WriteUInt32(u: nat)
      requires Valid() && !inBits
      modifies this`buffer
      ensures Valid() && buffer == old(buffer) + Ordered(u, 4, swapBytes)
    {
      var c := LowBytes(u, 4);
      if swapBytes {
        assert [c[3], c[2], c[1], c[0]] == Reverse(c) by { ReverseFour(c); }
        buffer := buffer + [c[3], c[2], c[1], c[0]];
      } else {
        buffer := buffer + c;
      }
    }

    /** A string with its terminating zero, and one more where that makes an odd length even. */
    method WriteStringEven(s: seq<Byte>)
      requires Valid() && !inBits
      modifies this`buffer
      ensures Valid() && buffer == old(buffer) + EvenBytes(s)
    {
      var len := |s| + 1;
      buffer := buffer + s + [0];
      if len % 2 == 1 {
        WriteUInt8(0);
      }
    }

    /** A string with its terminating zero, after the length of both. */
    method WriteString32(s: seq<Byte>)
      requires Valid() && !inBits
      modifies this`buffer
      ensures Valid() && buffer == old(buffer) + CountedBytes(s, swapBytes)
    {
      WriteUInt32(|s| + 1);
      buffer := buffer + (s + [0]);
    }
  }

  lemma ReverseEight(c: seq<Byte>)
    requires |c| == 8
    ensures Reverse(c) == [c[7], c[6], c[5], c[4], c[3], c[2], c[1], c[0]]
  {
    forall k | 0 <= k < 8 ensures Reverse(c)[k] == c[7 - k] {
      ReverseAt(c, k);
    }
  }

  lemma ReverseFour(c: seq<Byte>)
    requires |c| == 4
    ensures Reverse(c) == [c[3], c[2], c[1], c[0]]
  {
    forall k | 0 <= k < 4 ensures Reverse(c)[k] == c[3 - k] {
      ReverseAt(c, k);
    }
  }

  function EvenBytes(s: seq<Byte>): seq<Byte> {
    s + [0] + if (|s| + 1) % 2 == 1 then [0] else []
  }

  function CountedBytes(s: seq<Byte>, swap: bool): seq<Byte> {
    Ordered(|s| + 1, 4, swap) + (s + [0])
  }

  /** A stream being read. */
  class BinaryInput {
    const buffer: seq<Byte>
    const swapBytes: bool
    var pos: nat
    var bitString: nat
    var bitPos: nat
    var inBits: bool
    /** Where the current group of bits starts. */
    ghost var start: nat

    /** The bits of the group that are not read yet, and all that follow. */
    ghost function Unread(): seq<bool>
      requires pos <= |buffer| && bitPos <= 8
      reads this
    {
      FieldBits(bitString, 8 - bitPos) + Unpack(buffer[pos..])
    }

    /** How many bits of the group have been read. */
    ghost function Read(): int
      reads this
    {
      8 * (pos - start) - 8 + bitPos
    }

    ghost predicate Valid()
      reads this
    {
      && pos <= |buffer|
      && (!inBits ==> bitPos == 0)
      && (inBits ==> bitPos <= 8 && start < pos && (bitPos == 0 ==> pos == start + 1))
    }

    constructor (bytes: seq<Byte>, swap: bool)
      ensures Valid() && !inBits && pos == 0 && buffer == bytes && swapBytes == swap
    {
      buffer, swapBytes, pos, bitString, bitPos, inBits, start := bytes, swap, 0, 0, 0, false, 0;
    }

    method ReadUInt8() returns (b: Byte)
      requires pos < |buffer|
      modifies this`pos
      ensures pos == old(pos) + 1 && b == buffer[old(pos)]
    {
      b := buffer[pos];
      pos := pos + 1;
    }

    /** Looks at one byte even when no bit is going to be read; false at the end of the stream, where
        the source stops in an assertion. */
    method BeginBits() returns (ok: bool)
      requires Valid() && !inBits
      modifies this
      ensures ok <==> old(pos) < |buffer|
      ensures ok ==> Valid() && inBits && start == old(pos) && Read() == 0
      ensures ok ==> Unread() == Unpack(buffer[old(pos)..])
    {
      inBits, bitPos, start := true, 0, pos;
      ok := pos < |buffer|;
      if !ok {
        return;
      }
      assert buffer[pos..][1..] == buffer[pos + 1..];
      bitString := ReadUInt8();
    }

    method ReadBit() returns (bit: bool)
      requires Valid() && inBits && |Unread()| > 0
      modifies this
      ensures Valid() && inBits && start == old(start)
      ensures old(Unread()) == [bit] + Unread() && Read() == old(Read()) + 1
    {
      hide FieldBits, Unpack;
      if bitPos > 7 {
        FetchByte();
      }
      FirstBit(bitString, 8 - bitPos, Unpack(buffer[pos..]));
      bit := bitString % 2 == 1;
      bitString := bitString / 2;
      bitPos := bitPos + 1;
    }

    method FetchByte()
      requires Valid() && inBits && bitPos == 8 && |Unread()| > 0
      modifies this
      ensures inBits && start == old(start) && bitPos == 0 && pos == old(pos) + 1 && pos <= |buffer|
      ensures Unread() == old(Unread())
    {
      hide FieldBits, Unpack;
      NoBits(bitString, Unpack(buffer[pos..]));
      UnpackFirst(buffer, pos);
      bitPos := 0;
      bitString := ReadUInt8();
    }

    /** The next bits as a number, the first one lowest. */
    method ReadBits(numBits: nat) returns (out: nat)
      requires Valid() && inBits && numBits <= |Unread()|
      modifies this
      ensures Valid() && inBits && start == old(start) && Read() == old(Read()) + numBits
      ensures out == BitsValue(old(Unread())[..numBits]) && Unread() == old(Unread())[numBits..]
    {
      hide FieldBits, Unpack;
      out := 0;
      var k := 0;
      ghost var all := Unread();
      while k < numBits
        invariant 0 <= k <= numBits && Valid() && inBits && start == old(start) && Read() == old(Read()) + k
        invariant numBits <= |all| && Unread() == all[k..] && out == BitsValue(all[..k])
      {
        var bit := ReadBit();
        BitsValueSnoc(all[..k], bit);
        assert all[..k + 1] == all[..k] + [bit];
        out := out + if bit then Pow2(k) else 0;
        k := k + 1;
      }
    }

    /** Closes the group: a byte looked at but not used is put back. */
    method EndBits()
      requires Valid() && inBits
      modifies this
      ensures Valid() && !inBits && pos == old(start + (Read() + 7) / 8)
    {
      if bitPos == 0 {
        pos := pos - 1;
      }
      inBits, bitPos := false, 0;
    }

    method ReadUInt64() returns (u: nat)
      requires Valid() && !inBits && pos + 8 <= |buffer|
      modifies this`pos
      ensures Valid() && pos == old(pos) + 8
      ensures u == BytesValue(if swapBytes then Reverse(buffer[old(pos)..pos]) else buffer[old(pos)..pos])
    {
      ghost var bytes := buffer[pos..pos + 8];
      var out;
      if swapBytes {
        ReverseEight(bytes);
        out := [buffer[pos + 7], buffer[pos + 6], buffer[pos + 5], buffer[pos + 4],
                buffer[pos + 3], buffer[pos + 2], buffer[pos + 1], buffer[pos]];
      } else {
        out := buffer[pos..pos + 8];
      }
      pos := pos + 8;
      u := BytesValue(out);
    }

    method ReadUInt32() returns (u: nat)
      requires Valid() && !inBits && pos + 4 <= |buffer|
      modifies this`pos
      ensures Valid() && pos == old(pos) + 4
      ensures u == BytesValue(if swapBytes then Reverse(buffer[old(pos)..pos]) else buffer[old(pos)..pos])
    {
      ghost var bytes := buffer[pos..pos + 4];
      var out;
      if swapBytes {
        ReverseFour(bytes);
        out := [buffer[pos + 3], buffer[pos + 2], buffer[pos + 1], buffer[pos]];
      } else {
        out := buffer[pos..pos + 4];
      }
      pos := pos + 4;
      u := BytesValue(out);
    }

    /** The next n bytes as a string, which ends at a zero. */
    method ReadStringOf(n: nat) returns (s: seq<Byte>)
      requires Valid() && !inBits && pos + n <= |buffer|
      modifies this`pos
      ensures Valid() && pos == old(pos) + n && s == UpToZero(buffer[old(pos)..pos])
    {
      s := UpToZero(buffer[pos..pos + n]);
      pos := pos + n;
    }

    /** A string up to its terminating zero, which is consumed, or up to the end of the stream where
        there is none; false where the stream has already ended. */
    method ReadString() returns (ok: bool, s: seq<Byte>)
      requires Valid() && !inBits
      modifies this`pos
      ensures Valid() && (ok <==> old(pos) < |buffer|)
      ensures ok ==> s == UpToZero(buffer[old(pos)..]) && pos == AfterZero(old(pos), s)
    {
      s := [];
      var n := 0;
      while pos + n < |buffer| - 1 && buffer[pos + n] != 0
        invariant 0 <= n && (pos < |buffer| ==> pos + n < |buffer|) && (pos == |buffer| ==> n == 0)
        invariant forall k :: pos <= k < pos + n ==> buffer[k] != 0
      {
        n := n + 1;
      }
      ZeroFound(buffer, pos, n);
      n := n + 1;
      ok := pos + n <= |buffer|;
      if ok {
        s := ReadStringOf(n);
      }
    }

    /** The position after a string that started at p and its zero. */
    function AfterZero(p: nat, s: seq<Byte>): nat {
      if p + |s| < |buffer| then p + |s| + 1 else |buffer|
    }

    /** The position after the padding of a string of even length, which may be missing at the end. */
    function AfterPadding(p: nat, s: seq<Byte>): nat {
      if p < |buffer| && (|s| + 1) % 2 == 1 then p + 1 else p
    }

    /** The same, and one byte more after an even length, if there is one. */
    method ReadStringEven() returns (ok: bool, s: seq<Byte>)
      requires Valid() && !inBits
      modifies this`pos
      ensures Valid() && (ok <==> old(pos) < |buffer|)
      ensures ok ==> s == UpToZero(buffer[old(pos)..])
      ensures ok ==> pos == AfterPadding(AfterZero(old(pos), s), s)
    {
      ok, s := ReadString();
      if ok && pos < |buffer| && (|s| + 1) % 2 == 1 {
        pos := pos + 1;
      }
    }

    /** A string in as many bytes as a number before it says; false where that is not a signed 32-bit
        number or the stream is shorter. */
    method ReadString32() returns (ok: bool, s: seq<Byte>)
      requires Valid() && !inBits
      modifies this`pos
      ensures Valid()
      ensures ok <==> old(pos) + 4 <= |buffer| && CountAt(old(pos)) < 0x8000_0000 && old(pos) + 4 + CountAt(old(pos)) <= |buffer|
      ensures ok ==> pos == old(pos) + 4 + CountAt(old(pos)) && s == UpToZero(buffer[old(pos) + 4..pos])
    {
      ok, s := false, [];
      if pos + 4 <= |buffer| {
        var len := ReadUInt32();
        if len < MAX_INT32 && pos + len <= |buffer| {
          s := ReadStringOf(len);
          ok := true;
        }
      }
    }

    /** The 32-bit number that stands at p. */
    function CountAt(p: nat): nat
      requires p + 4 <= |buffer|
    {
      BytesValue(if swapBytes then Reverse(buffer[p..p + 4]) else buffer[p..p + 4])
    }
  }

  /** n bytes without a zero, and then a zero or the last byte: the string ends there. */
  lemma ZeroFound(buffer: seq<Byte>, pos: nat, n: nat)
    requires pos <= |buffer| && (pos < |buffer| ==> pos + n < |buffer|) && (pos == |buffer| ==> n == 0)
    requires forall k :: pos <= k < pos + n ==> buffer[k] != 0
    requires pos + n >= |buffer| - 1 || buffer[pos + n] == 0
    ensures pos < |buffer| ==>
      var s := UpToZero(buffer[pos..pos + n + 1]);
      s == UpToZero(buffer[pos..]) && (if pos + |s| < |buffer| then pos + |s| + 1 else |buffer|) == pos + n + 1
  {
    if pos < |buffer| {
      var text := buffer[pos..pos + n];
      if buffer[pos + n] == 0 {
        assert buffer[pos..pos + n + 1] == text + [0] + [];
        assert buffer[pos..] == text + [0] + buffer[pos + n + 1..];
        UpToZeroOfText(text, []);
        UpToZeroOfText(text, buffer[pos + n + 1..]);
      } else {
        assert buffer[pos..] == buffer[pos..pos + n + 1] == text + [buffer[pos + n]];
        UpToZeroOfUnended(buffer[pos..]);
      }
    }
  }

  lemma {:induction false} UpToZeroOfUnended(s: seq<Byte>)
    requires IsText(s)
    ensures UpToZero(s) == s
    decreases |s|
  {
    if s != [] {
      UpToZeroOfUnended(s[1..]);
    }
  }

  /** What was written as a string of even length reads back, and the padding is skipped. */
  lemma EvenReadsBack(buffer: seq<Byte>, pos: nat, text: seq<Byte>, rest: seq<Byte>)
    requires pos <= |buffer| && IsText(text) && buffer[pos..] == EvenBytes(text) + rest
    ensures UpToZero(buffer[pos..]) == text && pos + |text| < |buffer|
    ensures var next := pos + |text| + 1;
      var after := if next < |buffer| && (|text| + 1) % 2 == 1 then next + 1 else next;
      after <= |buffer| && buffer[after..] == rest
  {
    hide UpToZero;
    var pad: seq<Byte> := if (|text| + 1) % 2 == 1 then [0] else [];
    assert EvenBytes(text) + rest == text + [0] + (pad + rest);
    UpToZeroOfText(text, pad + rest);
    ReadPrefix(buffer, pos, EvenBytes(text), rest);
  }

  /** What was written as a counted string reads back. */
  lemma CountedReadsBack(buffer: seq<Byte>, pos: nat, text: seq<Byte>, rest: seq<Byte>, swap: bool)
    requires pos <= |buffer| && IsText(text) && |text| + 1 < MAX_INT32
    requires buffer[pos..] == CountedBytes(text, swap) + rest
    ensures pos + 4 + |text| + 1 <= |buffer|
    ensures BytesValue(if swap then Reverse(buffer[pos..pos + 4]) else buffer[pos..pos + 4]) == |text| + 1
    ensures UpToZero(buffer[pos + 4..pos + 4 + |text| + 1]) == text && buffer[pos + 4 + |text| + 1..] == rest
  {
    hide Ordered, BytesValue, Reverse, UpToZero;
    assert buffer[pos..] == Ordered(|text| + 1, 4, swap) + ((text + [0]) + rest);
    ReadPrefix(buffer, pos, Ordered(|text| + 1, 4, swap), (text + [0]) + rest);
    NumberRoundTrip(|text| + 1, 4, swap);
    ReadPrefix(buffer, pos + 4, text + [0], rest);
    assert text + [0] + [] == text + [0];
    UpToZeroOfText(text, []);
  }

  /** What is read when the stream goes on with a and then b. */
  lemma ReadPrefix(buffer: seq<Byte>, pos: nat, a: seq<Byte>, b: seq<Byte>)
    requires pos <= |buffer| && buffer[pos..] == a + b
    ensures pos + |a| <= |buffer| && buffer[pos..pos + |a|] == a && buffer[pos + |a|..] == b
  {
    assert buffer[pos..pos + |a|] == buffer[pos..][..|a|];
    assert buffer[pos + |a|..] == buffer[pos..][|a|..];
  }

  const MAX_INT32 := 0x8000_0000

  /** What a zero-terminated string can hold. */
  predicate IsText(s: seq<Byte>) {
    forall i :: 0 <= i < |s| ==> s[i] != 0
  }

  function UpToZero(bytes: seq<Byte>): seq<Byte>
    decreases |bytes|
  {
    if bytes == [] || bytes[0] == 0 then [] else [bytes[0]] + UpToZero(bytes[1..])
  }

  lemma {:induction false} UpToZeroOfText(s: seq<Byte>, rest: seq<Byte>)
    requires IsText(s)
    ensures UpToZero(s + [0] + rest) == s
    decreases |s|
  {
    if s != [] {
      assert (s + [0] + rest)[1..] == s[1..] + [0] + rest;
      UpToZeroOfText(s[1..], rest);
    }
  }

  /** Numbers survive in either byte order. */
  lemma NumberRoundTrip(u: nat, n: nat, swap: bool)
    requires (n == 4 && u < 0x1_0000_0000) || (n == 8 && u < 0x1_0000_0000_0000_0000)
    ensures BytesValue(if swap then Reverse(Ordered(u, n, swap)) else Ordered(u, n, swap)) == u
  {
    assert Pow256(4) == 0x1_0000_0000;
    assert Pow256(8) == 0x1_0000_0000_0000_0000;
    BytesRoundTrip(u, n);
    ReverseTwice(LowBytes(u, n));
  }
}
