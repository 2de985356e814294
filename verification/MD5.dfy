/** Streaming MD5: the digest depends on the message only, not on how it was cut into pieces. */
module MD5 {
  import opened BitStreams
  import opened MD5Block

  const WORD := 0x1_0000_0000
  const LENGTHS := 0x1_0000_0000_0000_0000
  const INT_LIMIT := 0x8000_0000

  /** The registers after the whole blocks of a message. */
  function Fold(r: Regs, bytes: seq<Byte>): Regs
    decreases |bytes|
  {
    if |bytes| < 64 then r else Fold(Process(r, bytes[..64]), bytes[64..])
  }

  lemma {:induction false} FoldConcat(r: Regs, a: seq<Byte>, b: seq<Byte>)
    requires |a| % 64 == 0
    ensures Fold(r, a + b) == Fold(Fold(r, a), b)
    decreases |a|
  {
    hide Process;
    if a == [] {
      assert a + b == b;
    } else {
      assert (a + b)[..64] == a[..64] && (a + b)[64..] == a[64..] + b;
      FoldConcat(Process(r, a[..64]), a[64..], b);
    }
  }

  lemma FoldBlock(r: Regs, a: seq<Byte>, block: seq<Byte>)
    requires |a| % 64 == 0 && |block| == 64
    ensures Fold(r, a + block) == Process(Fold(r, a), block)
  {
    hide Process;
    FoldConcat(r, a, block);
    assert block[..64] == block && block[64..] == [];
  }

  function Start(): Regs {
    Regs(Word(0x67452301), Word(0xefcdab89), Word(0x98badcfe), Word(0x10325476))
  }

  /** A length of n bytes as the two-word counter holds it. */
  function Counter(n: nat): nat {
    8 * n % LENGTHS
  }

  /** The whole blocks of a message and the incomplete one after them. */
  function WholePart(m: seq<Byte>): (w: seq<Byte>)
    ensures |w| % 64 == 0
  {
    m[..|m| - |m| % 64]
  }

  function RestPart(m: seq<Byte>): (r: seq<Byte>)
    ensures |r| == |m| % 64 < 64
  {
    m[|m| - |m| % 64..]
  }

  /** The registers have seen the whole blocks, and the buffer starts with the rest. */
  ghost predicate Absorbed(r: Regs, buffer: seq<Byte>, m: seq<Byte>) {
    |buffer| == 64 && r == Fold(Start(), WholePart(m)) && buffer[..|m| % 64] == RestPart(m)
  }

  function Zeros(n: nat): seq<Byte> {
    seq(n, _ => 0)
  }

  // ----- The specification: RFC 1321, sections 3.1, 3.2 and 3.5 -----

  /** How many bytes bring a length to 56 modulo 64: at least one, at most a whole block. */
  function PadLength(n: nat): (p: nat)
    ensures 1 <= p <= 64 && (n + p) % 64 == 56
  {
    (55 - n) % 64 + 1
  }

  /** A one bit, zero bits up to 448 modulo 512 bits, and the length in bits modulo 2^64. */
  function Padded(message: seq<Byte>): seq<Byte> {
    message + [0x80] + Zeros(PadLength(|message|) - 1) + LowBytes(Counter(|message|), 8)
  }

  function WordBytes(w: Word): (bytes: seq<Byte>)
    ensures |bytes| == 4
  {
    LowBytes(w.bits as nat, 4)
  }

  function RegBytes(r: Regs): (bytes: seq<Byte>)
    ensures |bytes| == 16
  {
    WordBytes(r.a) + WordBytes(r.b) + WordBytes(r.c) + WordBytes(r.d)
  }

  function Digest(message: seq<Byte>): (digest: seq<Byte>)
    ensures |digest| == 16
  {
    RegBytes(Fold(Start(), Padded(message)))
  }

  function PaddedBody(message: seq<Byte>): seq<Byte> {
    message + [0x80] + Zeros(PadLength(|message|) - 1)
  }

  /** Padding makes whole blocks. */
  lemma PaddingFits(message: seq<Byte>)
    ensures |PaddedBody(message)| == |message| + PadLength(|message|)
    ensures Padded(message) == PaddedBody(message) + LowBytes(Counter(|message|), 8)
    ensures |Padded(message)| % 64 == 0
  {
    hide LowBytes, PadLength;
    var body := PaddedBody(message);
    assert |body| == |message| + PadLength(|message|);
  }

  /** No other number of bytes up to a block would do. */
  lemma PaddingIsForced(n: nat, p: nat)
    requires 1 <= p <= 64 && (n + p) % 64 == 56
    ensures p == PadLength(n)
  {
  }

  lemma EightBytesValue(u: nat)
    requires u < LENGTHS
    ensures BytesValue(LowBytes(u, 8)) == u
  {
    assert Pow256(8) == LENGTHS;
    BytesRoundTrip(u, 8);
  }

  lemma SameEnds(a: seq<Byte>, b: seq<Byte>, c: seq<Byte>, d: seq<Byte>)
    requires a + b == c + d && |b| == |d|
    ensures a == c && b == d
  {
    assert a == (a + b)[..|a|] && b == (a + b)[|a|..];
    assert c == (c + d)[..|c|] && d == (c + d)[|c|..];
  }

  /** Padding loses nothing: different messages stay different. */
  lemma PaddingIsInjective(m: seq<Byte>, n: seq<Byte>)
    requires 8 * |m| < LENGTHS && 8 * |n| < LENGTHS && Padded(m) == Padded(n)
    ensures m == n
  {
    hide LowBytes, PadLength, Padded, BytesValue, Zeros;
    PaddingFits(m);
    PaddingFits(n);
    SameEnds(PaddedBody(m), LowBytes(8 * |m|, 8), PaddedBody(n), LowBytes(8 * |n|, 8));
    EightBytesValue(8 * |m|);
    EightBytesValue(8 * |n|);
    assert PaddedBody(m)[..|m|] == m && PaddedBody(n)[..|n|] == n;
  }

  // ----- The streaming state -----

  /** Conversion to a signed 32-bit integer. */
  function ToInt32(n: int): int {
    if n % WORD >= INT_LIMIT then n % WORD - WORD else n % WORD
  }

  lemma AddWord(x: nat, y: nat)
    requires x < WORD && y < WORD
    ensures (x + y) % WORD == if x + y < WORD then x + y else x + y - WORD
    ensures (x + y) % WORD < y <==> x + y >= WORD
  {
  }

  lemma EightTimes(n: nat)
    ensures 8 * n == n / 0x2000_0000 * WORD + n * 8 % WORD
  {
  }

  lemma CarriedSum(c0: nat, c1: nat, high: nat, low: nat, d0: nat, d1: nat, carry: nat, k: nat)
    requires c0 + low == d0 + carry * WORD && c1 + high + carry == d1 + k * WORD && d0 < WORD && d1 < WORD
    ensures (c0 + WORD * c1 + (high * WORD + low)) % LENGTHS == d0 + WORD * d1
  {
    var sum := c0 + WORD * c1 + (high * WORD + low);
    assert sum == k * LENGTHS + (d0 + WORD * d1);
    UniqueRemainder(sum, LENGTHS, k, d0 + WORD * d1);
  }

  /** Adding in two words with a carry is adding modulo 2^64. */
  lemma CarryIsRight(c0: nat, c1: nat, n: nat, low: nat, high: nat, d0: nat, d1: nat)
    requires c0 < WORD && c1 < WORD && n < INT_LIMIT
    requires low == n * 8 % WORD && high == n / 0x2000_0000
    requires d0 == (c0 + low) % WORD && d1 == (c1 + high) % WORD
    ensures d0 + WORD * (if d0 < low then (d1 + 1) % WORD else d1) == (c0 + WORD * c1 + 8 * n) % LENGTHS
  {
    EightTimes(n);
    AddWord(c0, low);
    AddWord(c1, high);
    AddWord(d1, 1);
    var carry := if d0 < low then 1 else 0;
    var e1 := if d0 < low then (d1 + 1) % WORD else d1;
    var k := (if c1 + high >= WORD then 1 else 0) + (if d0 < low && d1 + 1 >= WORD then 1 else 0);
    CarriedSum(c0, c1, high, low, d0, e1, carry, k);
  }

  lemma ToInt32Fits(n: nat)
    ensures ToInt32(n) <= n && ToInt32(n) < INT_LIMIT
  {
  }

  class State {
    var count0: nat
    var count1: nat
    var abcd: Regs
    const buf: array<Byte>
    /** Everything appended so far. */
    ghost var message: seq<Byte>

    /** The length of the last, incomplete block. */
    ghost function Left(): nat
      reads this
    {
      |message| % 64
    }

    /** The counter is the length in bits modulo 2^64, and all whole blocks are processed. */
    ghost predicate Valid()
      reads this, buf
    {
      && buf.Length == 64 && count0 < WORD && count1 < WORD
      && count0 + WORD * count1 == Counter(|message|)
      && Absorbed(abcd, buf[..], message)
    }

    constructor ()
      ensures Valid() && message == [] && fresh(buf)
    {
      count0, count1, abcd, message := 0, 0, Start(), [];
      buf := new Byte[64];
    }

    /** Copies bytes into the buffer. */
    method CopyIn(offset: nat, data: seq<Byte>)
      requires offset + |data| <= buf.Length
      modifies buf
      ensures buf[..] == old(buf[..offset]) + data + old(buf[offset + |data|..])
    {
      forall i | 0 <= i < |data| {
        buf[offset + i] := data[i];
      }
    }

    method AddLength(n: nat)
      requires n < INT_LIMIT && count0 < WORD && count1 < WORD
      modifies this`count0, this`count1
      ensures count0 < WORD && count1 < WORD
      ensures count0 + WORD * count1 == (old(count0 + WORD * count1) + 8 * n) % LENGTHS
    {
      var bits := n * 8 % WORD;
      CarryIsRight(count0, count1, n, bits, n / 0x2000_0000, (count0 + bits) % WORD, (count1 + n / 0x2000_0000) % WORD);
      count1 := (count1 + n / 0x2000_0000) % WORD;
      count0 := (count0 + bits) % WORD;
      if count0 < bits {
        count1 := (count1 + 1) % WORD;
      }
    }

    /** The first nbytes of data; a count that is not positive appends nothing. */
    method Append(data: seq<Byte>, nbytes: int)
      requires Valid() && nbytes <= |data| && nbytes < INT_LIMIT
      requires Left() == 0 || Left() + nbytes < INT_LIMIT
      modifies this, buf
      ensures Valid() && message == old(message) + data[..if nbytes > 0 then nbytes else 0]
    {
      if nbytes > 0 {
        AppendSome(data, nbytes);
      } else {
        assert message + [] == message;
      }
    }

    method AppendSome(data: seq<Byte>, nbytes: nat)
      requires Valid() && 0 < nbytes <= |data| && nbytes < INT_LIMIT
      modifies this, buf
      ensures Valid() && message == old(message) + data[..nbytes]
    {
      hide Fold, Process, Counter, Start, Absorbed, WholePart, RestPart;
      OffsetIsLeft(|message|, count0, count1);
      var offset := count0 / 8 % 64;
      LengthGrows(|message|, nbytes);
      AddLength(nbytes);
      AppendBytes(data, nbytes, offset);
      message := message + data[..nbytes];
    }

    /** The bytes themselves: first what fills the buffer, then whole blocks, then the rest. */
    method AppendBytes(data: seq<Byte>, nbytes: nat, offset: nat)
      requires 0 < nbytes <= |data| && offset == Left() && Absorbed(abcd, buf[..], message)
      modifies this`abcd, buf
      ensures Absorbed(abcd, buf[..], message + data[..nbytes])
    {
      hide Fold, Process, Start;
      ghost var all := message + data[..nbytes];
      var p := 0;
      if offset != 0 {
        var filled;
        p, filled := FillBlock(data, nbytes, offset);
        if !filled {
          return;
        }
      } else {
        assert all[..|message|] == WholePart(message);
      }
      p := AppendBlocks(data, nbytes, p, all);
      if p < nbytes {
        CopyIn(0, data[p..nbytes]);
      }
      assert all[|message| + p..] == data[p..nbytes];
      RestIsLeft(|message| + p, nbytes - p);
    }

    /** Goes on with an incomplete block. */
    method FillBlock(data: seq<Byte>, nbytes: nat, offset: nat) returns (p: nat, filled: bool)
      requires 0 < nbytes <= |data| && offset == Left() > 0 && Absorbed(abcd, buf[..], message)
      modifies this`abcd, buf
      ensures p <= nbytes
      ensures filled ==> (|message| + p) % 64 == 0
      ensures filled ==> abcd == Fold(Start(), (message + data[..nbytes])[..|message| + p])
      ensures !filled ==> Absorbed(abcd, buf[..], message + data[..nbytes])
    {
      hide Fold, Process, Start;
      ghost var all := message + data[..nbytes];
      var copy := if offset + nbytes > 64 then 64 - offset else nbytes;
      CopyIn(offset, data[..copy]);
      p, filled := copy, offset + copy == 64;
      assert all[..|message| - offset] == WholePart(message);
      assert buf[..offset + copy] == RestPart(message) + data[..copy];
      if offset + copy < 64 {
        PartialBlock(message, data[..nbytes]);
      } else {
        assert buf[..] == buf[..64] == all[|message| - offset..|message| + copy];
        NextBlock(all, |message| - offset);
        abcd := ProcessBlock(abcd, buf[..]);
      }
    }

    /** Whole blocks straight from the data. */
    method AppendBlocks(data: seq<Byte>, nbytes: nat, first: nat, ghost all: seq<Byte>) returns (p: nat)
      requires first <= nbytes <= |data| && all == message + data[..nbytes] && (|message| + first) % 64 == 0
      requires abcd == Fold(Start(), all[..|message| + first])
      modifies this`abcd
      ensures first <= p <= nbytes < p + 64 && (|message| + p) % 64 == 0
      ensures abcd == Fold(Start(), all[..|message| + p])
    {
      hide Fold, Process, Start, Counter;
      p := first;
      while nbytes - p >= 64
        invariant first <= p <= nbytes && (|message| + p) % 64 == 0
        invariant abcd == Fold(Start(), all[..|message| + p])
      {
        NextBlock(all, |message| + p);
        BlockOfAll(message, data, nbytes, p);
        abcd := ProcessBlock(abcd, data[p..p + 64]);
        p := p + 64;
      }
    }

    /** The length counter as eight bytes, lowest first. */
    method SaveLength() returns (data: seq<Byte>)
      requires count0 < WORD && count1 < WORD
      ensures data == LowBytes(count0 + WORD * count1, 8)
    {
      hide LowBytes;
      LowBytesSplit(count0, count1);
      data := [];
      var i := 0;
      while i < 8
        invariant 0 <= i <= 8 && data == (LowBytes(count0, 4) + LowBytes(count1, 4))[..i]
      {
        LowBytesAt(if i < 4 then count0 else count1, 4, i % 4);
        data := data + [(if i / 4 == 0 then count0 else count1) / Pow256(i % 4) % 256];
        i := i + 1;
      }
    }

    /** Pads the message, appends its length and gives the digest. */
    method Finish() returns (digest: seq<Byte>)
      requires Valid()
      modifies this, buf
      ensures digest == Digest(old(message))
    {
      hide Fold, LowBytes, Counter, Start, PadLength;
      ghost var m := message;
      var data := SaveLength();
      OffsetIsLeft(|m|, count0, count1);
      var pad := [0x80] + Zeros(63);
      var length := (55 - count0 / 8) % WORD % 64 + 1;
      PadIsComputed(|m|, count0 / 8);
      Append(pad, length);
      assert pad[..length] == [0x80] + Zeros(length - 1);
      PaddingFits(m);
      Append(data, 8);
      assert message == Padded(m);
      assert WholePart(message) == message;
      digest := RegBytes(abcd);
    }
  }

  lemma RestIsLeft(whole: nat, rest: nat)
    requires whole % 64 == 0 && rest < 64
    ensures (whole + rest) % 64 == rest
  {
  }

  lemma BlockOfAll(message: seq<Byte>, data: seq<Byte>, nbytes: nat, p: nat)
    requires p + 64 <= nbytes <= |data|
    ensures var all := message + data[..nbytes];
      data[p..p + 64] == all[|message| + p..|message| + p + 64]
  {
  }

  lemma NextBlock(all: seq<Byte>, q: nat)
    requires q % 64 == 0 && q + 64 <= |all|
    ensures Fold(Start(), all[..q + 64]) == Process(Fold(Start(), all[..q]), all[q..q + 64])
  {
    hide Fold, Process, Start;
    FoldBlock(Start(), all[..q], all[q..q + 64]);
    assert all[..q + 64] == all[..q] + all[q..q + 64];
  }

  lemma OffsetIsLeft(n: nat, c0: nat, c1: nat)
    requires c0 < WORD && c0 + WORD * c1 == Counter(n)
    ensures c0 / 8 % 64 == n % 64
  {
    var q := 8 * n / LENGTHS;
    var blocks := 0x80_0000 * c1 + 0x80_0000_0000_0000 * q;
    assert c0 == 8 * (n - 64 * blocks);
    assert c0 / 8 == n - 64 * blocks;
    assert n == 64 * blocks + c0 / 8;
  }

  lemma LengthGrows(n: nat, k: nat)
    ensures (Counter(n) + 8 * k) % LENGTHS == Counter(n + k)
  {
  }

  /** What stays in the buffer when no block gets full. */
  lemma PartialBlock(message: seq<Byte>, data: seq<Byte>)
    requires |message| % 64 + |data| < 64
    ensures var all := message + data;
      && |all| % 64 == |message| % 64 + |data|
      && WholePart(all) == WholePart(message) && RestPart(all) == RestPart(message) + data
  {
    RestIsLeft(|message| - |message| % 64, |message| % 64 + |data|);
  }

  lemma PadIsComputed(n: nat, x: nat)
    requires x % 64 == n % 64
    ensures (55 - x) % WORD % 64 + 1 == PadLength(n)
  {
    WordModulo(55 - x);
    var k := x / 64 - n / 64;
    assert x == 64 * (x / 64) + x % 64 && n == 64 * (n / 64) + n % 64;
    assert 55 - x + 64 * k == 55 - n;
    ShiftModulo(55 - x, k);
  }

  lemma WordModulo(y: int)
    ensures y % WORD % 64 == y % 64
  {
    assert y % WORD == y - WORD * (y / WORD);
    ShiftModulo(y, -0x400_0000 * (y / WORD));
  }

  lemma ShiftModulo(y: int, k: int)
    ensures (y + 64 * k) % 64 == y % 64
  {
  }

  lemma {:induction false} LowBytesAt(u: nat, n: nat, k: nat)
    requires k < n
    ensures LowBytes(u, n)[k] == u / Pow256(k) % 256
    decreases k
  {
    if k > 0 {
      LowBytesAt(u / 256, n - 1, k - 1);
      DivideTwice(u, 256, Pow256(k - 1));
    }
  }

  lemma {:induction false} LowBytesSplit(c0: nat, c1: nat)
    requires c0 < WORD
    ensures LowBytes(c0 + WORD * c1, 8) == LowBytes(c0, 4) + LowBytes(c1, 4)
  {
    assert Pow256(4) == WORD;
    LowBytesJoin(c0, c1, 4, 4);
  }

  lemma {:induction false} LowBytesJoin(low: nat, high: nat, m: nat, n: nat)
    requires low < Pow256(m)
    ensures LowBytes(low + Pow256(m) * high, m + n) == LowBytes(low, m) + LowBytes(high, n)
    decreases m
  {
    if m > 0 {
      var rest := Pow256(m - 1) * high;
      assert Pow256(m) * high == 256 * rest;
      assert (low + 256 * rest) % 256 == low % 256 && (low + 256 * rest) / 256 == low / 256 + rest;
      LowBytesJoin(low / 256, high, m - 1, n);
    }
  }

  // ----- Results -----

  /** Whatever pieces a message was appended in, the state is the same. */
  lemma SplitDoesNotMatter(s: State, t: State)
    requires s.Valid() && t.Valid() && s.message == t.message
    ensures s.count0 == t.count0 && s.count1 == t.count1 && s.abcd == t.abcd
    ensures s.Left() == t.Left() && s.buf[..s.Left()] == t.buf[..t.Left()]
  {
    hide Fold, Counter, Start;
  }

  function Concat(pieces: seq<seq<Byte>>): seq<Byte>
    decreases |pieces|
  {
    if pieces == [] then [] else pieces[0] + Concat(pieces[1..])
  }

  /** The digest of a message given in pieces. */
  method HashPieces(pieces: seq<seq<Byte>>) returns (digest: seq<Byte>)
    requires forall k :: 0 <= k < |pieces| ==> |pieces[k]| + 64 < INT_LIMIT
    ensures digest == Digest(Concat(pieces))
  {
    hide Digest, Fold, Counter, Start;
    var state := new State();
    var k := 0;
    assert pieces[0..] == pieces;
    while k < |pieces|
      invariant 0 <= k <= |pieces| && state.Valid() && fresh(state) && fresh(state.buf)
      invariant state.message + Concat(pieces[k..]) == Concat(pieces)
    {
      assert pieces[k..][0] == pieces[k] && pieces[k..][1..] == pieces[k + 1..];
      state.Append(pieces[k], |pieces[k]|);
      k := k + 1;
    }
    assert state.message == Concat(pieces);
    digest := state.Finish();
  }

  /** The part of the data that a length cut to a signed 32-bit integer lets through. */
  function Hashed(data: seq<Byte>): seq<Byte> {
    var n := ToInt32(|data|);
    if n > 0 then data[..n] else []
  }

  /** The one-call form, which takes a size_t but appends an int. */
  method Md5(data: seq<Byte>) returns (digest: seq<Byte>)
    ensures digest == Digest(Hashed(data))
  {
    hide Digest, Fold, Counter, Start, ToInt32;
    ToInt32Fits(|data|);
    var state := new State();
    state.Append(data, ToInt32(|data|));
    assert state.message == Hashed(data);
    digest := state.Finish();
  }

  /** It hashes all of its data exactly when there is less than 2^31 bytes of it; of more it hashes as many
      bytes from the start as the cut length says, or none where that is negative. */
  lemma HashesAllIff(data: seq<Byte>)
    ensures var cut := |data| % 0x1_0000_0000;
      Hashed(data) == if cut < 0x8000_0000 then data[..cut] else []
    ensures Hashed(data) == data <==> |data| < 0x8000_0000
  {
  }
}
