/** The MD5 block function of RFC 1321, section 3.4: sixty-four steps on four registers. */
module MD5Block {
  import opened BitStreams

  /** A 32-bit word; addition wraps around. */
  datatype Word = Word(bits: bv32) {
    function Plus(w: Word): Word { Word(bits + w.bits) }
  }

  datatype Regs = Regs(a: Word, b: Word, c: Word, d: Word) {
    function Plus(r: Regs): Regs { Regs(a.Plus(r.a), b.Plus(r.b), c.Plus(r.c), d.Plus(r.d)) }
  }

  /** The step constants of the four rounds, T[1] to T[64]. */
  const T_ROUND1: seq<Word> :=
      [Word(0xd76aa478), Word(0xe8c7b756), Word(0x242070db), Word(0xc1bdceee)]
    + [Word(0xf57c0faf), Word(0x4787c62a), Word(0xa8304613), Word(0xfd469501)]
    + [Word(0x698098d8), Word(0x8b44f7af), Word(0xffff5bb1), Word(0x895cd7be)]
    + [Word(0x6b901122), Word(0xfd987193), Word(0xa679438e), Word(0x49b40821)]

  const T_ROUND2: seq<Word> :=
      [Word(0xf61e2562), Word(0xc040b340), Word(0x265e5a51), Word(0xe9b6c7aa)]
    + [Word(0xd62f105d), Word(0x02441453), Word(0xd8a1e681), Word(0xe7d3fbc8)]
    + [Word(0x21e1cde6), Word(0xc33707d6), Word(0xf4d50d87), Word(0x455a14ed)]
    + [Word(0xa9e3e905), Word(0xfcefa3f8), Word(0x676f02d9), Word(0x8d2a4c8a)]

  const T_ROUND3: seq<Word> :=
      [Word(0xfffa3942), Word(0x8771f681), Word(0x6d9d6122), Word(0xfde5380c)]
    + [Word(0xa4beea44), Word(0x4bdecfa9), Word(0xf6bb4b60), Word(0xbebfbc70)]
    + [Word(0x289b7ec6), Word(0xeaa127fa), Word(0xd4ef3085), Word(0x04881d05)]
    + [Word(0xd9d4d039), Word(0xe6db99e5), Word(0x1fa27cf8), Word(0xc4ac5665)]

  const T_ROUND4: seq<Word> :=
      [Word(0xf4292244), Word(0x432aff97), Word(0xab9423a7), Word(0xfc93a039)]
    + [Word(0x655b59c3), Word(0x8f0ccc92), Word(0xffeff47d), Word(0x85845dd1)]
    + [Word(0x6fa87e4f), Word(0xfe2ce6e0), Word(0xa3014314), Word(0x4e0811a1)]
    + [Word(0xf7537e82), Word(0xbd3af235), Word(0x2ad7d2bb), Word(0xeb86d391)]

  const T: seq<Word> := T_ROUND1 + T_ROUND2 + T_ROUND3 + T_ROUND4

  lemma SixtyFourConstants()
    ensures |T| == 64
  {
  }

  function RotateLeft(x: Word, n: bv32): Word
    requires n <= 32
  {
    Word((x.bits << n) | (x.bits >> (32 - n)))
  }

  function F(x: Word, y: Word, z: Word): Word { Word((x.bits & y.bits) | (!x.bits & z.bits)) }

  function G(x: Word, y: Word, z: Word): Word { Word((x.bits & z.bits) | (y.bits & !z.bits)) }

  function H(x: Word, y: Word, z: Word): Word { Word(x.bits ^ y.bits ^ z.bits) }

  function I(x: Word, y: Word, z: Word): Word { Word(y.bits ^ (x.bits | !z.bits)) }

  // ----- What they mean, bit by bit -----

  predicate Bit(w: bv32, k: bv32)
    requires k < 32
  {
    (w >> k) & 1 == 1
  }

  /** F takes y where x is set and z elsewhere. */
  lemma FChooses(x: Word, y: Word, z: Word, k: bv32)
    requires k < 32
    ensures Bit(F(x, y, z).bits, k) == if Bit(x.bits, k) then Bit(y.bits, k) else Bit(z.bits, k)
  {
  }

  /** G takes x where z is set and y elsewhere. */
  lemma GChooses(x: Word, y: Word, z: Word, k: bv32)
    requires k < 32
    ensures Bit(G(x, y, z).bits, k) == if Bit(z.bits, k) then Bit(x.bits, k) else Bit(y.bits, k)
  {
  }

  /** H is the parity of its three. */
  lemma HIsParity(x: Word, y: Word, z: Word, k: bv32)
    requires k < 32
    ensures Bit(H(x, y, z).bits, k) == if Bit(x.bits, k) == Bit(y.bits, k) then Bit(z.bits, k) else !Bit(z.bits, k)
  {
  }

  /** I flips y where x is set or z is not. */
  lemma IFlips(x: Word, y: Word, z: Word, k: bv32)
    requires k < 32
    ensures Bit(I(x, y, z).bits, k) == if Bit(x.bits, k) || !Bit(z.bits, k) then !Bit(y.bits, k) else Bit(y.bits, k)
  {
  }

  lemma RisingBit(x: Word, n: bv32, k: bv32)
    requires n <= 32 && k < 32 - n
    ensures Bit(RotateLeft(x, n).bits, k + n) == Bit(x.bits, k)
  {
  }

  lemma WrappedBit(x: Word, n: bv32, k: bv32)
    requires n <= 32 && 32 - n <= k < 32
    ensures Bit(RotateLeft(x, n).bits, k - (32 - n)) == Bit(x.bits, k)
  {
  }

  /** Rotation carries each bit n places up, and those at the end round it. */
  lemma RotatedBit(x: Word, n: bv32, k: bv32)
    requires n <= 32 && k < 32
    ensures Bit(RotateLeft(x, n).bits, if k < 32 - n then k + n else k - (32 - n)) == Bit(x.bits, k)
  {
    hide Bit, RotateLeft;
    if k < 32 - n {
      RisingBit(x, n, k);
    } else {
      WrappedBit(x, n, k);
    }
  }

  /** One operation of a round: f is the round's function of b, c and d. */
  function Set(f: Word, a: Word, b: Word, x: Word, s: bv32, t: Word): Word
    requires s <= 32
  {
    RotateLeft(a.Plus(f).Plus(x).Plus(t), s).Plus(b)
  }

  // ----- The schedule -----

  function Mix(round: nat, x: Word, y: Word, z: Word): Word {
    if round == 0 then F(x, y, z)
    else if round == 1 then G(x, y, z)
    else if round == 2 then H(x, y, z)
    else I(x, y, z)
  }

  /** Which word of the block step i takes. */
  function WordIndex(i: nat): (k: nat)
    ensures k < 16
  {
    if i < 16 then i
    else if i < 32 then (1 + 5 * i) % 16
    else if i < 48 then (5 + 3 * i) % 16
    else 7 * i % 16
  }

  /** How far step i rotates. */
  function Shift(i: nat): (s: bv32)
    ensures s <= 32
  {
    if i < 16 then OneOf(i % 4, 7, 12, 17, 22)
    else if i < 32 then OneOf(i % 4, 5, 9, 14, 20)
    else if i < 48 then OneOf(i % 4, 4, 11, 16, 23)
    else OneOf(i % 4, 6, 10, 15, 21)
  }

  function OneOf(i: nat, s0: bv32, s1: bv32, s2: bv32, s3: bv32): bv32 {
    if i == 0 then s0 else if i == 1 then s1 else if i == 2 then s2 else s3
  }

  /** One step, after which the registers change their roles. */
  function Step(i: nat, r: Regs, X: seq<Word>): Regs
    requires i < 64 && |X| == 16
  {
    SixtyFourConstants();
    Regs(r.d, Set(Mix(i / 16, r.b, r.c, r.d), r.a, r.b, X[WordIndex(i)], Shift(i), T[i]), r.b, r.c)
  }

  function Steps(n: nat, r: Regs, X: seq<Word>): Regs
    requires n <= 64 && |X| == 16
    decreases n
  {
    if n == 0 then r else Step(n - 1, Steps(n - 1, r, X), X)
  }

  /** The sixteen words of a block, low byte first. */
  function Words(block: seq<Byte>): (X: seq<Word>)
    requires |block| == 64
    ensures |X| == 16
  {
    seq(16, i requires 0 <= i < 16 => WordAt(block, i))
  }

  function ByteBits(n: Byte): bv8 {
    n as bv8
  }

  function Joined(b0: bv8, b1: bv8, b2: bv8, b3: bv8): bv32 {
    b0 as bv32 + (b1 as bv32 << 8) + (b2 as bv32 << 16) + (b3 as bv32 << 24)
  }

  function WordAt(block: seq<Byte>, i: nat): Word
    requires |block| == 64 && i < 16
  {
    Word(Joined(ByteBits(block[4 * i]), ByteBits(block[4 * i + 1]), ByteBits(block[4 * i + 2]), ByteBits(block[4 * i + 3])))
  }

  /** The whole block function: the registers after all steps added to those before. */
  function Process(r: Regs, block: seq<Byte>): Regs
    requires |block| == 64
  {
    r.Plus(Steps(64, r, Words(block)))
  }

  lemma NoSteps(r: Regs, X: seq<Word>)
    requires |X| == 16
    ensures Steps(0, r, X) == r
  {
  }

  /** Four steps bring every register back to its role. */
  lemma FourSteps(n: nat, r: Regs, X: seq<Word>)
    requires n + 4 <= 64 && |X| == 16
    ensures Steps(n + 4, r, X) == Step(n + 3, Step(n + 2, Step(n + 1, Step(n, Steps(n, r, X), X), X), X), X)
  {
    hide Step;
    assert Steps(n + 1, r, X) == Step(n, Steps(n, r, X), X);
    assert Steps(n + 2, r, X) == Step(n + 1, Steps(n + 1, r, X), X);
    assert Steps(n + 3, r, X) == Step(n + 2, Steps(n + 2, r, X), X);
  }

  lemma Schedule1()
    ensures forall x, y, z :: Mix(0, x, y, z) == F(x, y, z)
    ensures WordIndex(0) == 0 && WordIndex(1) == 1 && WordIndex(2) == 2 && WordIndex(3) == 3
    ensures WordIndex(4) == 4 && WordIndex(5) == 5 && WordIndex(6) == 6 && WordIndex(7) == 7
    ensures WordIndex(8) == 8 && WordIndex(9) == 9 && WordIndex(10) == 10 && WordIndex(11) == 11
    ensures WordIndex(12) == 12 && WordIndex(13) == 13 && WordIndex(14) == 14 && WordIndex(15) == 15
    ensures Shift(0) == 7 && Shift(1) == 12 && Shift(2) == 17 && Shift(3) == 22
    ensures Shift(4) == 7 && Shift(5) == 12 && Shift(6) == 17 && Shift(7) == 22
    ensures Shift(8) == 7 && Shift(9) == 12 && Shift(10) == 17 && Shift(11) == 22
    ensures Shift(12) == 7 && Shift(13) == 12 && Shift(14) == 17 && Shift(15) == 22
  {
  }

  lemma Schedule2()
    ensures forall x, y, z :: Mix(1, x, y, z) == G(x, y, z)
    ensures WordIndex(16) == 1 && WordIndex(17) == 6 && WordIndex(18) == 11 && WordIndex(19) == 0
    ensures WordIndex(20) == 5 && WordIndex(21) == 10 && WordIndex(22) == 15 && WordIndex(23) == 4
    ensures WordIndex(24) == 9 && WordIndex(25) == 14 && WordIndex(26) == 3 && WordIndex(27) == 8
    ensures WordIndex(28) == 13 && WordIndex(29) == 2 && WordIndex(30) == 7 && WordIndex(31) == 12
    ensures Shift(16) == 5 && Shift(17) == 9 && Shift(18) == 14 && Shift(19) == 20
    ensures Shift(20) == 5 && Shift(21) == 9 && Shift(22) == 14 && Shift(23) == 20
    ensures Shift(24) == 5 && Shift(25) == 9 && Shift(26) == 14 && Shift(27) == 20
    ensures Shift(28) == 5 && Shift(29) == 9 && Shift(30) == 14 && Shift(31) == 20
  {
  }

  lemma Schedule3()
    ensures forall x, y, z :: Mix(2, x, y, z) == H(x, y, z)
    ensures WordIndex(32) == 5 && WordIndex(33) == 8 && WordIndex(34) == 11 && WordIndex(35) == 14
    ensures WordIndex(36) == 1 && WordIndex(37) == 4 && WordIndex(38) == 7 && WordIndex(39) == 10
    ensures WordIndex(40) == 13 && WordIndex(41) == 0 && WordIndex(42) == 3 && WordIndex(43) == 6
    ensures WordIndex(44) == 9 && WordIndex(45) == 12 && WordIndex(46) == 15 && WordIndex(47) == 2
    ensures Shift(32) == 4 && Shift(33) == 11 && Shift(34) == 16 && Shift(35) == 23
    ensures Shift(36) == 4 && Shift(37) == 11 && Shift(38) == 16 && Shift(39) == 23
    ensures Shift(40) == 4 && Shift(41) == 11 && Shift(42) == 16 && Shift(43) == 23
    ensures Shift(44) == 4 && Shift(45) == 11 && Shift(46) == 16 && Shift(47) == 23
  {
  }

  lemma Schedule4()
    ensures forall x, y, z :: Mix(3, x, y, z) == I(x, y, z)
    ensures WordIndex(48) == 0 && WordIndex(49) == 7 && WordIndex(50) == 14 && WordIndex(51) == 5
    ensures WordIndex(52) == 12 && WordIndex(53) == 3 && WordIndex(54) == 10 && WordIndex(55) == 1
    ensures WordIndex(56) == 8 && WordIndex(57) == 15 && WordIndex(58) == 6 && WordIndex(59) == 13
    ensures WordIndex(60) == 4 && WordIndex(61) == 11 && WordIndex(62) == 2 && WordIndex(63) == 9
    ensures Shift(48) == 6 && Shift(49) == 10 && Shift(50) == 15 && Shift(51) == 21
    ensures Shift(52) == 6 && Shift(53) == 10 && Shift(54) == 15 && Shift(55) == 21
    ensures Shift(56) == 6 && Shift(57) == 10 && Shift(58) == 15 && Shift(59) == 21
    ensures Shift(60) == 6 && Shift(61) == 10 && Shift(62) == 15 && Shift(63) == 21
  {
  }

  /** The operation of step i on registers in their roles. */
  function SetAt(i: nat, a: Word, b: Word, c: Word, d: Word, X: seq<Word>): Word
    requires i < 64 && |X| == 16
  {
    SixtyFourConstants();
    Set(Mix(i / 16, b, c, d), a, b, X[WordIndex(i)], Shift(i), T[i])
  }

  /** Four operations, each on the register that is its turn. */
  lemma FourSets(n: nat, start: Regs, X: seq<Word>, r: Regs, q: Regs)
    requires n + 4 <= 64 && |X| == 16 && r == Steps(n, start, X)
    requires q.a == SetAt(n, r.a, r.b, r.c, r.d, X)
    requires q.d == SetAt(n + 1, r.d, q.a, r.b, r.c, X)
    requires q.c == SetAt(n + 2, r.c, q.d, q.a, r.b, X)
    requires q.b == SetAt(n + 3, r.b, q.c, q.d, q.a, X)
    ensures Steps(n + 4, start, X) == q
  {
    hide Set, Mix, WordIndex, Shift, T;
    FourSteps(n, start, X);
  }

  method Round1(r: Regs, X: seq<Word>, ghost start: Regs) returns (q: Regs)
    requires |X| == 16 && r == Steps(0, start, X)
    ensures q == Steps(16, start, X)
  {
    hide Set, F, G, H, I, T, Steps, Step, Mix, WordIndex, Shift;
    SixtyFourConstants();
    Schedule1();
    var a, b, c, d := r.a, r.b, r.c, r.d;
    a := Set(F(b, c, d), a, b, X[0], 7, T[0]);
    d := Set(F(a, b, c), d, a, X[1], 12, T[1]);
    c := Set(F(d, a, b), c, d, X[2], 17, T[2]);
    b := Set(F(c, d, a), b, c, X[3], 22, T[3]);
    FourSets(0, start, X, r, Regs(a, b, c, d));
    ghost var r1 := Regs(a, b, c, d);
    a := Set(F(b, c, d), a, b, X[4], 7, T[4]);
    d := Set(F(a, b, c), d, a, X[5], 12, T[5]);
    c := Set(F(d, a, b), c, d, X[6], 17, T[6]);
    b := Set(F(c, d, a), b, c, X[7], 22, T[7]);
    FourSets(4, start, X, r1, Regs(a, b, c, d));
    ghost var r2 := Regs(a, b, c, d);
    a := Set(F(b, c, d), a, b, X[8], 7, T[8]);
    d := Set(F(a, b, c), d, a, X[9], 12, T[9]);
    c := Set(F(d, a, b), c, d, X[10], 17, T[10]);
    b := Set(F(c, d, a), b, c, X[11], 22, T[11]);
    FourSets(8, start, X, r2, Regs(a, b, c, d));
    ghost var r3 := Regs(a, b, c, d);
    a := Set(F(b, c, d), a, b, X[12], 7, T[12]);
    d := Set(F(a, b, c), d, a, X[13], 12, T[13]);
    c := Set(F(d, a, b), c, d, X[14], 17, T[14]);
    b := Set(F(c, d, a), b, c, X[15], 22, T[15]);
    FourSets(12, start, X, r3, Regs(a, b, c, d));
    q := Regs(a, b, c, d);
  }

  method Round2(r: Regs, X: seq<Word>, ghost start: Regs) returns (q: Regs)
    requires |X| == 16 && r == Steps(16, start, X)
    ensures q == Steps(32, start, X)
  {
    hide Set, F, G, H, I, T, Steps, Step, Mix, WordIndex, Shift;
    SixtyFourConstants();
    Schedule2();
    var a, b, c, d := r.a, r.b, r.c, r.d;
    a := Set(G(b, c, d), a, b, X[1], 5, T[16]);
    d := Set(G(a, b, c), d, a, X[6], 9, T[17]);
    c := Set(G(d, a, b), c, d, X[11], 14, T[18]);
    b := Set(G(c, d, a), b, c, X[0], 20, T[19]);
    FourSets(16, start, X, r, Regs(a, b, c, d));
    ghost var r1 := Regs(a, b, c, d);
    a := Set(G(b, c, d), a, b, X[5], 5, T[20]);
    d := Set(G(a, b, c), d, a, X[10], 9, T[21]);
    c := Set(G(d, a, b), c, d, X[15], 14, T[22]);
    b := Set(G(c, d, a), b, c, X[4], 20, T[23]);
    FourSets(20, start, X, r1, Regs(a, b, c, d));
    ghost var r2 := Regs(a, b, c, d);
    a := Set(G(b, c, d), a, b, X[9], 5, T[24]);
    d := Set(G(a, b, c), d, a, X[14], 9, T[25]);
    c := Set(G(d, a, b), c, d, X[3], 14, T[26]);
    b := Set(G(c, d, a), b, c, X[8], 20, T[27]);
    FourSets(24, start, X, r2, Regs(a, b, c, d));
    ghost var r3 := Regs(a, b, c, d);
    a := Set(G(b, c, d), a, b, X[13], 5, T[28]);
    d := Set(G(a, b, c), d, a, X[2], 9, T[29]);
    c := Set(G(d, a, b), c, d, X[7], 14, T[30]);
    b := Set(G(c, d, a), b, c, X[12], 20, T[31]);
    FourSets(28, start, X, r3, Regs(a, b, c, d));
    q := Regs(a, b, c, d);
  }

  method Round3(r: Regs, X: seq<Word>, ghost start: Regs) returns (q: Regs)
    requires |X| == 16 && r == Steps(32, start, X)
    ensures q == Steps(48, start, X)
  {
    hide Set, F, G, H, I, T, Steps, Step, Mix, WordIndex, Shift;
    SixtyFourConstants();
    Schedule3();
    var a, b, c, d := r.a, r.b, r.c, r.d;
    a := Set(H(b, c, d), a, b, X[5], 4, T[32]);
    d := Set(H(a, b, c), d, a, X[8], 11, T[33]);
    c := Set(H(d, a, b), c, d, X[11], 16, T[34]);
    b := Set(H(c, d, a), b, c, X[14], 23, T[35]);
    FourSets(32, start, X, r, Regs(a, b, c, d));
    ghost var r1 := Regs(a, b, c, d);
    a := Set(H(b, c, d), a, b, X[1], 4, T[36]);
    d := Set(H(a, b, c), d, a, X[4], 11, T[37]);
    c := Set(H(d, a, b), c, d, X[7], 16, T[38]);
    b := Set(H(c, d, a), b, c, X[10], 23, T[39]);
    FourSets(36, start, X, r1, Regs(a, b, c, d));
    ghost var r2 := Regs(a, b, c, d);
    a := Set(H(b, c, d), a, b, X[13], 4, T[40]);
    d := Set(H(a, b, c), d, a, X[0], 11, T[41]);
    c := Set(H(d, a, b), c, d, X[3], 16, T[42]);
    b := Set(H(c, d, a), b, c, X[6], 23, T[43]);
    FourSets(40, start, X, r2, Regs(a, b, c, d));
    ghost var r3 := Regs(a, b, c, d);
    a := Set(H(b, c, d), a, b, X[9], 4, T[44]);
    d := Set(H(a, b, c), d, a, X[12], 11, T[45]);
    c := Set(H(d, a, b), c, d, X[15], 16, T[46]);
    b := Set(H(c, d, a), b, c, X[2], 23, T[47]);
    FourSets(44, start, X, r3, Regs(a, b, c, d));
    q := Regs(a, b, c, d);
  }

  method Round4(r: Regs, X: seq<Word>, ghost start: Regs) returns (q: Regs)
    requires |X| == 16 && r == Steps(48, start, X)
    ensures q == Steps(64, start, X)
  {
    hide Set, F, G, H, I, T, Steps, Step, Mix, WordIndex, Shift;
    SixtyFourConstants();
    Schedule4();
    var a, b, c, d := r.a, r.b, r.c, r.d;
    a := Set(I(b, c, d), a, b, X[0], 6, T[48]);
    d := Set(I(a, b, c), d, a, X[7], 10, T[49]);
    c := Set(I(d, a, b), c, d, X[14], 15, T[50]);
    b := Set(I(c, d, a), b, c, X[5], 21, T[51]);
    FourSets(48, start, X, r, Regs(a, b, c, d));
    ghost var r1 := Regs(a, b, c, d);
    a := Set(I(b, c, d), a, b, X[12], 6, T[52]);
    d := Set(I(a, b, c), d, a, X[3], 10, T[53]);
    c := Set(I(d, a, b), c, d, X[10], 15, T[54]);
    b := Set(I(c, d, a), b, c, X[1], 21, T[55]);
    FourSets(52, start, X, r1, Regs(a, b, c, d));
    ghost var r2 := Regs(a, b, c, d);
    a := Set(I(b, c, d), a, b, X[8], 6, T[56]);
    d := Set(I(a, b, c), d, a, X[15], 10, T[57]);
    c := Set(I(d, a, b), c, d, X[6], 15, T[58]);
    b := Set(I(c, d, a), b, c, X[13], 21, T[59]);
    FourSets(56, start, X, r2, Regs(a, b, c, d));
    ghost var r3 := Regs(a, b, c, d);
    a := Set(I(b, c, d), a, b, X[4], 6, T[60]);
    d := Set(I(a, b, c), d, a, X[11], 10, T[61]);
    c := Set(I(d, a, b), c, d, X[2], 15, T[62]);
    b := Set(I(c, d, a), b, c, X[9], 21, T[63]);
    FourSets(60, start, X, r3, Regs(a, b, c, d));
    q := Regs(a, b, c, d);
  }

  /** The unrolled block function does the scheduled steps. */
  method ProcessBlock(r: Regs, block: seq<Byte>) returns (q: Regs)
    requires |block| == 64
    ensures q == Process(r, block)
  {
    hide Step, Steps;
    assert r == Steps(0, r, Words(block)) by { NoSteps(r, Words(block)); }
    var X := Words(block);
    var q1 := Round1(r, X, r);
    var q2 := Round2(q1, X, r);
    var q3 := Round3(q2, X, r);
    var q4 := Round4(q3, X, r);
    q := r.Plus(q4);
  }
}
