/** The digest of one message worked out: it is the one that RFC 1321, appendix A.5, lists. */
module MD5Vector {
  import opened BitStreams
  import opened MD5
  import opened MD5Block

  /** The message "abcdefghijklmnopqrstuvwxyz". */
  const LETTERS: seq<Byte> := seq(26, k requires 0 <= k < 26 => 97 + k)

  /** It pads to a single block, which has these words. */
  const X: seq<Word> :=
      [Word(0x64636261), Word(0x68676665), Word(0x6c6b6a69), Word(0x706f6e6d)]
    + [Word(0x74737271), Word(0x78777675), Word(0x00807a79), Word(0x00000000)]
    + [Word(0x00000000), Word(0x00000000), Word(0x00000000), Word(0x00000000)]
    + [Word(0x00000000), Word(0x00000000), Word(0x000000d0), Word(0x00000000)]

  lemma WordsOfX()
    ensures |X| == 16
    ensures X[0] == Word(0x64636261) && X[1] == Word(0x68676665) && X[2] == Word(0x6c6b6a69)
    ensures X[3] == Word(0x706f6e6d) && X[4] == Word(0x74737271) && X[5] == Word(0x78777675)
    ensures X[6] == Word(0x00807a79) && X[7] == Word(0x00000000) && X[8] == Word(0x00000000)
    ensures X[9] == Word(0x00000000) && X[10] == Word(0x00000000) && X[11] == Word(0x00000000)
    ensures X[12] == Word(0x00000000) && X[13] == Word(0x00000000) && X[14] == Word(0x000000d0)
    ensures X[15] == Word(0x00000000)
  {
  }

  lemma Constants1()
    ensures |T| == 64
    ensures T[0] == Word(0xd76aa478) && T[1] == Word(0xe8c7b756) && T[2] == Word(0x242070db)
    ensures T[3] == Word(0xc1bdceee) && T[4] == Word(0xf57c0faf) && T[5] == Word(0x4787c62a)
    ensures T[6] == Word(0xa8304613) && T[7] == Word(0xfd469501) && T[8] == Word(0x698098d8)
    ensures T[9] == Word(0x8b44f7af) && T[10] == Word(0xffff5bb1) && T[11] == Word(0x895cd7be)
    ensures T[12] == Word(0x6b901122) && T[13] == Word(0xfd987193) && T[14] == Word(0xa679438e)
    ensures T[15] == Word(0x49b40821)
  {
  }

  lemma Values1()
    ensures Set(F(Word(0xefcdab89), Word(0x98badcfe), Word(0x10325476)), Word(0x67452301), Word(0xefcdab89),
      Word(0x64636261), 7, Word(0xd76aa478)) == Word(0xd6d117a6)
    ensures Set(F(Word(0xd6d117a6), Word(0xefcdab89), Word(0x98badcfe)), Word(0x10325476), Word(0xd6d117a6),
      Word(0x68676665), 12, Word(0xe8c7b756)) == Word(0xaab1aaaa)
    ensures Set(F(Word(0xaab1aaaa), Word(0xd6d117a6), Word(0xefcdab89)), Word(0x98badcfe), Word(0xaab1aaaa),
      Word(0x6c6b6a69), 17, Word(0x242070db)) == Word(0x227d8cf1)
    ensures Set(F(Word(0x227d8cf1), Word(0xaab1aaaa), Word(0xd6d117a6)), Word(0xefcdab89), Word(0x227d8cf1),
      Word(0x706f6e6d), 22, Word(0xc1bdceee)) == Word(0x4503b812)
    ensures Set(F(Word(0x4503b812), Word(0x227d8cf1), Word(0xaab1aaaa)), Word(0xd6d117a6), Word(0x4503b812),
      Word(0x74737271), 7, Word(0xf57c0faf)) == Word(0xfe15f787)
    ensures Set(F(Word(0xfe15f787), Word(0x4503b812), Word(0x227d8cf1)), Word(0xaab1aaaa), Word(0xfe15f787),
      Word(0x78777675), 12, Word(0x4787c62a)) == Word(0xa811b278)
    ensures Set(F(Word(0xa811b278), Word(0xfe15f787), Word(0x4503b812)), Word(0x227d8cf1), Word(0xa811b278),
      Word(0x00807a79), 17, Word(0xa8304613)) == Word(0xb71122fc)
    ensures Set(F(Word(0xb71122fc), Word(0xa811b278), Word(0xfe15f787)), Word(0x4503b812), Word(0xb71122fc),
      Word(0x00000000), 22, Word(0xfd469501)) == Word(0xda9bbb0d)
    ensures Set(F(Word(0xda9bbb0d), Word(0xb71122fc), Word(0xa811b278)), Word(0xfe15f787), Word(0xda9bbb0d),
      Word(0x00000000), 7, Word(0x698098d8)) == Word(0xae752899)
    ensures Set(F(Word(0xae752899), Word(0xda9bbb0d), Word(0xb71122fc)), Word(0xa811b278), Word(0xae752899),
      Word(0x00000000), 12, Word(0x8b44f7af)) == Word(0x2bbe757f)
    ensures Set(F(Word(0x2bbe757f), Word(0xae752899), Word(0xda9bbb0d)), Word(0xb71122fc), Word(0x2bbe757f),
      Word(0x00000000), 17, Word(0xffff5bb1)) == Word(0x7d4bd80b)
    ensures Set(F(Word(0x7d4bd80b), Word(0x2bbe757f), Word(0xae752899)), Word(0xda9bbb0d), Word(0x7d4bd80b),
      Word(0x00000000), 22, Word(0x895cd7be)) == Word(0x56cfa5cb)
    ensures Set(F(Word(0x56cfa5cb), Word(0x7d4bd80b), Word(0x2bbe757f)), Word(0xae752899), Word(0x56cfa5cb),
      Word(0x00000000), 7, Word(0x6b901122)) == Word(0x1754a316)
    ensures Set(F(Word(0x1754a316), Word(0x56cfa5cb), Word(0x7d4bd80b)), Word(0x2bbe757f), Word(0x1754a316),
      Word(0x00000000), 12, Word(0xfd987193)) == Word(0x85567d90)
    ensures Set(F(Word(0x85567d90), Word(0x1754a316), Word(0x56cfa5cb)), Word(0x7d4bd80b), Word(0x85567d90),
      Word(0x000000d0), 17, Word(0xa679438e)) == Word(0x00df74d5)
    ensures Set(F(Word(0x00df74d5), Word(0x85567d90), Word(0x1754a316)), Word(0x56cfa5cb), Word(0x00df74d5),
      Word(0x00000000), 22, Word(0x49b40821)) == Word(0x608d6b7e)
  {
  }

  lemma LettersRound1(start: Regs)
    requires |X| == 16
    requires Steps(0, start, X) ==
      Regs(Word(0x67452301), Word(0xefcdab89), Word(0x98badcfe), Word(0x10325476))
    ensures Steps(16, start, X) ==
      Regs(Word(0x1754a316), Word(0x608d6b7e), Word(0x00df74d5), Word(0x85567d90))
  {
    hide Set, F, G, H, I, T, Steps, Step, Mix, WordIndex, Shift, X;
    WordsOfX();
    Constants1();
    Schedule1();
    Values1();
    var r1 := Regs(Word(0xd6d117a6), Word(0x4503b812), Word(0x227d8cf1), Word(0xaab1aaaa));
    var r2 := Regs(Word(0xfe15f787), Word(0xda9bbb0d), Word(0xb71122fc), Word(0xa811b278));
    var r3 := Regs(Word(0xae752899), Word(0x56cfa5cb), Word(0x7d4bd80b), Word(0x2bbe757f));
    var r4 := Regs(Word(0x1754a316), Word(0x608d6b7e), Word(0x00df74d5), Word(0x85567d90));
    FourSets(0, start, X, Steps(0, start, X), r1);
    FourSets(4, start, X, r1, r2);
    FourSets(8, start, X, r2, r3);
    FourSets(12, start, X, r3, r4);
  }

  lemma Constants2()
    ensures |T| == 64
    ensures T[16] == Word(0xf61e2562) && T[17] == Word(0xc040b340) && T[18] == Word(0x265e5a51)
    ensures T[19] == Word(0xe9b6c7aa) && T[20] == Word(0xd62f105d) && T[21] == Word(0x02441453)
    ensures T[22] == Word(0xd8a1e681) && T[23] == Word(0xe7d3fbc8) && T[24] == Word(0x21e1cde6)
    ensures T[25] == Word(0xc33707d6) && T[26] == Word(0xf4d50d87) && T[27] == Word(0x455a14ed)
    ensures T[28] == Word(0xa9e3e905) && T[29] == Word(0xfcefa3f8) && T[30] == Word(0x676f02d9)
    ensures T[31] == Word(0x8d2a4c8a)
  {
  }

  lemma Values2()
    ensures Set(G(Word(0x608d6b7e), Word(0x00df74d5), Word(0x85567d90)), Word(0x1754a316), Word(0x608d6b7e),
      Word(0x68676665), 5, Word(0xf61e2562)) == Word(0x2d8071cc)
    ensures Set(G(Word(0x2d8071cc), Word(0x608d6b7e), Word(0x00df74d5)), Word(0x85567d90), Word(0x2d8071cc),
      Word(0x00807a79), 9, Word(0xc040b340)) == Word(0x5dcee119)
    ensures Set(G(Word(0x5dcee119), Word(0x2d8071cc), Word(0x608d6b7e)), Word(0x00df74d5), Word(0x5dcee119),
      Word(0x00000000), 14, Word(0x265e5a51)) == Word(0xedfe7e4b)
    ensures Set(G(Word(0xedfe7e4b), Word(0x5dcee119), Word(0x2d8071cc)), Word(0x608d6b7e), Word(0xedfe7e4b),
      Word(0x64636261), 20, Word(0xe9b6c7aa)) == Word(0x4c2145b3)
    ensures Set(G(Word(0x4c2145b3), Word(0xedfe7e4b), Word(0x5dcee119)), Word(0x2d8071cc), Word(0x4c2145b3),
      Word(0x78777675), 5, Word(0xd62f105d)) == Word(0x570c43e0)
    ensures Set(G(Word(0x570c43e0), Word(0x4c2145b3), Word(0xedfe7e4b)), Word(0x5dcee119), Word(0x570c43e0),
      Word(0x00000000), 9, Word(0x02441453)) == Word(0x977efd2a)
    ensures Set(G(Word(0x977efd2a), Word(0x570c43e0), Word(0x4c2145b3)), Word(0xedfe7e4b), Word(0x977efd2a),
      Word(0x00000000), 14, Word(0xd8a1e681)) == Word(0xc28ab49d)
    ensures Set(G(Word(0xc28ab49d), Word(0x977efd2a), Word(0x570c43e0)), Word(0x4c2145b3), Word(0xc28ab49d),
      Word(0x74737271), 20, Word(0xe7d3fbc8)) == Word(0xc9f162d4)
    ensures Set(G(Word(0xc9f162d4), Word(0xc28ab49d), Word(0x977efd2a)), Word(0x570c43e0), Word(0xc9f162d4),
      Word(0x00000000), 5, Word(0x21e1cde6)) == Word(0x25bfae3b)
    ensures Set(G(Word(0x25bfae3b), Word(0xc9f162d4), Word(0xc28ab49d)), Word(0x977efd2a), Word(0x25bfae3b),
      Word(0x000000d0), 9, Word(0xc33707d6)) == Word(0x89980104)
    ensures Set(G(Word(0x89980104), Word(0x25bfae3b), Word(0xc9f162d4)), Word(0xc28ab49d), Word(0x89980104),
      Word(0x706f6e6d), 14, Word(0xf4d50d87)) == Word(0xf8c8365f)
    ensures Set(G(Word(0xf8c8365f), Word(0x89980104), Word(0x25bfae3b)), Word(0xc9f162d4), Word(0xf8c8365f),
      Word(0x00000000), 20, Word(0x455a14ed)) == Word(0xe6d3b398)
    ensures Set(G(Word(0xe6d3b398), Word(0xf8c8365f), Word(0x89980104)), Word(0x25bfae3b), Word(0xe6d3b398),
      Word(0x00000000), 5, Word(0xa9e3e905)) == Word(0xf54d8710)
    ensures Set(G(Word(0xf54d8710), Word(0xe6d3b398), Word(0xf8c8365f)), Word(0x89980104), Word(0xf54d8710),
      Word(0x6c6b6a69), 9, Word(0xfcefa3f8)) == Word(0x927b72e2)
    ensures Set(G(Word(0x927b72e2), Word(0xf54d8710), Word(0xe6d3b398)), Word(0xf8c8365f), Word(0x927b72e2),
      Word(0x00000000), 14, Word(0x676f02d9)) == Word(0x2e69afc7)
    ensures Set(G(Word(0x2e69afc7), Word(0x927b72e2), Word(0xf54d8710)), Word(0xe6d3b398), Word(0x2e69afc7),
      Word(0x00000000), 20, Word(0x8d2a4c8a)) == Word(0xaeb35766)
  {
  }

  lemma LettersRound2(start: Regs)
    requires |X| == 16
    requires Steps(16, start, X) ==
      Regs(Word(0x1754a316), Word(0x608d6b7e), Word(0x00df74d5), Word(0x85567d90))
    ensures Steps(32, start, X) ==
      Regs(Word(0xf54d8710), Word(0xaeb35766), Word(0x2e69afc7), Word(0x927b72e2))
  {
    hide Set, F, G, H, I, T, Steps, Step, Mix, WordIndex, Shift, X;
    WordsOfX();
    Constants2();
    Schedule2();
    Values2();
    var r1 := Regs(Word(0x2d8071cc), Word(0x4c2145b3), Word(0xedfe7e4b), Word(0x5dcee119));
    var r2 := Regs(Word(0x570c43e0), Word(0xc9f162d4), Word(0xc28ab49d), Word(0x977efd2a));
    var r3 := Regs(Word(0x25bfae3b), Word(0xe6d3b398), Word(0xf8c8365f), Word(0x89980104));
    var r4 := Regs(Word(0xf54d8710), Word(0xaeb35766), Word(0x2e69afc7), Word(0x927b72e2));
    FourSets(16, start, X, Steps(16, start, X), r1);
    FourSets(20, start, X, r1, r2);
    FourSets(24, start, X, r2, r3);
    FourSets(28, start, X, r3, r4);
  }

  lemma Constants3()
    ensures |T| == 64
    ensures T[32] == Word(0xfffa3942) && T[33] == Word(0x8771f681) && T[34] == Word(0x6d9d6122)
    ensures T[35] == Word(0xfde5380c) && T[36] == Word(0xa4beea44) && T[37] == Word(0x4bdecfa9)
    ensures T[38] == Word(0xf6bb4b60) && T[39] == Word(0xbebfbc70) && T[40] == Word(0x289b7ec6)
    ensures T[41] == Word(0xeaa127fa) && T[42] == Word(0xd4ef3085) && T[43] == Word(0x04881d05)
    ensures T[44] == Word(0xd9d4d039) && T[45] == Word(0xe6db99e5) && T[46] == Word(0x1fa27cf8)
    ensures T[47] == Word(0xc4ac5665)
  {
  }

  lemma Values3()
    ensures Set(H(Word(0xaeb35766), Word(0x2e69afc7), Word(0x927b72e2)), Word(0xf54d8710), Word(0xaeb35766),
      Word(0x78777675), 4, Word(0xfffa3942)) == Word(0xb4bf680e)
    ensures Set(H(Word(0xb4bf680e), Word(0xaeb35766), Word(0x2e69afc7)), Word(0x927b72e2), Word(0xb4bf680e),
      Word(0x00000000), 11, Word(0x8771f681)) == Word(0x4c8ffa80)
    ensures Set(H(Word(0x4c8ffa80), Word(0xb4bf680e), Word(0xaeb35766)), Word(0x2e69afc7), Word(0x4c8ffa80),
      Word(0x00000000), 16, Word(0x6d9d6122)) == Word(0x2361ed0a)
    ensures Set(H(Word(0x2361ed0a), Word(0x4c8ffa80), Word(0xb4bf680e)), Word(0xaeb35766), Word(0x2361ed0a),
      Word(0x000000d0), 23, Word(0xfde5380c)) == Word(0x06a5e211)
    ensures Set(H(Word(0x06a5e211), Word(0x2361ed0a), Word(0x4c8ffa80)), Word(0xb4bf680e), Word(0x06a5e211),
      Word(0x68676665), 4, Word(0xa4beea44)) == Word(0xb9c0c733)
    ensures Set(H(Word(0xb9c0c733), Word(0x06a5e211), Word(0x2361ed0a)), Word(0x4c8ffa80), Word(0xb9c0c733),
      Word(0x74737271), 11, Word(0x4bdecfa9)) == Word(0xf1e6dc7a)
    ensures Set(H(Word(0xf1e6dc7a), Word(0xb9c0c733), Word(0x06a5e211)), Word(0x2361ed0a), Word(0xf1e6dc7a),
      Word(0x00000000), 16, Word(0xf6bb4b60)) == Word(0x23a9451b)
    ensures Set(H(Word(0x23a9451b), Word(0xf1e6dc7a), Word(0xb9c0c733)), Word(0x06a5e211), Word(0x23a9451b),
      Word(0x00000000), 23, Word(0xbebfbc70)) == Word(0x8d41bf99)
    ensures Set(H(Word(0x8d41bf99), Word(0x23a9451b), Word(0xf1e6dc7a)), Word(0xb9c0c733), Word(0x8d41bf99),
      Word(0x00000000), 4, Word(0x289b7ec6)) == Word(0xa3e88ead)
    ensures Set(H(Word(0xa3e88ead), Word(0x8d41bf99), Word(0x23a9451b)), Word(0xf1e6dc7a), Word(0xa3e88ead),
      Word(0x64636261), 11, Word(0xeaa127fa)) == Word(0x02c0b11c)
    ensures Set(H(Word(0x02c0b11c), Word(0xa3e88ead), Word(0x8d41bf99)), Word(0x23a9451b), Word(0x02c0b11c),
      Word(0x706f6e6d), 16, Word(0xd4ef3085)) == Word(0x66f6468d)
    ensures Set(H(Word(0x66f6468d), Word(0x02c0b11c), Word(0xa3e88ead)), Word(0x8d41bf99), Word(0x66f6468d),
      Word(0x00807a79), 23, Word(0x04881d05)) == Word(0x90a35af5)
    ensures Set(H(Word(0x90a35af5), Word(0x66f6468d), Word(0x02c0b11c)), Word(0xa3e88ead), Word(0x90a35af5),
      Word(0x00000000), 4, Word(0xd9d4d039)) == Word(0xb5d41f9c)
    ensures Set(H(Word(0xb5d41f9c), Word(0x90a35af5), Word(0x66f6468d)), Word(0x02c0b11c), Word(0xb5d41f9c),
      Word(0x00000000), 11, Word(0xe6db99e5)) == Word(0xa04b4904)
    ensures Set(H(Word(0xa04b4904), Word(0xb5d41f9c), Word(0x90a35af5)), Word(0x66f6468d), Word(0xa04b4904),
      Word(0x00000000), 16, Word(0x1fa27cf8)) == Word(0x703d54d8)
    ensures Set(H(Word(0x703d54d8), Word(0xa04b4904), Word(0xb5d41f9c)), Word(0x90a35af5), Word(0x703d54d8),
      Word(0x6c6b6a69), 23, Word(0xc4ac5665)) == Word(0x71d10367)
  {
  }

  lemma LettersRound3(start: Regs)
    requires |X| == 16
    requires Steps(32, start, X) ==
      Regs(Word(0xf54d8710), Word(0xaeb35766), Word(0x2e69afc7), Word(0x927b72e2))
    ensures Steps(48, start, X) ==
      Regs(Word(0xb5d41f9c), Word(0x71d10367), Word(0x703d54d8), Word(0xa04b4904))
  {
    hide Set, F, G, H, I, T, Steps, Step, Mix, WordIndex, Shift, X;
    WordsOfX();
    Constants3();
    Schedule3();
    Values3();
    var r1 := Regs(Word(0xb4bf680e), Word(0x06a5e211), Word(0x2361ed0a), Word(0x4c8ffa80));
    var r2 := Regs(Word(0xb9c0c733), Word(0x8d41bf99), Word(0x23a9451b), Word(0xf1e6dc7a));
    var r3 := Regs(Word(0xa3e88ead), Word(0x90a35af5), Word(0x66f6468d), Word(0x02c0b11c));
    var r4 := Regs(Word(0xb5d41f9c), Word(0x71d10367), Word(0x703d54d8), Word(0xa04b4904));
    FourSets(32, start, X, Steps(32, start, X), r1);
    FourSets(36, start, X, r1, r2);
    FourSets(40, start, X, r2, r3);
    FourSets(44, start, X, r3, r4);
  }

  lemma Constants4()
    ensures |T| == 64
    ensures T[48] == Word(0xf4292244) && T[49] == Word(0x432aff97) && T[50] == Word(0xab9423a7)
    ensures T[51] == Word(0xfc93a039) && T[52] == Word(0x655b59c3) && T[53] == Word(0x8f0ccc92)
    ensures T[54] == Word(0xffeff47d) && T[55] == Word(0x85845dd1) && T[56] == Word(0x6fa87e4f)
    ensures T[57] == Word(0xfe2ce6e0) && T[58] == Word(0xa3014314) && T[59] == Word(0x4e0811a1)
    ensures T[60] == Word(0xf7537e82) && T[61] == Word(0xbd3af235) && T[62] == Word(0x2ad7d2bb)
    ensures T[63] == Word(0xeb86d391)
  {
  }

  lemma Values4()
    ensures Set(I(Word(0x71d10367), Word(0x703d54d8), Word(0xa04b4904)), Word(0xb5d41f9c), Word(0x71d10367),
      Word(0x64636261), 6, Word(0xf4292244)) == Word(0xfc32dd6e)
    ensures Set(I(Word(0xfc32dd6e), Word(0x71d10367), Word(0x703d54d8)), Word(0xa04b4904), Word(0xfc32dd6e),
      Word(0x00000000), 10, Word(0x432aff97)) == Word(0x65456b34)
    ensures Set(I(Word(0x65456b34), Word(0xfc32dd6e), Word(0x71d10367)), Word(0x703d54d8), Word(0x65456b34),
      Word(0x000000d0), 15, Word(0xab9423a7)) == Word(0xb35602cb)
    ensures Set(I(Word(0xb35602cb), Word(0x65456b34), Word(0xfc32dd6e)), Word(0x71d10367), Word(0xb35602cb),
      Word(0x78777675), 21, Word(0xfc93a039)) == Word(0x33edb197)
    ensures Set(I(Word(0x33edb197), Word(0xb35602cb), Word(0x65456b34)), Word(0xfc32dd6e), Word(0x33edb197),
      Word(0x00000000), 6, Word(0x655b59c3)) == Word(0xc1e942f1)
    ensures Set(I(Word(0xc1e942f1), Word(0x33edb197), Word(0xb35602cb)), Word(0x65456b34), Word(0xc1e942f1),
      Word(0x706f6e6d), 10, Word(0x8f0ccc92)) == Word(0xd9bb987c)
    ensures Set(I(Word(0xd9bb987c), Word(0xc1e942f1), Word(0x33edb197)), Word(0xb35602cb), Word(0xd9bb987c),
      Word(0x00000000), 15, Word(0xffeff47d)) == Word(0x23a68048)
    ensures Set(I(Word(0x23a68048), Word(0xd9bb987c), Word(0xc1e942f1)), Word(0x33edb197), Word(0x23a68048),
      Word(0x68676665), 21, Word(0x85845dd1)) == Word(0x83877d1b)
    ensures Set(I(Word(0x83877d1b), Word(0x23a68048), Word(0xd9bb987c)), Word(0xc1e942f1), Word(0x83877d1b),
      Word(0x00000000), 6, Word(0x6fa87e4f)) == Word(0x0077c208)
    ensures Set(I(Word(0x0077c208), Word(0x83877d1b), Word(0x23a68048)), Word(0xd9bb987c), Word(0x0077c208),
      Word(0x00000000), 10, Word(0xfe2ce6e0)) == Word(0x847fc2e7)
    ensures Set(I(Word(0x847fc2e7), Word(0x0077c208), Word(0x83877d1b)), Word(0x23a68048), Word(0x847fc2e7),
      Word(0x00807a79), 15, Word(0xa3014314)) == Word(0xa3e2247f)
    ensures Set(I(Word(0xa3e2247f), Word(0x847fc2e7), Word(0x0077c208)), Word(0x83877d1b), Word(0xa3e2247f),
      Word(0x00000000), 21, Word(0x4e0811a1)) == Word(0x5e6bc930)
    ensures Set(I(Word(0x5e6bc930), Word(0xa3e2247f), Word(0x847fc2e7)), Word(0x0077c208), Word(0x5e6bc930),
      Word(0x74737271), 6, Word(0xf7537e82)) == Word(0x708ed9c2)
    ensures Set(I(Word(0x708ed9c2), Word(0x5e6bc930), Word(0xa3e2247f)), Word(0x847fc2e7), Word(0x708ed9c2),
      Word(0x00000000), 10, Word(0xbd3af235)) == Word(0x2baf1354)
    ensures Set(I(Word(0x2baf1354), Word(0x708ed9c2), Word(0x5e6bc930)), Word(0xa3e2247f), Word(0x2baf1354),
      Word(0x6c6b6a69), 15, Word(0x2ad7d2bb)) == Word(0xd38f1e7f)
    ensures Set(I(Word(0xd38f1e7f), Word(0x2baf1354), Word(0x708ed9c2)), Word(0x5e6bc930), Word(0xd38f1e7f),
      Word(0x00000000), 21, Word(0xeb86d391)) == Word(0x1116e6d8)
  {
  }

  lemma LettersRound4(start: Regs)
    requires |X| == 16
    requires Steps(48, start, X) ==
      Regs(Word(0xb5d41f9c), Word(0x71d10367), Word(0x703d54d8), Word(0xa04b4904))
    ensures Steps(64, start, X) ==
      Regs(Word(0x708ed9c2), Word(0x1116e6d8), Word(0xd38f1e7f), Word(0x2baf1354))
  {
    hide Set, F, G, H, I, T, Steps, Step, Mix, WordIndex, Shift, X;
    WordsOfX();
    Constants4();
    Schedule4();
    Values4();
    var r1 := Regs(Word(0xfc32dd6e), Word(0x33edb197), Word(0xb35602cb), Word(0x65456b34));
    var r2 := Regs(Word(0xc1e942f1), Word(0x83877d1b), Word(0x23a68048), Word(0xd9bb987c));
    var r3 := Regs(Word(0x0077c208), Word(0x5e6bc930), Word(0xa3e2247f), Word(0x847fc2e7));
    var r4 := Regs(Word(0x708ed9c2), Word(0x1116e6d8), Word(0xd38f1e7f), Word(0x2baf1354));
    FourSets(48, start, X, Steps(48, start, X), r1);
    FourSets(52, start, X, r1, r2);
    FourSets(56, start, X, r2, r3);
    FourSets(60, start, X, r3, r4);
  }

  /** The only block: the letters, a one bit, zeros, and 208 as the length in bits. */
  lemma PaddedLetters()
    ensures |Padded(LETTERS)| == 64
    ensures forall k :: 0 <= k < 64 ==>
      (Padded(LETTERS)[k] == if k < 26 then 97 + k else if k == 26 then 0x80 else if k == 56 then 208 else 0)
  {
    hide LowBytes;
    assert PadLength(26) == 30 && Counter(26) == 208;
    LengthBytes();
    assert Padded(LETTERS) == LETTERS + [0x80] + Zeros(29) + ([208] + Zeros(7));
  }

  lemma {:induction false} NoBytes(n: nat)
    ensures LowBytes(0, n) == Zeros(n)
  {
    if n > 0 {
      NoBytes(n - 1);
    }
  }

  lemma LengthBytes()
    ensures LowBytes(208, 8) == [208] + Zeros(7)
  {
    NoBytes(7);
  }

  lemma LetterBytes()
    ensures ByteBits(0) == 0
    ensures ByteBits(97) == 97
    ensures ByteBits(98) == 98
    ensures ByteBits(99) == 99
    ensures ByteBits(100) == 100
    ensures ByteBits(101) == 101
    ensures ByteBits(102) == 102
    ensures ByteBits(103) == 103
    ensures ByteBits(104) == 104
    ensures ByteBits(105) == 105
    ensures ByteBits(106) == 106
    ensures ByteBits(107) == 107
    ensures ByteBits(108) == 108
    ensures ByteBits(109) == 109
    ensures ByteBits(110) == 110
    ensures ByteBits(111) == 111
    ensures ByteBits(112) == 112
    ensures ByteBits(113) == 113
    ensures ByteBits(114) == 114
    ensures ByteBits(115) == 115
    ensures ByteBits(116) == 116
    ensures ByteBits(117) == 117
    ensures ByteBits(118) == 118
    ensures ByteBits(119) == 119
    ensures ByteBits(120) == 120
    ensures ByteBits(121) == 121
    ensures ByteBits(122) == 122
    ensures ByteBits(128) == 128
    ensures ByteBits(208) == 208
  {
  }

  lemma WordsOfLetters()
    ensures |Padded(LETTERS)| == 64 && Words(Padded(LETTERS)) == X
  {
    hide Padded, ByteBits, Joined, X;
    PaddedLetters();
    WordsOfX();
    LetterBytes();
    JoinedLetters();
  }

  lemma JoinedLetters()
    ensures Joined(97, 98, 99, 100) == 0x64636261
    ensures Joined(101, 102, 103, 104) == 0x68676665
    ensures Joined(105, 106, 107, 108) == 0x6c6b6a69
    ensures Joined(109, 110, 111, 112) == 0x706f6e6d
    ensures Joined(113, 114, 115, 116) == 0x74737271
    ensures Joined(117, 118, 119, 120) == 0x78777675
    ensures Joined(121, 122, 128, 0) == 0x00807a79
    ensures Joined(0, 0, 0, 0) == 0x00000000
    ensures Joined(208, 0, 0, 0) == 0x000000d0
  {
  }

  lemma LetterSteps()
    ensures |X| == 16 && Process(Start(), Padded(LETTERS)) ==
      Regs(Word(0xd7d3fcc3), Word(0x00e49261), Word(0x6c49fb7d), Word(0x3be167ca))
  {
    hide Steps, X, Padded;
    WordsOfLetters();
    NoSteps(Start(), X);
    LettersRound1(Start());
    LettersRound2(Start());
    LettersRound3(Start());
    LettersRound4(Start());
  }

  lemma DigestBytes()
    ensures RegBytes(Regs(Word(0xd7d3fcc3), Word(0x00e49261), Word(0x6c49fb7d), Word(0x3be167ca))) == [
      0xc3, 0xfc, 0xd3, 0xd7, 0x61, 0x92, 0xe4, 0x00, 0x7d, 0xfb, 0x49, 0x6c, 0xca, 0x67, 0xe1, 0x3b]
  {
  }

  /** Its digest is c3fcd3d76192e4007dfb496cca67e13b. */
  lemma LettersDigest()
    ensures Digest(LETTERS) == [
      0xc3, 0xfc, 0xd3, 0xd7, 0x61, 0x92, 0xe4, 0x00, 0x7d, 0xfb, 0x49, 0x6c, 0xca, 0x67, 0xe1, 0x3b]
  {
    hide Process, RegBytes, Padded;
    PaddedLetters();
    LetterSteps();
    DigestBytes();
    FoldBlock(Start(), [], Padded(LETTERS));
    assert [] + Padded(LETTERS) == Padded(LETTERS);
  }
}
