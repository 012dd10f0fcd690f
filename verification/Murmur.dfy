/** MurmurHash3_x86_128: the in-place code against a fold over zero-padded blocks. */
module Murmur {
  type Word = bv32

  const C1: Word := 0x239b961b
  const C2: Word := 0xab0e9789
  const C3: Word := 0x38b34ae5
  const C4: Word := 0xa1e38b93

  datatype State = State(h1: Word, h2: Word, h3: Word, h4: Word)

  // uint32_t arithmetic
  function Add(a: Word, b: Word): Word { a + b }
  function Mul(a: Word, b: Word): Word { a * b }
  function Xor(a: Word, b: Word): Word { a ^ b }

  function Rotl(x: Word, r: Word): Word
    requires 0 < r < 32
  {
    (x << r) | (x >> (32 - r))
  }

  // The steps of fmix32
  function Fold16(h: Word): Word { h ^ (h >> 16) }
  function Fold13(h: Word): Word { h ^ (h >> 13) }
  function Times1(h: Word): Word { h * 0x85ebca6b }
  function Times2(h: Word): Word { h * 0xc2b2ae35 }

  function FMix(h: Word): Word {
    Fold16(Times2(Fold13(Times1(Fold16(h)))))
  }

  /** Four bytes as a little-endian word. */
  function LittleEndian(b0: bv8, b1: bv8, b2: bv8, b3: bv8): Word {
    (b0 as Word) | ((b1 as Word) << 8) | ((b2 as Word) << 16) | ((b3 as Word) << 24)
  }

  // ----- The reference definition -----

  /** The data, followed by as many zero bytes as needed. */
  function Padded(data: seq<bv8>, i: nat): bv8 {
    if i < |data| then data[i] else 0
  }

  /** Word number i of the padded data. */
  function WordAt(data: seq<bv8>, i: nat): Word {
    LittleEndian(Padded(data, 4 * i), Padded(data, 4 * i + 1), Padded(data, 4 * i + 2), Padded(data, 4 * i + 3))
  }

  function Scramble1(k: Word): Word { Mul(Rotl(Mul(k, C1), 15), C2) }
  function Scramble2(k: Word): Word { Mul(Rotl(Mul(k, C2), 16), C3) }
  function Scramble3(k: Word): Word { Mul(Rotl(Mul(k, C3), 17), C4) }
  function Scramble4(k: Word): Word { Mul(Rotl(Mul(k, C4), 18), C1) }

  function Block(s: State, k1: Word, k2: Word, k3: Word, k4: Word): State {
    var h1 := Add(Mul(Add(Rotl(Xor(s.h1, Scramble1(k1)), 19), s.h2), 5), 0x561ccd1b);
    var h2 := Add(Mul(Add(Rotl(Xor(s.h2, Scramble2(k2)), 17), s.h3), 5), 0x0bcaa747);
    var h3 := Add(Mul(Add(Rotl(Xor(s.h3, Scramble3(k3)), 15), s.h4), 5), 0x96cd1c35);
    var h4 := Add(Mul(Add(Rotl(Xor(s.h4, Scramble4(k4)), 13), h1), 5), 0x32ac3b17);
    State(h1, h2, h3, h4)
  }

  /** The first n blocks of 16 bytes, from left to right. */
  function Body(data: seq<bv8>, n: nat, seed: Word): State {
    if n == 0 then State(seed, seed, seed, seed)
    else
      var w := 4 * (n - 1);
      Block(Body(data, n - 1, seed), WordAt(data, w), WordAt(data, w + 1), WordAt(data, w + 2), WordAt(data, w + 3))
  }

  /** Scrambles a word of the tail into its lane. */
  function Tail1(h: Word, k: Word): Word { Xor(h, Scramble1(k)) }
  function Tail2(h: Word, k: Word): Word { Xor(h, Scramble2(k)) }
  function Tail3(h: Word, k: Word): Word { Xor(h, Scramble3(k)) }
  function Tail4(h: Word, k: Word): Word { Xor(h, Scramble4(k)) }

  /** The words from w on, which the zero padding completes. */
  function Tail(s: State, data: seq<bv8>, w: nat): State {
    State(Tail1(s.h1, WordAt(data, w)), Tail2(s.h2, WordAt(data, w + 1)),
          Tail3(s.h3, WordAt(data, w + 2)), Tail4(s.h4, WordAt(data, w + 3)))
  }

  /** The length as a uint32_t. */
  function Length(data: seq<bv8>): Word {
    (|data| % 0x1_0000_0000) as Word
  }

  function Spread(s: State): State {
    var h1 := Add(Add(Add(s.h1, s.h2), s.h3), s.h4);
    State(h1, Add(s.h2, h1), Add(s.h3, h1), Add(s.h4, h1))
  }

  function Finish(s: State, len: Word): State {
    var a := Spread(State(Xor(s.h1, len), Xor(s.h2, len), Xor(s.h3, len), Xor(s.h4, len)));
    Spread(State(FMix(a.h1), FMix(a.h2), FMix(a.h3), FMix(a.h4)))
  }

  /** The hash of some data: all blocks of 16 bytes, the zero-padded rest, and the length. */
  function Hash(data: seq<bv8>, seed: Word): State {
    var n := |data| / 16;
    Finish(Tail(Body(data, n, seed), data, 4 * n), Length(data))
  }

  // ----- What rotation and final mixing do -----

  function BitOf(x: Word, i: Word): Word
    requires i < 32
  {
    (x >> i) & 1
  }

  lemma BitUp(x: Word, r: Word, i: Word)
    requires 0 < r < 32 && i < 32 - r
    ensures (((x << r) | (x >> (32 - r))) >> (i + r)) & 1 == (x >> i) & 1
  {
  }

  lemma BitAround(x: Word, r: Word, j: Word)
    requires 0 < r < 32 && j < r
    ensures (((x << r) | (x >> (32 - r))) >> j) & 1 == (x >> (j + (32 - r))) & 1
  {
  }

  /** Rotation to the left by r takes bit i to bit i + r, or around the end to bit i + r - 32. */
  lemma RotlBits(x: Word, r: Word, i: Word)
    requires 0 < r < 32 && i < 32
    ensures i < 32 - r ==> BitOf(Rotl(x, r), i + r) == BitOf(x, i)
    ensures i >= 32 - r ==> BitOf(Rotl(x, r), i - (32 - r)) == BitOf(x, i)
  {
    if i < 32 - r {
      BitUp(x, r, i);
    } else {
      BitAround(x, r, i - (32 - r));
    }
  }

  function Unfold13(h: Word): Word { (h ^ (h >> 13)) ^ (h >> 26) }
  function Untimes1(h: Word): Word { h * 0xa5cb9243 }
  function Untimes2(h: Word): Word { h * 0x7ed1b41d }

  /** The inverse of the final mixing. */
  function UnFMix(h: Word): Word {
    Fold16(Untimes1(Unfold13(Untimes2(Fold16(h)))))
  }

  /** Each step has an inverse: both factors are odd. */
  lemma StepInverses(x: Word)
    ensures Untimes1(x * 0x85ebca6b) == x && Times1(x * 0xa5cb9243) == x
    ensures Untimes2(x * 0xc2b2ae35) == x && Times2(x * 0x7ed1b41d) == x
    ensures Fold16(x ^ (x >> 16)) == x
    ensures Unfold13(x ^ (x >> 13)) == x && Fold13((x ^ (x >> 13)) ^ (x >> 26)) == x
  {
  }

  lemma StepsBack(x: Word)
    ensures Untimes1(Times1(x)) == x && Times1(Untimes1(x)) == x
    ensures Untimes2(Times2(x)) == x && Times2(Untimes2(x)) == x
    ensures Fold16(Fold16(x)) == x && Unfold13(Fold13(x)) == x && Fold13(Unfold13(x)) == x
  {
    StepInverses(x);
  }

  /** No two words are mixed into the same one, and every word comes out. */
  lemma FMixBijective(h: Word)
    ensures UnFMix(FMix(h)) == h && FMix(UnFMix(h)) == h
  {
    hide Fold16, Fold13, Times1, Times2, Unfold13, Untimes1, Untimes2;
    var a, b := Times1(Fold16(h)), Untimes2(Fold16(h));
    StepsBack(h);
    StepsBack(Fold16(h));
    StepsBack(a);
    StepsBack(Fold13(a));
    StepsBack(Times2(Fold13(a)));
    StepsBack(b);
    StepsBack(Unfold13(b));
    StepsBack(Untimes1(Unfold13(b)));
  }

  // ----- Known hashes -----

  const FIRST: seq<bv8> := [1, 2, 3, 4, 5, 6, 7, 8, 9, 10, 11, 12, 13, 14, 15, 16]
  const SECOND: seq<bv8> := [17, 18, 19, 20, 21, 22, 23, 24, 25, 26, 27, 28, 29, 30, 31, 32]
  const REST: seq<bv8> := [33, 34, 35, 36, 37, 38, 39, 40, 41, 42, 43, 44, 45, 46, 47]

  /** The bytes 1 to 47: two whole blocks, and a tail that lacks one byte. */
  const SAMPLE: seq<bv8> := FIRST + SECOND + REST

  lemma FirstBytes()
    ensures |FIRST| == 16
    ensures FIRST[0] == 1 && FIRST[1] == 2 && FIRST[2] == 3 && FIRST[3] == 4
    ensures FIRST[4] == 5 && FIRST[5] == 6 && FIRST[6] == 7 && FIRST[7] == 8
    ensures FIRST[8] == 9 && FIRST[9] == 10 && FIRST[10] == 11 && FIRST[11] == 12
    ensures FIRST[12] == 13 && FIRST[13] == 14 && FIRST[14] == 15 && FIRST[15] == 16
  {
  }

  lemma SecondBytes()
    ensures |SECOND| == 16
    ensures SECOND[0] == 17 && SECOND[1] == 18 && SECOND[2] == 19 && SECOND[3] == 20
    ensures SECOND[4] == 21 && SECOND[5] == 22 && SECOND[6] == 23 && SECOND[7] == 24
    ensures SECOND[8] == 25 && SECOND[9] == 26 && SECOND[10] == 27 && SECOND[11] == 28
    ensures SECOND[12] == 29 && SECOND[13] == 30 && SECOND[14] == 31 && SECOND[15] == 32
  {
  }

  lemma RestBytes()
    ensures |REST| == 15
    ensures REST[0] == 33 && REST[1] == 34 && REST[2] == 35 && REST[3] == 36
    ensures REST[4] == 37 && REST[5] == 38 && REST[6] == 39 && REST[7] == 40
    ensures REST[8] == 41 && REST[9] == 42 && REST[10] == 43 && REST[11] == 44
    ensures REST[12] == 45 && REST[13] == 46 && REST[14] == 47
  {
  }

  lemma SampleWords()
    ensures WordAt(SAMPLE, 0) == 0x04030201 && WordAt(SAMPLE, 1) == 0x08070605
    ensures WordAt(SAMPLE, 2) == 0x0c0b0a09 && WordAt(SAMPLE, 3) == 0x100f0e0d
    ensures WordAt(SAMPLE, 4) == 0x14131211 && WordAt(SAMPLE, 5) == 0x18171615
    ensures WordAt(SAMPLE, 6) == 0x1c1b1a19 && WordAt(SAMPLE, 7) == 0x201f1e1d
    ensures WordAt(SAMPLE, 8) == 0x24232221 && WordAt(SAMPLE, 9) == 0x28272625
    ensures WordAt(SAMPLE, 10) == 0x2c2b2a29 && WordAt(SAMPLE, 11) == 0x002f2e2d
  {
    hide FIRST, SECOND, REST;
    FirstBytes();
    SecondBytes();
    RestBytes();
  }

  lemma SampleBlocks()
    ensures Block(State(0x0000002a, 0x0000002a, 0x0000002a, 0x0000002a), 0x04030201, 0x08070605, 0x0c0b0a09, 0x100f0e0d)
         == State(0xc534cc2b, 0x7bb28a28, 0x78cd420c, 0x662a6409)
    ensures Block(State(0xc534cc2b, 0x7bb28a28, 0x78cd420c, 0x662a6409), 0x14131211, 0x18171615, 0x1c1b1a19, 0x201f1e1d)
         == State(0x89904b55, 0x5cfcc792, 0xdbc2f03e, 0xf1881722)
  {
  }

  lemma SampleTail()
    ensures Tail1(0x89904b55, 0x24232221) == 0xaf855bda && Tail2(0x5cfcc792, 0x28272625) == 0x3d7cecaf
    ensures Tail3(0xdbc2f03e, 0x2c2b2a29) == 0xa0e43803 && Tail4(0xf1881722, 0x002f2e2d) == 0x639cfe33
  {
  }

  lemma SampleFinish(s: State)
    requires s == State(0xaf855bda, 0x3d7cecaf, 0xa0e43803, 0x639cfe33)
    ensures Finish(s, 47) == State(0x239cae8c, 0x31713daa, 0x2235f25d, 0xc9377469)
  {
  }

  lemma SampleBody()
    ensures |SAMPLE| == 47 && Body(SAMPLE, 2, 42) == State(0x89904b55, 0x5cfcc792, 0xdbc2f03e, 0xf1881722)
  {
    hide FIRST, SECOND, REST, Block, WordAt, LittleEndian;
    FirstBytes();
    SecondBytes();
    RestBytes();
    SampleWords();
    SampleBlocks();
    assert Body(SAMPLE, 0, 42) == State(0x0000002a, 0x0000002a, 0x0000002a, 0x0000002a);
    assert Body(SAMPLE, 1, 42) == State(0xc534cc2b, 0x7bb28a28, 0x78cd420c, 0x662a6409);
  }

  /** The hash of the sample with seed 42. */
  lemma HashOfSample()
    ensures Hash(SAMPLE, 42) == State(0x239cae8c, 0x31713daa, 0x2235f25d, 0xc9377469)
  {
    hide SAMPLE, Body, Block, Finish, WordAt, LittleEndian, Tail1, Tail2, Tail3, Tail4;
    SampleBody();
    SampleWords();
    SampleTail();
    SampleFinish(State(0xaf855bda, 0x3d7cecaf, 0xa0e43803, 0x639cfe33));
  }

  lemma FinishOfA(s: State)
    requires s == State(0xd02e1241, 0x00000000, 0x00000000, 0x00000000)
    ensures Finish(s, 1) == State(0xa794933c, 0x5556b01b, 0x5556b01b, 0x5556b01b)
  {
  }

  lemma TailOfA()
    ensures LittleEndian(0x61, 0, 0, 0) == 0x61 && LittleEndian(0, 0, 0, 0) == 0
    ensures Tail1(0, 0x61) == 0xd02e1241 && Tail2(0, 0) == Tail3(0, 0) == Tail4(0, 0) == 0
  {
  }

  /** The hash of "a" with seed 0. */
  lemma HashOfA(data: seq<bv8>)
    requires data == [0x61]
    ensures Hash(data, 0) == State(0xa794933c, 0x5556b01b, 0x5556b01b, 0x5556b01b)
  {
    hide Block, Finish, LittleEndian, Tail1, Tail2, Tail3, Tail4;
    TailOfA();
    FinishOfA(State(0xd02e1241, 0x00000000, 0x00000000, 0x00000000));
    assert WordAt(data, 0) == 0x61 && WordAt(data, 1) == WordAt(data, 2) == WordAt(data, 3) == 0;
    assert Body(data, 0, 0) == State(0, 0, 0, 0);
  }

  // ----- The tail switch -----

  /** A byte of the tail, shifted into place. */
  function Shifted(b: bv8, r: nat): Word
    requires r < 32
  {
    (b as Word) << r
  }

  /** What the case of one byte does to the word it is part of. */
  function Case(k: Word, b: bv8, r: nat): Word
    requires r < 32
  {
    k ^ Shifted(b, r)
  }

  /** The cases of the four bytes of a word make it up, in little-endian order. */
  lemma CasesMakeWord(b0: bv8, b1: bv8, b2: bv8, b3: bv8)
    ensures Case(Case(Case(Case(0, b3, 24), b2, 16), b1, 8), b0, 0) == LittleEndian(b0, b1, b2, b3)
  {
  }

  /** Skipping the case of a byte is treating it as zero. */
  lemma SkippedCase(k: Word, r: nat)
    requires r < 32
    ensures Case(k, 0, r) == k
  {
    assert (0 as bv8) as Word == 0;
    assert (0 as Word) << r == 0;
  }

  lemma ScrambledZeroes()
    ensures Scramble1(0) == 0 && Scramble2(0) == 0 && Scramble3(0) == 0 && Scramble4(0) == 0
  {
  }

  lemma XorZero(h: Word)
    ensures Xor(h, 0) == h
  {
  }

  lemma ZeroWord()
    ensures LittleEndian(0, 0, 0, 0) == 0
  {
  }

  /** A word without any byte left leaves its lane alone. */
  lemma SkippedWord(h: Word, k: Word)
    requires k == LittleEndian(0, 0, 0, 0)
    ensures Tail1(h, k) == Tail2(h, k) == Tail3(h, k) == Tail4(h, k) == h
  {
    hide Xor, Scramble1, Scramble2, Scramble3, Scramble4, LittleEndian;
    ZeroWord();
    ScrambledZeroes();
    XorZero(h);
  }

  lemma FreeWord(data: seq<bv8>, w: nat)
    requires 4 * w >= |data|
    ensures WordAt(data, w) == LittleEndian(0, 0, 0, 0)
  {
  }

  /** The cases of a word of which `count` bytes, at `at`, are left. */
  method TailWord(data: array<bv8>, at: nat, count: nat, ghost w: nat) returns (k: Word)
    requires at == 4 * w && at + count == data.Length
    ensures k == WordAt(data[..], w)
  {
    hide Case, LittleEndian;
    ghost var b0, b1, b2, b3 :=
      Padded(data[..], at), Padded(data[..], at + 1), Padded(data[..], at + 2), Padded(data[..], at + 3);
    k := 0;
    SkippedCase(k, 24);
    if count >= 4 {
      k := Case(k, data[at + 3], 24);
    }
    ghost var k3 := k;
    assert k3 == Case(0, b3, 24);
    SkippedCase(k, 16);
    if count >= 3 {
      k := Case(k, data[at + 2], 16);
    }
    ghost var k2 := k;
    assert k2 == Case(k3, b2, 16);
    SkippedCase(k, 8);
    if count >= 2 {
      k := Case(k, data[at + 1], 8);
    }
    ghost var k1 := k;
    assert k1 == Case(k2, b1, 8);
    SkippedCase(k, 0);
    if count >= 1 {
      k := Case(k, data[at], 0);
    }
    assert k == Case(k1, b0, 0);
    CasesMakeWord(b0, b1, b2, b3);
  }

  /** getblock32: word i of what starts at byte `from`, which is word w of the data. */
  method GetBlock(data: array<bv8>, from: nat, i: int, ghost w: nat) returns (k: Word)
    requires from == 4 * w && 0 <= w + i && 4 * (w + i) + 4 <= data.Length
    ensures k == WordAt(data[..], w + i)
  {
    hide LittleEndian;
    var p := from + 4 * i;
    k := LittleEndian(data[p], data[p + 1], data[p + 2], data[p + 3]);
  }

  /** The switch over the last bytes, in order of its cases: a word is scrambled in only when
      it has a byte left. */
  method TailSwitch(data: array<bv8>, tail: nat, s: State, ghost w: nat) returns (r: State)
    requires tail == 4 * w && tail <= data.Length < tail + 16
    ensures r == Tail(s, data[..], w)
  {
    hide Tail1, Tail2, Tail3, Tail4, LittleEndian, WordAt;
    var h1, h2, h3, h4 := s.h1, s.h2, s.h3, s.h4;
    var rem := data.Length - tail;
    if rem >= 13 {
      var k4 := TailWord(data, tail + 12, rem - 12, w + 3);
      h4 := Tail4(h4, k4);
    } else {
      FreeWord(data[..], w + 3);
      SkippedWord(h4, WordAt(data[..], w + 3));
    }
    if rem >= 9 {
      var k3 := TailWord(data, tail + 8, rem - 8, w + 2);
      h3 := Tail3(h3, k3);
    } else {
      FreeWord(data[..], w + 2);
      SkippedWord(h3, WordAt(data[..], w + 2));
    }
    if rem >= 5 {
      var k2 := TailWord(data, tail + 4, rem - 4, w + 1);
      h2 := Tail2(h2, k2);
    } else {
      FreeWord(data[..], w + 1);
      SkippedWord(h2, WordAt(data[..], w + 1));
    }
    if rem >= 1 {
      var k1 := TailWord(data, tail, rem, w);
      h1 := Tail1(h1, k1);
    } else {
      FreeWord(data[..], w);
      SkippedWord(h1, WordAt(data[..], w));
    }
    r := State(h1, h2, h3, h4);
  }

  /** The body of the block loop, in place. */
  method MixBlock(s: State, b1: Word, b2: Word, b3: Word, b4: Word) returns (r: State)
    ensures r == Block(s, b1, b2, b3, b4)
  {
    hide Rotl, Add, Mul, Xor;
    var h1, h2, h3, h4 := s.h1, s.h2, s.h3, s.h4;
    var k1, k2, k3, k4 := b1, b2, b3, b4;
    k1 := Mul(k1, C1); k1 := Rotl(k1, 15); k1 := Mul(k1, C2); h1 := Xor(h1, k1);
    h1 := Rotl(h1, 19); h1 := Add(h1, h2); h1 := Add(Mul(h1, 5), 0x561ccd1b);
    k2 := Mul(k2, C2); k2 := Rotl(k2, 16); k2 := Mul(k2, C3); h2 := Xor(h2, k2);
    h2 := Rotl(h2, 17); h2 := Add(h2, h3); h2 := Add(Mul(h2, 5), 0x0bcaa747);
    k3 := Mul(k3, C3); k3 := Rotl(k3, 17); k3 := Mul(k3, C4); h3 := Xor(h3, k3);
    h3 := Rotl(h3, 15); h3 := Add(h3, h4); h3 := Add(Mul(h3, 5), 0x96cd1c35);
    k4 := Mul(k4, C4); k4 := Rotl(k4, 18); k4 := Mul(k4, C1); h4 := Xor(h4, k4);
    h4 := Rotl(h4, 13); h4 := Add(h4, h1); h4 := Add(Mul(h4, 5), 0x32ac3b17);
    r := State(h1, h2, h3, h4);
  }

  /** MurmurHash3_x86_128. The block loop counts from minus the number of blocks up to zero,
      backwards from the end of the last whole block. */
  method MurmurHash3(data: array<bv8>, seed: Word) returns (out: State)
    ensures out == Hash(data[..], seed)
    ensures var n := data.Length / 16;
      out == Finish(Tail(Body(data[..], n, seed), data[..], 4 * n), (data.Length % 0x1_0000_0000) as Word)
  {
    hide Block, Finish, LittleEndian, WordAt, Tail;
    var nblocks := data.Length / 16;
    var blocks := nblocks * 16;
    var s := State(seed, seed, seed, seed);
    var i := -nblocks;
    while i != 0
      invariant -nblocks <= i <= 0
      invariant s == Body(data[..], nblocks + i, seed)
      decreases -i
    {
      var k1 := GetBlock(data, blocks, i * 4, 4 * nblocks);
      var k2 := GetBlock(data, blocks, i * 4 + 1, 4 * nblocks);
      var k3 := GetBlock(data, blocks, i * 4 + 2, 4 * nblocks);
      var k4 := GetBlock(data, blocks, i * 4 + 3, 4 * nblocks);
      s := MixBlock(s, k1, k2, k3, k4);
      i := i + 1;
    }
    s := TailSwitch(data, blocks, s, 4 * nblocks);
    out := Finalize(s, (data.Length % 0x1_0000_0000) as Word);
  }

  /** The finalization, in place. */
  method Finalize(s: State, len: Word) returns (out: State)
    ensures out == Finish(s, len)
  {
    hide FMix, Add, Xor;
    var h1, h2, h3, h4 := Xor(s.h1, len), Xor(s.h2, len), Xor(s.h3, len), Xor(s.h4, len);
    h1 := Add(h1, h2); h1 := Add(h1, h3); h1 := Add(h1, h4);
    h2 := Add(h2, h1); h3 := Add(h3, h1); h4 := Add(h4, h1);
    h1 := FMix(h1);
    h2 := FMix(h2);
    h3 := FMix(h3);
    h4 := FMix(h4);
    h1 := Add(h1, h2); h1 := Add(h1, h3); h1 := Add(h1, h4);
    h2 := Add(h2, h1); h3 := Add(h3, h1); h4 := Add(h4, h1);
    out := State(h1, h2, h3, h4);
  }
}
