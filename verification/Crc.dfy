/** The ST 292 line CRC-18, the carrier words it travels in, and the ST 291
  * ancillary checksum.
  *
  * `crc18Bitwise` is the reference; the table-driven `crc18` and `crc18Strided`
  * are proved equal to it, and the code is shown to detect every error confined
  * to one word of a line.
  */
module Crc {
  import opened Wrappers
  import opened Gf2

  const POLY: nat := 0x31
  const REG_SIZE: nat := 0x40000    // the register holds values below this
  const TOP_BIT: nat := 0x20000

  // ---------------------------------------------------------------------------
  // The shift register
  // ---------------------------------------------------------------------------

  /** One step of the register: `bit` enters, the top bit decides the feedback. */
  function BitStep(crc: nat, bit: nat): nat {
    var top := crc / TOP_BIT % 2;
    var shifted := crc * 2 % REG_SIZE;
    if bit != top then Xor(shifted, POLY) else shifted
  }

  /** The lowest `n` bits of `word`, fed least significant first. */
  function FeedBits(crc: nat, word: nat, n: nat): nat {
    if n == 0 then crc else BitStep(FeedBits(crc, word, n - 1), Bit(word, n - 1))
  }

  function WordStep(crc: nat, word: nat): nat {
    FeedBits(crc, word % 1024, 10)
  }

  /** The register after a run of words: the meaning of a line's CRC. */
  function Crc18(words: seq<Word>, crc: nat): nat {
    if words == [] then crc
    else WordStep(Crc18(words[..|words| - 1], crc), words[|words| - 1])
  }

  // ---------------------------------------------------------------------------
  // The register is linear over GF(2), and each step is a bijection
  // ---------------------------------------------------------------------------

  /** A step with nothing coming in. */
  function Spin(crc: nat): nat {
    BitStep(crc, 0)
  }

  function Spins(crc: nat, n: nat): nat {
    if n == 0 then crc else Spin(Spins(crc, n - 1))
  }

  lemma Powers()
    ensures Pow2(8) == 256 && Pow2(10) == 1024 && Pow2(17) == TOP_BIT && Pow2(18) == REG_SIZE
  {
    assert Pow2(4) == 16;
    assert Pow2(8) == 256;
    assert Pow2(12) == 4096;
    assert Pow2(16) == 65536;
  }

  lemma BitStepRange(crc: nat, bit: nat)
    ensures BitStep(crc, bit) < REG_SIZE
  {
    Powers();
    XorBound(crc * 2 % REG_SIZE, POLY, 18);
  }

  lemma {:induction false} SpinsRange(crc: nat, n: nat)
    requires crc < REG_SIZE
    ensures Spins(crc, n) < REG_SIZE
  {
    if n > 0 { BitStepRange(Spins(crc, n - 1), 0); }
  }

  // A register is its top bit and the seventeen below it.
  lemma SpinOf(t: nat, x: nat)
    requires t <= 1 && x < TOP_BIT
    ensures Spin(t * TOP_BIT + x) == if t == 1 then Xor(2 * x, POLY) else 2 * x
  {}

  lemma SpinLinear(a: nat, b: nat)
    requires a < REG_SIZE && b < REG_SIZE
    ensures Spin(Xor(a, b)) == Xor(Spin(a), Spin(b))
  {
    hide Xor, Pow2, Spin;
    var s, x, t, y := a / TOP_BIT, a % TOP_BIT, b / TOP_BIT, b % TOP_BIT;
    Powers();
    XorSplit(s, t, x, y, 17);
    XorBound(x, y, 17);
    XorOfBits(s, t);
    SpinOf(s, x);
    SpinOf(t, y);
    SpinOf(Xor(s, t), Xor(x, y));
    XorDouble(x, y);
    SpinFeedback(s, t, 2 * x, 2 * y);
  }

  // The feedback part of the previous lemma, on the four top-bit pairs.
  lemma SpinFeedback(s: nat, t: nat, x: nat, y: nat)
    requires s <= 1 && t <= 1
    ensures Xor(if s == 1 then Xor(x, POLY) else x, if t == 1 then Xor(y, POLY) else y)
            == if s != t then Xor(Xor(x, y), POLY) else Xor(x, y)
  {
    hide Xor;
    XorAssoc(x, y, POLY);
    XorSwap(x, POLY, y, POLY);
    XorSelf(POLY);
    XorAssoc(x, POLY, y);
    XorComm(POLY, y);
    XorZero(Xor(x, y));
  }

  lemma XorOfBits(s: nat, t: nat)
    requires s <= 1 && t <= 1
    ensures Xor(s, t) == if s == t then 0 else 1
  {}

  lemma XorZero(a: nat)
    ensures Xor(a, 0) == a && Xor(0, a) == a
  {}

  lemma {:induction false} SpinsLinear(a: nat, b: nat, n: nat)
    requires a < REG_SIZE && b < REG_SIZE
    ensures Spins(Xor(a, b), n) == Xor(Spins(a, n), Spins(b, n))
  {
    hide Xor, Spin;
    if n > 0 {
      SpinsLinear(a, b, n - 1);
      SpinsRange(a, n - 1);
      SpinsRange(b, n - 1);
      SpinLinear(Spins(a, n - 1), Spins(b, n - 1));
    }
  }

  lemma SpinInjective(a: nat, b: nat)
    requires a < REG_SIZE && b < REG_SIZE && Spin(a) == Spin(b)
    ensures a == b
  {
    var s, x, t, y := a / TOP_BIT, a % TOP_BIT, b / TOP_BIT, b % TOP_BIT;
    SpinOf(s, x);
    SpinOf(t, y);
    hide Xor, Spin;
    SameFeedback(s, x, t, y);
  }

  // The polynomial is odd, so the lowest bit that comes out is the top bit.
  lemma SameFeedback(s: nat, x: nat, t: nat, y: nat)
    requires s <= 1 && t <= 1
    requires (if s == 1 then Xor(2 * x, POLY) else 2 * x) == (if t == 1 then Xor(2 * y, POLY) else 2 * y)
    ensures s == t && x == y
  {
    hide Xor;
    OddFeedback(x);
    OddFeedback(y);
    assert s == t;
    if s == 1 { XorCancel(2 * x, 2 * y, POLY); }
  }

  lemma OddFeedback(x: nat)
    ensures Xor(2 * x, POLY) % 2 == 1
  {
    hide Xor;
    XorStep(2 * x, POLY);
  }

  /** The state a step came from. */
  function Unspin(crc: nat): nat {
    if crc % 2 == 1 then TOP_BIT + Xor(crc, POLY) / 2 else crc / 2
  }

  /** Every state is reached by a step, and from one state only: a step is a bijection. */
  lemma SpinOnto(crc: nat)
    requires crc < REG_SIZE
    ensures Unspin(crc) < REG_SIZE && Spin(Unspin(crc)) == crc
  {
    hide Xor, Spin;
    if crc % 2 == 1 {
      var x := Xor(crc, POLY);
      XorStep(crc, POLY);
      RegXor(crc, POLY);
      assert x % 2 == 0;
      SpinOf(1, x / 2);
      XorAssoc(crc, POLY, POLY);
      XorSelf(POLY);
      XorZero(crc);
    } else {
      SpinOf(0, crc / 2);
    }
  }

  lemma {:induction false} SpinsInjective(a: nat, b: nat, n: nat)
    requires a < REG_SIZE && b < REG_SIZE && Spins(a, n) == Spins(b, n)
    ensures a == b
  {
    hide Spin;
    if n > 0 {
      SpinsRange(a, n - 1);
      SpinsRange(b, n - 1);
      SpinInjective(Spins(a, n - 1), Spins(b, n - 1));
      SpinsInjective(a, b, n - 1);
    }
  }

  // A value that stays clear of the top bit is only shifted.
  lemma {:induction false} SpinsShift(a: nat, n: nat, k: nat)
    requires n <= k <= 18 && a < Pow2(18 - k)
    ensures Spins(a, n) == a * Pow2(n) && a * Pow2(n) < Pow2(18 - k + n)
  {
    if n > 0 {
      SpinsShift(a, n - 1, k);
      Doubled(a, Pow2(n - 1));
      PowMonotone(18 - k + n - 1, 17);
      Powers();
      SpinOf(0, a * Pow2(n - 1));
    }
  }

  lemma {:induction false} PowMonotone(j: nat, k: nat)
    requires j <= k
    ensures Pow2(j) <= Pow2(k)
  {
    if j < k { PowMonotone(j, k - 1); }
  }

  // A bit that enters meets the feedback exactly as if it had been added at the top.
  lemma BitStepIsSpin(crc: nat, bit: nat)
    requires crc < REG_SIZE && bit <= 1
    ensures Xor(crc, bit * TOP_BIT) < REG_SIZE
    ensures BitStep(crc, bit) == Spin(Xor(crc, bit * TOP_BIT))
  {
    hide Xor, Pow2, Spin;
    var t, x := crc / TOP_BIT, crc % TOP_BIT;
    Powers();
    XorSplit(t, bit, x, 0, 17);
    XorZero(x);
    XorOfBits(t, bit);
    SpinOf(Xor(t, bit), x);
  }

  // ---------------------------------------------------------------------------
  // Ten bits at a time
  // ---------------------------------------------------------------------------

  lemma {:induction false} PowAdd(j: nat, k: nat)
    ensures Pow2(j + k) == Pow2(j) * Pow2(k)
  {
    if j > 0 {
      PowAdd(j - 1, k);
      Doubled(Pow2(k), Pow2(j - 1));
    }
  }

  // A single bit, spun up to the top of the register.
  lemma BitReachesTop(bit: nat, n: nat)
    requires bit <= 1 && n <= 17
    ensures bit * Pow2(17 - n) < REG_SIZE && Spins(bit * Pow2(17 - n), n) == bit * TOP_BIT
  {
    hide Pow2, Spins;
    PowGrows(bit, 17 - n);
    PowMonotone(18 - n, 18);
    Powers();
    SpinsShift(bit * Pow2(17 - n), n, n);
    PowAdd(17 - n, n);
    if bit == 1 {
      assert bit * Pow2(17 - n) == Pow2(17 - n);
    }
  }

  lemma MirrorRange(word: nat, n: nat)
    requires n <= 18
    ensures Mirror(word, 18, n) < REG_SIZE
  {
    MirrorShape(word, 18, n);
    PowAdd(n, 18 - n);
    Powers();
    Product(Turned(word, n), Pow2(n), Pow2(18 - n));
  }

  lemma Product(a: nat, b: nat, p: nat)
    requires a < b && p > 0
    ensures a * p < b * p
  {}

  lemma RegXor(a: nat, b: nat)
    requires a < REG_SIZE && b < REG_SIZE
    ensures Xor(a, b) < REG_SIZE
  {
    Powers();
    XorBound(a, b, 18);
  }

  /** Feeding `n` bits is adding them, mirrored, at the top of the register and
    * then letting it spin: the feedback has not yet reached the bits being read. */
  lemma {:induction false} FeedIsSpins(crc: nat, word: nat, n: nat)
    requires crc < REG_SIZE && n <= 18
    ensures FeedBits(crc, word, n) == Spins(Xor(crc, Mirror(word, 18, n)), n)
  {
    hide Xor, Pow2, Spin, Turned, Bit;
    if n == 0 {
      XorZero(crc);
    } else {
      var m, b := Mirror(word, 18, n - 1), Bit(word, n - 1);
      var a := b * Pow2(18 - n);
      var x := Xor(crc, m);
      FeedIsSpins(crc, word, n - 1);
      MirrorRange(word, n - 1);
      RegXor(crc, m);
      SpinsRange(x, n - 1);
      BitStepIsSpin(Spins(x, n - 1), b);
      BitReachesTop(b, n - 1);
      SpinsLinear(x, a, n - 1);
      XorAssoc(crc, m, a);
      AddMirroredBit(word, n);
    }
  }

  lemma AddMirroredBit(word: nat, n: nat)
    requires 0 < n <= 18
    ensures Xor(Mirror(word, 18, n - 1), Bit(word, n - 1) * Pow2(18 - n)) == Mirror(word, 18, n)
  {
    hide Xor, Turned, Bit;
    MirrorShape(word, 18, n - 1);
    PowGrows(Bit(word, n - 1), 18 - n);
    XorDisjoint(Turned(word, n - 1), Bit(word, n - 1) * Pow2(18 - n), 19 - n);
  }

  lemma {:induction false} MirrorWiden(word: nat, n: nat)
    requires n <= 10
    ensures Mirror(word, 18, n) == Mirror(word, 10, n) * 256
  {
    if n > 0 {
      MirrorWiden(word, n - 1);
      hide Pow2;
      PowAdd(10 - n, 8);
      Powers();
      WidenDigit(Mirror(word, 10, n - 1), Bit(word, n - 1), Pow2(10 - n));
    }
  }

  lemma WidenDigit(m: nat, d: nat, p: nat)
    ensures m * 256 + d * (p * 256) == (m + d * p) * 256
  {}

  /** A ten-bit word, mirrored: entry `word` of the table `rev10`. */
  function Rev10(word: nat): nat {
    Mirror(word, 10, 10)
  }

  /** The remainder of the ten-bit value `i`, fed most significant bit first
    * into a zeroed register: with `n` of 10, entry `i` of the table `step`. */
  function FeedTop(i: nat, n: nat): nat
    requires n <= 10
  {
    if n == 0 then 0 else BitStep(FeedTop(i, n - 1), Bit(i, 10 - n))
  }

  lemma {:induction false} FeedTopIsMirrored(i: nat, n: nat)
    requires n <= 10
    ensures FeedTop(i, n) == FeedBits(0, Rev10(i), n)
  {
    if n > 0 {
      FeedTopIsMirrored(i, n - 1);
      MirrorBits(i, 10, 10, n - 1);
    }
  }

  // The word step in closed form.
  lemma WordStepIsSpins(crc: nat, word: nat)
    requires crc < REG_SIZE
    ensures Rev10(word % 1024) < 1024
    ensures WordStep(crc, word) == Spins(Xor(crc, Rev10(word % 1024) * 256), 10)
  {
    hide Xor, Spin;
    FeedIsSpins(crc, word % 1024, 10);
    MirrorWiden(word % 1024, 10);
    MirrorBound(word % 1024, 10);
    Powers();
  }

  lemma TableEntry(i: nat)
    requires i < 1024
    ensures FeedTop(i, 10) == Spins(i * 256, 10)
  {
    hide Xor, Spin, Spins, FeedTop, FeedBits, Mirror, Pow2;
    Powers();
    FeedTopIsMirrored(i, 10);
    MirrorBound(i, 10);
    WordStepIsSpins(0, Rev10(i));
    MirrorInvolution(i, 10);
    XorZero(i * 256);
  }

  /** One word into the register by one table lookup, on 32-bit unsigned values. */
  function TableStep(crc: nat, word: nat): nat {
    var index := Xor(crc / 256, Rev10(word % 1024)) % 1024;
    Xor(crc * 1024 % 0x1_0000_0000, FeedTop(index, 10)) % REG_SIZE
  }

  /** One table lookup is ten steps of the register, for every register and word. */
  lemma TableStepCorrect(crc: nat, word: nat)
    requires crc < REG_SIZE
    ensures TableStep(crc, word) == WordStep(crc, word)
  {
    hide Xor, Spin, Spins, FeedTop, WordStep, Mirror;
    var hi, lo, r := crc / 256, crc % 256, Rev10(word % 1024);
    WordStepIsSpins(crc, word);
    Powers();
    XorBound(hi, r, 10);
    var index := Xor(hi, r);
    XorSplit(hi, r, lo, 0, 8);
    XorZero(lo);
    assert Xor(crc, r * 256) == index * 256 + lo;
    XorDisjoint(index, lo, 8);
    SpinsLinear(index * 256, lo, 10);
    TableEntry(index);
    SpinsRange(index * 256, 10);
    SpinsShift(lo, 10, 10);
    TableMask(crc, lo, Spins(index * 256, 10));
  }

  lemma TableMask(crc: nat, lo: nat, t: nat)
    requires lo == crc % 256 && t < REG_SIZE
    ensures Xor(crc * 1024 % 0x1_0000_0000, t) % REG_SIZE == Xor(t, lo * 1024)
  {
    hide Xor, Pow2;
    var q, high := crc / 256 / 0x4000, crc / 256 % 0x4000;
    DivModUnique(crc * 1024, q, high * REG_SIZE + lo * 1024, 0x1_0000_0000);
    Powers();
    XorSplit(high, 0, lo * 1024, t, 18);
    RegXor(lo * 1024, t);
    XorZero(high);
    XorComm(lo * 1024, t);
    DivMod(high, Xor(lo * 1024, t), REG_SIZE);
  }

  // ---------------------------------------------------------------------------
  // Properties of a line's CRC
  // ---------------------------------------------------------------------------

  lemma {:induction false} FeedRange(crc: nat, word: nat, n: nat)
    requires n > 0
    ensures FeedBits(crc, word, n) < REG_SIZE
  {
    BitStepRange(FeedBits(crc, word, n - 1), Bit(word, n - 1));
  }

  lemma WordStepRange(crc: nat, word: nat)
    ensures WordStep(crc, word) < REG_SIZE
  {
    FeedRange(crc, word % 1024, 10);
  }

  lemma {:induction false} CrcRange(words: seq<Word>, crc: nat)
    requires crc < REG_SIZE || words != []
    ensures Crc18(words, crc) < REG_SIZE
  {
    if words != [] {
      WordStepRange(Crc18(words[..|words| - 1], crc), words[|words| - 1]);
    }
  }

  /** The CRC of a concatenation continues from the CRC of its first part. */
  lemma {:induction false} CrcAppend(a: seq<Word>, b: seq<Word>, crc: nat)
    ensures Crc18(a + b, crc) == Crc18(b, Crc18(a, crc))
  {
    if b == [] {
      assert a + b == a;
    } else {
      var n := |b| - 1;
      CrcAppend(a, b[..n], crc);
      assert (a + b)[..|a + b| - 1] == a + b[..n];
    }
  }

  // Each word step loses nothing: neither the register it started from...
  lemma WordStepInjective(a: nat, b: nat, word: nat)
    requires a < REG_SIZE && b < REG_SIZE && WordStep(a, word) == WordStep(b, word)
    ensures a == b
  {
    hide Xor, Spins, WordStep, Mirror;
    var r := Rev10(word % 1024) * 256;
    WordStepIsSpins(a, word);
    WordStepIsSpins(b, word);
    RegXor(a, r);
    RegXor(b, r);
    SpinsInjective(Xor(a, r), Xor(b, r), 10);
    XorCancel(a, b, r);
  }

  // ... nor the word that was fed.
  lemma WordStepTellsWords(crc: nat, v: nat, w: nat)
    requires crc < REG_SIZE && WordStep(crc, v) == WordStep(crc, w)
    ensures v % 1024 == w % 1024
  {
    hide Xor, Spins, WordStep, Mirror, Pow2;
    var r, q := Rev10(v % 1024), Rev10(w % 1024);
    WordStepIsSpins(crc, v);
    WordStepIsSpins(crc, w);
    RegXor(crc, r * 256);
    RegXor(crc, q * 256);
    SpinsInjective(Xor(crc, r * 256), Xor(crc, q * 256), 10);
    XorComm(crc, r * 256);
    XorComm(crc, q * 256);
    XorCancel(r * 256, q * 256, crc);
    Powers();
    MirrorInvolution(v % 1024, 10);
    MirrorInvolution(w % 1024, 10);
  }

  lemma {:induction false} TailKeepsApart(tail: seq<Word>, a: nat, b: nat)
    requires a < REG_SIZE && b < REG_SIZE && a != b
    ensures Crc18(tail, a) != Crc18(tail, b)
  {
    hide WordStep;
    if tail != [] {
      var front, last := tail[..|tail| - 1], tail[|tail| - 1];
      TailKeepsApart(front, a, b);
      CrcRange(front, a);
      CrcRange(front, b);
      if WordStep(Crc18(front, a), last) == WordStep(Crc18(front, b), last) {
        WordStepInjective(Crc18(front, a), Crc18(front, b), last);
      }
    }
  }

  /** Two lines that agree everywhere but in word `i` have the same CRC exactly
    * when word `i` carries the same ten bits in both. */
  lemma {:induction false} SingleWordError(a: seq<Word>, b: seq<Word>, i: nat, crc: nat)
    requires crc < REG_SIZE && i < |a| == |b|
    requires a[..i] == b[..i] && a[i + 1..] == b[i + 1..]
    ensures Crc18(a, crc) == Crc18(b, crc) <==> a[i] % 1024 == b[i] % 1024
  {
    hide WordStep;
    var start := Crc18(a[..i], crc);
    var p, q := a[..i + 1], b[..i + 1];
    CrcRange(a[..i], crc);
    CrcRange(p, crc);
    CrcRange(q, crc);
    assert a == p + a[i + 1..] && b == q + b[i + 1..];
    CrcAppend(p, a[i + 1..], crc);
    CrcAppend(q, b[i + 1..], crc);
    assert p[..i] == a[..i] && q[..i] == b[..i];
    assert Crc18(p, crc) == WordStep(start, a[i]) && Crc18(q, crc) == WordStep(start, b[i]);
    SameTenBits(start, a[i], b[i]);
    if Crc18(p, crc) != Crc18(q, crc) {
      TailKeepsApart(a[i + 1..], Crc18(p, crc), Crc18(q, crc));
    }
  }

  lemma SameTenBits(crc: nat, v: nat, w: nat)
    requires crc < REG_SIZE
    ensures WordStep(crc, v) == WordStep(crc, w) <==> v % 1024 == w % 1024
  {
    if WordStep(crc, v) == WordStep(crc, w) {
      hide WordStep;
      WordStepTellsWords(crc, v, w);
    }
  }

  // ---------------------------------------------------------------------------
  // What the register computes
  // ---------------------------------------------------------------------------

  /** The bits of a run of words in the order they are sent, lowest first in each. */
  function Sent(words: seq<Word>): (r: seq<nat>)
    ensures |r| == 10 * |words|
  {
    seq(10 * |words|, i requires 0 <= i < 10 * |words| => Bit(words[i / 10], i % 10))
  }

  /** A polynomial from its coefficients, highest first. */
  function Polynomial(bits: seq<nat>): nat {
    if bits == [] then 0 else 2 * Polynomial(bits[..|bits| - 1]) + bits[|bits| - 1]
  }

  ghost predicate Binary(bits: seq<nat>) { forall i :: 0 <= i < |bits| ==> bits[i] <= 1 }

  function Registered(crc: nat, bits: seq<nat>): nat {
    if bits == [] then crc else BitStep(Registered(crc, bits[..|bits| - 1]), bits[|bits| - 1])
  }

  /** The lowest `n` bits of a word, in that order. */
  function WordBits(word: nat, n: nat): (r: seq<nat>)
    ensures |r| == n
  {
    seq(n, b requires 0 <= b < n => Bit(word, b))
  }

  lemma {:induction false} SentMore(words: seq<Word>)
    requires words != []
    ensures Sent(words) == Sent(words[..|words| - 1]) + WordBits(words[|words| - 1] % 1024, 10)
  {
    hide Bit;
    var k := |words| - 1;
    forall i | 0 <= i < 10 * |words|
      ensures Sent(words)[i] == (Sent(words[..k]) + WordBits(words[k] % 1024, 10))[i]
    {
      if i >= 10 * k {
        DivModUnique(i, k, i - 10 * k, 10);
        LowTen(words[k], i - 10 * k);
      }
    }
  }

  lemma LowTen(w: nat, b: nat)
    requires b < 10
    ensures Bit(w, b) == Bit(w % 1024, b)
  {
    hide Bit, Pow2;
    Powers();
    BitOfSum(w / 1024, w % 1024, 10, b);
  }

  lemma {:induction false} WordRegistered(crc: nat, front: seq<nat>, word: nat, n: nat)
    ensures Registered(crc, front + WordBits(word, n)) == FeedBits(Registered(crc, front), word, n)
  {
    hide BitStep, Bit;
    var all := front + WordBits(word, n);
    if n > 0 {
      assert all[..|all| - 1] == front + WordBits(word, n - 1);
      WordRegistered(crc, front, word, n - 1);
    } else {
      assert all == front;
    }
  }

  lemma {:induction false} CrcIsRegistered(words: seq<Word>, crc: nat)
    ensures Crc18(words, crc) == Registered(crc, Sent(words))
  {
    hide FeedBits, WordBits;
    if words != [] {
      var front, w := words[..|words| - 1], words[|words| - 1];
      CrcIsRegistered(front, crc);
      SentMore(words);
      WordRegistered(crc, Sent(front), w % 1024, 10);
    }
  }

  lemma {:induction false} SentIsBinary(words: seq<Word>)
    ensures Binary(Sent(words))
  {
    hide Bit;
  }

  lemma Generator()
    ensures Pow2(18) == REG_SIZE && Pow2(18) + Pow2(5) + Pow2(4) + Pow2(0) == REG_SIZE + POLY
  {
    Powers();
    assert Pow2(4) == 16 && Pow2(5) == 2 * Pow2(4);
  }

  /** One step leaves the register it started from, shifted up, and the bit at the top, less
    * the polynomial if that bit and the top of the register differ. */
  lemma StepDivides(crc: nat, bit: nat) returns (e: nat)
    requires crc < REG_SIZE && bit <= 1
    ensures e <= 1 && Xor(e * (REG_SIZE + POLY), BitStep(crc, bit)) == Xor(bit * REG_SIZE, 2 * crc)
  {
    hide Xor, Pow2;
    var top, low := crc / TOP_BIT, 2 * (crc % TOP_BIT);
    e := Xor(bit, top);
    XorOfBits(bit, top);
    Powers();
    XorSplit(bit, top, 0, low, 18);
    XorZero(low);
    DivModUnique(crc * 2, top, low, REG_SIZE);
    if e == 1 { Subtracted(low); }
  }

  lemma Subtracted(low: nat)
    requires low < REG_SIZE
    ensures Xor(REG_SIZE + POLY, Xor(low, POLY)) == REG_SIZE + low
  {
    hide Xor, Pow2;
    Powers();
    RegXor(low, POLY);
    XorSplit(1, 0, POLY, Xor(low, POLY), 18);
    XorZero(1);
    XorComm(low, POLY);
    XorAssoc(POLY, POLY, low);
    XorSelf(POLY);
    XorZero(low);
  }

  lemma {:induction false} BitsDivide(bits: seq<nat>, start: nat) returns (q: nat)
    requires Binary(bits) && start < REG_SIZE
    ensures Xor(Times(q, REG_SIZE + POLY), Registered(start, bits))
            == Xor(Polynomial(bits) * REG_SIZE, start * Pow2(|bits|))
    ensures Registered(start, bits) < REG_SIZE
  {
    hide Xor, BitStep, Times;
    if bits == [] {
      q := 0;
      TimesNone(REG_SIZE + POLY);
      assert start * Pow2(0) == start;
    } else {
      var front, bit := bits[..|bits| - 1], bits[|bits| - 1];
      var p := BitsDivide(front, start);
      var crc, m := Registered(start, front), Polynomial(front);
      var e := StepDivides(crc, bit);
      BitStepRange(crc, bit);
      q := 2 * p + e;
      TimesStep(p, e, REG_SIZE + POLY);
      DivideMore(e * (REG_SIZE + POLY), Times(p, REG_SIZE + POLY), crc, BitStep(crc, bit), bit * REG_SIZE,
                 m * REG_SIZE, start * Pow2(|front|));
      AppendBit(m, bit);
      Doubled(start, Pow2(|front|));
    }
  }

  lemma DivideMore(a: nat, t: nat, crc: nat, next: nat, top: nat, high: nat, rest: nat)
    requires Xor(a, next) == Xor(top, 2 * crc) && Xor(t, crc) == Xor(high, rest)
    ensures Xor(Xor(a, 2 * t), next) == Xor(Xor(2 * high, top), 2 * rest)
  {
    hide Xor;
    XorComm(a, 2 * t);
    XorAssoc(2 * t, a, next);
    XorComm(top, 2 * crc);
    XorAssoc(2 * t, 2 * crc, top);
    XorDouble(t, crc);
    XorDouble(high, rest);
    XorAssoc(2 * high, 2 * rest, top);
    XorComm(2 * rest, top);
    XorAssoc(2 * high, top, 2 * rest);
  }

  lemma AppendBit(m: nat, bit: nat)
    requires bit <= 1
    ensures Xor(2 * (m * REG_SIZE), bit * REG_SIZE) == (2 * m + bit) * REG_SIZE
  {
    hide Xor, Pow2;
    Powers();
    XorShift(2 * m, bit, 18);
    EvenAndBit(m, bit);
  }

  lemma EvenAndBit(m: nat, bit: nat)
    requires bit <= 1
    ensures Xor(2 * m, bit) == 2 * m + bit
  {
    assert Pow2(1) == 2;
    XorDisjoint(m, bit, 1);
  }

  /** The CRC of a line is what remains of its bits, in the order they are sent and shifted up
    * by eighteen, on division by x^18 + x^5 + x^4 + 1 over GF(2); and a register it starts
    * from counts as bits sent before them. */
  lemma {:induction false} CrcIsRemainder(words: seq<Word>, start: nat, r: nat)
    requires start < Pow2(18)
    ensures r == Crc18(words, start)
            <==> Remains(Xor(Polynomial(Sent(words)) * Pow2(18), start * Pow2(10 * |words|)),
                         Pow2(18) + Pow2(5) + Pow2(4) + Pow2(0), 18, r)
  {
    hide Xor, Times, Registered, Polynomial, Sent, Crc18, Pow2;
    var v := Xor(Polynomial(Sent(words)) * Pow2(18), start * Pow2(10 * |words|));
    var g := Pow2(18) + Pow2(5) + Pow2(4) + Pow2(0);
    Generator();
    CrcIsRegistered(words, start);
    SentIsBinary(words);
    var q := BitsDivide(Sent(words), start);
    assert Remains(v, g, 18, Crc18(words, start));
    if Remains(v, g, 18, r) { RemainsOnce(v, g, 18, r, Crc18(words, start)); }
  }

  // ---------------------------------------------------------------------------
  // The carrier words
  // ---------------------------------------------------------------------------

  /** Nine bits with bit 9 set to the inverse of bit 8. */
  function WithNotB8(nine: nat): nat {
    var v := nine % 512;
    v + if v < 256 then 512 else 0
  }

  /** Bits 8..0 and 17..9 of the mirrored register. */
  function CrcToWords(crc: nat): (nat, nat) {
    var r := Mirror(crc % REG_SIZE, 18, 18);
    (WithNotB8(r % 512), WithNotB8(r / 512 % 512))
  }

  function CrcFromWords(crc0: nat, crc1: nat): nat {
    Mirror(crc1 % 512 * 512 + crc0 % 512, 18, 18)
  }

  /** Any CRC is read back from its two carrier words. */
  lemma CarrierRoundTrip(crc: nat)
    requires crc < REG_SIZE
    ensures var w := CrcToWords(crc); CrcFromWords(w.0, w.1) == crc
  {
    hide Mirror, Pow2, WithNotB8;
    Powers();
    MirrorBound(crc, 18);
    MirrorInvolution(crc, 18);
    var r := Mirror(crc, 18, 18);
    NineBits(r % 512);
    NineBits(r / 512);
  }

  lemma NineBits(x: nat)
    requires x < 512
    ensures WithNotB8(x) % 512 == x
  {}

  /** A carrier word is never a timing-reference word. */
  lemma CarriersAreLegal(crc: nat)
    ensures var w := CrcToWords(crc); 0 < w.0 < 0x3FF && 0 < w.1 < 0x3FF
  {}

  /** The first carrier has the nine highest coefficients and the second the nine lowest, the
    * higher the lower down in its word, under a tenth bit that is not the ninth. */
  lemma CarrierBits(crc: nat, k: nat)
    requires crc < REG_SIZE && k < 9
    ensures var w := CrcToWords(crc);
            && Bit(w.0, k) == Bit(crc, 17 - k) && Bit(w.1, k) == Bit(crc, 8 - k)
            && w.0 < 1024 && w.0 / 512 + w.0 / 256 % 2 == 1 && w.1 < 1024 && w.1 / 512 + w.1 / 256 % 2 == 1
  {
    hide Mirror, Pow2, Bit;
    Powers();
    var r := Mirror(crc, 18, 18);
    MirrorBound(crc, 18);
    MirrorBits(crc, 18, 18, k);
    MirrorBits(crc, 18, 18, k + 9);
    NinePlus(r % 512, k);
    NinePlus(r / 512, k);
    BitOfNine(r / 512, r % 512, k);
  }

  lemma BitOfNine(high: nat, low: nat, k: nat)
    requires low < 512 && k < 9
    ensures Bit(high * 512 + low, k) == Bit(low, k) && Bit(high * 512 + low, k + 9) == Bit(high, k)
  {
    hide Bit;
    assert Pow2(4) == 16;
    assert Pow2(9) == 512;
    BitOfSum(high, low, 9, k);
    BitOfSum(high, low, 9, k + 9);
  }

  lemma NinePlus(x: nat, k: nat)
    requires x < 512 && k < 9
    ensures Bit(WithNotB8(x), k) == Bit(x, k)
    ensures WithNotB8(x) < 1024 && WithNotB8(x) / 512 + WithNotB8(x) / 256 % 2 == 1
  {
    hide Bit;
    if x < 256 { BitOfNine(1, x, k); }
  }

  /** An error confined to one ten-bit word always changes the words on the wire. */
  lemma {:induction false} SingleWordErrorOnWire(a: seq<Word>, b: seq<Word>, i: nat)
    requires i < |a| == |b|
    requires a[..i] == b[..i] && a[i + 1..] == b[i + 1..]
    ensures CrcToWords(Crc18(a, 0)) == CrcToWords(Crc18(b, 0)) <==> a[i] % 1024 == b[i] % 1024
  {
    SingleWordError(a, b, i, 0);
    CrcRange(a, 0);
    CrcRange(b, 0);
    CarrierRoundTrip(Crc18(a, 0));
    CarrierRoundTrip(Crc18(b, 0));
  }

  method Reflect18(v: nat) returns (r: nat)
    requires v < 0x1_0000_0000
    ensures r == Mirror(v, 18, 18)
  {
    r := 0;
    for i := 0 to 18
      invariant r == Mirror(v, 18, i)
    {
      if Bit(v, i) != 0 { r := r + Pow2(17 - i); }
    }
  }

  /** The nine-bit sum of a packet's words, as the ST 291 checksum word. */
  function Sum9(words: seq<Word>): nat {
    if words == [] then 0 else Sum9(words[..|words| - 1]) + words[|words| - 1] % 512
  }

  function Checksum(words: seq<Word>): nat {
    WithNotB8(Sum9(words))
  }

  function Total(words: seq<Word>): nat {
    if words == [] then 0 else words[0] + Total(words[1..])
  }

  /** The checksum of a packet is the sum of its words to nine bits, under a tenth that is not
    * the ninth. */
  lemma {:induction false} ChecksumIsSum(words: seq<Word>)
    ensures var c := Checksum(words); c < 1024 && c % 512 == Total(words) % 512 && c / 512 + c / 256 % 2 == 1
  {
    SumIsTotal(words);
  }

  lemma {:induction false} SumIsTotal(words: seq<Word>)
    ensures Sum9(words) % 512 == Total(words) % 512
  {
    if words != [] {
      SumIsTotal(words[..|words| - 1]);
      TotalMore(words[..|words| - 1], words[|words| - 1]);
      assert words[..|words| - 1] + [words[|words| - 1]] == words;
      SumsAgree(Sum9(words[..|words| - 1]), Total(words[..|words| - 1]), words[|words| - 1]);
    }
  }

  lemma SumsAgree(a: nat, b: nat, w: nat)
    requires a % 512 == b % 512
    ensures (a + w % 512) % 512 == (b + w) % 512
  {}

  lemma {:induction false} TotalMore(words: seq<Word>, w: Word)
    ensures Total(words + [w]) == Total(words) + w
  {
    if words != [] {
      TotalMore(words[1..], w);
      assert (words + [w])[1..] == words[1..] + [w];
    } else {
      assert [w][1..] == [];
    }
  }

  method AncChecksum(words: seq<Word>) returns (r: nat)
    ensures r == Checksum(words)
  {
    var sum: nat := 0;
    for i := 0 to |words|
      invariant sum == Sum9(words[..i])
    {
      sum := sum + words[i] % 512;
      assert words[..i + 1][..i] == words[..i];
    }
    assert words[..|words|] == words;
    r := WithNotB8(sum % 512);
  }

  // ---------------------------------------------------------------------------
  // The computations
  // ---------------------------------------------------------------------------

  // Only the low eighteen bits of a 32-bit start value reach the result.
  lemma BitStepDropsHighBits(crc: nat, bit: nat)
    ensures BitStep(crc, bit) == BitStep(crc % REG_SIZE, bit)
  {
    hide Xor;
    var h, l := crc / REG_SIZE, crc % REG_SIZE;
    LowBits(h, l / TOP_BIT, l % TOP_BIT);
    LowBits(0, l / TOP_BIT, l % TOP_BIT);
  }

  lemma LowBits(h: nat, t: nat, y: nat)
    requires t <= 1 && y < TOP_BIT
    ensures (h * REG_SIZE + t * TOP_BIT + y) / TOP_BIT % 2 == t
    ensures (h * REG_SIZE + t * TOP_BIT + y) * 2 % REG_SIZE == 2 * y
  {
    DivModUnique(h * REG_SIZE + t * TOP_BIT + y, 2 * h + t, y, TOP_BIT);
    DivModUnique((h * REG_SIZE + t * TOP_BIT + y) * 2, 2 * h + t, 2 * y, REG_SIZE);
  }

  lemma {:induction false} FeedDropsHighBits(crc: nat, word: nat, n: nat)
    requires n > 0
    ensures FeedBits(crc, word, n) == FeedBits(crc % REG_SIZE, word, n)
  {
    hide BitStep;
    if n > 1 {
      FeedDropsHighBits(crc, word, n - 1);
    } else {
      BitStepDropsHighBits(crc, Bit(word, 0));
    }
  }

  lemma TableDropsHighBits(crc: nat, word: nat)
    ensures TableStep(crc, word) == TableStep(crc % REG_SIZE, word)
  {
    hide FeedTop, Mirror, Pow2, Xor, FeedBits;
    var low, high, r := crc % REG_SIZE, crc / REG_SIZE, Rev10(word % 1024);
    assert crc / 256 == high * 1024 + low / 256;
    MirrorBound(word % 1024, 10);
    Powers();
    XorSplit(high, 0, low / 256, r, 10);
    XorBound(low / 256, r, 10);
    var index := Xor(low / 256, r);
    FeedTopIsMirrored(index, 10);
    FeedRange(0, Rev10(index), 10);
    TableMask(crc, crc % 256, FeedTop(index, 10));
    TableMask(low, crc % 256, FeedTop(index, 10));
  }

  /** Both tables, worked out bit by bit: what ten steps do to each ten-bit value, and its mirror. */
  class Tables {
    const step: array<nat>
    const rev10: array<nat>

    ghost predicate Valid()
      reads this, step, rev10
    {
      && step.Length == 1024 && rev10.Length == 1024
      && (forall i | 0 <= i < 1024 :: rev10[i] == Rev10(i))
      && (forall i | 0 <= i < 1024 :: step[i] == FeedTop(i, 10))
    }

    constructor ()
      ensures Valid() && fresh(step) && fresh(rev10)
    {
      step := new nat[1024];
      rev10 := new nat[1024];
      new;
      for i := 0 to 1024
        invariant forall j | 0 <= j < i :: rev10[j] == Rev10(j)
        invariant forall j | 0 <= j < i :: step[j] == FeedTop(j, 10)
      {
        var r := 0;
        for b := 0 to 10
          invariant r == Mirror(i, 10, b)
        {
          if Bit(i, b) != 0 { r := r + Pow2(9 - b); }
        }
        rev10[i] := r;

        var crc := 0;
        var b := 9;
        while b >= 0
          invariant -1 <= b <= 9
          invariant crc == FeedTop(i, 9 - b)
          decreases b
        {
          crc := BitStep(crc, Bit(i, b));
          b := b - 1;
        }
        step[i] := crc;
      }
    }

    method Step(crc: nat, word: Word) returns (r: nat)
      requires Valid()
      ensures r == TableStep(crc, word)
    {
      var index := Xor(crc / 256, rev10[word % 1024]) % 1024;
      r := Xor(crc * 1024 % 0x1_0000_0000, step[index]) % REG_SIZE;
    }
  }

  method Crc18Bitwise(words: seq<Word>, start: nat) returns (crc: nat)
    requires start < 0x1_0000_0000
    ensures crc == Crc18(words, start) % REG_SIZE
  {
    crc := start;
    for i := 0 to |words|
      invariant crc == Crc18(words[..i], start)
    {
      var w := words[i] % 1024;
      ghost var before := crc;
      for b := 0 to 10
        invariant crc == FeedBits(before, w, b)
      {
        crc := BitStep(crc, Bit(w, b));
      }
      assert words[..i + 1][..i] == words[..i];
    }
    assert words[..|words|] == words;
    crc := crc % REG_SIZE;
  }

  /** The word at `from + k * stride` for each `k` below `count`. */
  function Gather(words: seq<Word>, from: nat, count: nat, stride: nat): (r: seq<Word>)
    requires count > 0 ==> from + (count - 1) * stride < |words|
    ensures |r| == count
  {
    if count == 0 then []
    else
      assert (count - 1) * stride == (count - 2) * stride + stride;
      Gather(words, from, count - 1, stride) + [words[from + (count - 1) * stride]]
  }

  lemma StepAgrees(crc: nat, word: Word)
    ensures TableStep(crc, word) == WordStep(crc, word)
  {
    FeedDropsHighBits(crc, word % 1024, 10);
    hide TableStep, FeedBits;
    TableDropsHighBits(crc, word);
    TableStepCorrect(crc % REG_SIZE, word);
  }

  /** The strided form is the reference applied to the gathered words. */
  method Crc18Strided(t: Tables, words: seq<Word>, from: nat, count: nat, stride: nat, start: nat)
    returns (crc: nat)
    requires t.Valid() && start < 0x1_0000_0000
    requires count > 0 ==> from + (count - 1) * stride < |words|
    ensures crc == Crc18(Gather(words, from, count, stride), start)
  {
    hide TableStep, WordStep, Tables.Valid;
    crc := start;
    AllInside(|words|, from, count, stride);
    for i := 0 to count
      invariant crc == Crc18(Gather(words, from, i, stride), start)
    {
      AllInside(|words|, from, count, stride);
      ghost var before := crc;
      crc := t.Step(crc, words[from + i * stride]);
      StepAgrees(before, words[from + i * stride]);
      CrcMore(words, from, i, stride, start);
    }
  }

  lemma AllInside(total: nat, from: nat, count: nat, stride: nat)
    requires count > 0 ==> from + (count - 1) * stride < total
    ensures forall k | 0 <= k < count :: from + k * stride < total
  {
    forall k | 0 <= k < count ensures from + k * stride < total {
      assert (count - 1 - k) * stride >= 0;
      assert k * stride + (count - 1 - k) * stride == (count - 1) * stride;
    }
  }

  lemma {:induction false} CrcMore(words: seq<Word>, from: nat, i: nat, stride: nat, start: nat)
    requires from + i * stride < |words| && (i > 0 ==> from + (i - 1) * stride < |words|)
    ensures Crc18(Gather(words, from, i + 1, stride), start)
            == WordStep(Crc18(Gather(words, from, i, stride), start), words[from + i * stride])
  {
    hide WordStep;
  }

  method Crc18Table(t: Tables, words: seq<Word>, start: nat) returns (crc: nat)
    requires t.Valid() && start < 0x1_0000_0000
    ensures crc == Crc18(words, start)
  {
    crc := start;
    for i := 0 to |words|
      invariant crc == Crc18(words[..i], start)
    {
      ghost var before := crc;
      crc := t.Step(crc, words[i]);
      StepAgrees(before, words[i]);
      assert words[..i + 1][..i] == words[..i];
    }
    assert words[..|words|] == words;
  }
}
