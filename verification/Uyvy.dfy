/** Eight-bit 4:2:2 samples and the ten-bit words that carry them: the scalar loops, and the
  * vector forms with their lanes. */
module Uyvy {
  import opened Wrappers
  import opened Bitpack
  import opened StreamParser

  /** Going to samples and back gives a word exactly when it is a ten-bit word whose two low
    * bits are clear. */
  lemma {:induction false} WordsOfSamples(w: seq<Word>)
    ensures ToWords(Samples(w)) == w <==> forall i :: 0 <= i < |w| ==> w[i] < 1024 && w[i] % 4 == 0
  {
    var back := ToWords(Samples(w));
    forall i | 0 <= i < |w| ensures back[i] == w[i] <==> w[i] < 1024 && w[i] % 4 == 0 {
      var x, s: nat := w[i], Samples(w)[i];
      assert back[i] == s * 4 && s == x % 1024 / 4;
      LowBitsClear(x);
    }
  }

  lemma LowBitsClear(x: nat)
    ensures x % 1024 / 4 * 4 == x <==> x < 1024 && x % 4 == 0
  {}

  // ---------------------------------------------------------------------------
  // Scalar forms
  // ---------------------------------------------------------------------------

  method ScalarToWords(src: seq<Byte>, dst: array<Word>)
    requires |src| <= dst.Length
    modifies dst
    ensures dst[..] == ToWords(src) + old(dst[|src|..])
  {
    hide ToWords;
    ghost var was := dst[..];
    ToWordsNone(was);
    for i := 0 to |src|
      invariant dst[..] == ToWords(src[..i]) + was[i..]
    {
      StoreWord(src, i, dst, was);
    }
    assert src[..|src|] == src;
  }

  method StoreWord(src: seq<Byte>, i: nat, dst: array<Word>, ghost was: seq<Word>)
    requires i < |src| <= |was| && dst[..] == ToWords(src[..i]) + was[i..]
    modifies dst
    ensures dst[..] == ToWords(src[..i + 1]) + was[i + 1..]
  {
    ghost var d := dst[..];
    assert |d| == |was|;
    ToWordsStep(src, i, was);
    var x: nat := src[i];
    var w: Word := x * 4;
    dst[i] := w;
    assert dst[..] == d[i := w];
  }

  lemma {:induction false} ToWordsStep(src: seq<Byte>, i: nat, was: seq<Word>)
    requires i < |src| <= |was|
    ensures var x: nat := src[i];
            (ToWords(src[..i]) + was[i..])[i := x * 4 as Word] == ToWords(src[..i + 1]) + was[i + 1..]
  {}

  method ScalarToSamples(src: seq<Word>, dst: array<Byte>)
    requires |src| <= dst.Length
    modifies dst
    ensures dst[..] == Samples(src) + old(dst[|src|..])
  {
    hide Samples;
    ghost var was := dst[..];
    SamplesNone(was);
    for i := 0 to |src|
      invariant dst[..] == Samples(src[..i]) + was[i..]
    {
      StoreSample(src, i, dst, was);
    }
    assert src[..|src|] == src;
  }

  method StoreSample(src: seq<Word>, i: nat, dst: array<Byte>, ghost was: seq<Byte>)
    requires i < |src| <= |was| && dst[..] == Samples(src[..i]) + was[i..]
    modifies dst
    ensures dst[..] == Samples(src[..i + 1]) + was[i + 1..]
  {
    ghost var d := dst[..];
    assert |d| == |was|;
    SamplesStep(src, i, was);
    var s: Byte := src[i] % 1024 / 4;
    dst[i] := s;
    assert dst[..] == d[i := s];
  }

  lemma {:induction false} SamplesStep(src: seq<Word>, i: nat, was: seq<Byte>)
    requires i < |src| <= |was|
    ensures (Samples(src[..i]) + was[i..])[i := src[i] % 1024 / 4] == Samples(src[..i + 1]) + was[i + 1..]
  {}

  // ---------------------------------------------------------------------------
  // Vector forms
  // ---------------------------------------------------------------------------

  /** Sixteen words, masked to ten bits and shifted down by two. */
  function Narrowed(v: seq<Word>): (r: seq<Word>)
    requires |v| == 16
    ensures |r| == 16
  {
    seq(16, i requires 0 <= i < 16 => v[i] % 1024 / 4)
  }

  /** A signed 16-bit value saturated to an unsigned byte. */
  function Saturated(x: Word): Byte {
    if x >= 0x8000 then 0 else if x > 255 then 255 else x
  }

  function Lane(a: seq<Word>, b: seq<Word>, i: nat): Byte
    requires |a| == 16 == |b| && i < 32
  {
    Saturated(if i < 8 then a[i] else if i < 16 then b[i - 8] else if i < 24 then a[i - 8] else b[i - 16])
  }

  /** Packing with saturation works within the 128-bit lanes, and so interleaves them. */
  function PackLanes(a: seq<Word>, b: seq<Word>): (r: seq<Byte>)
    requires |a| == 16 == |b|
    ensures |r| == 32
  {
    seq(32, i requires 0 <= i < 32 => Lane(a, b, i))
  }

  /** The 64-bit quarters taken in the order 0, 2, 1, 3. */
  function Permuted(p: seq<Byte>): (r: seq<Byte>)
    requires |p| == 32
    ensures |r| == 32
  {
    p[0..8] + p[16..24] + p[8..16] + p[24..32]
  }

  /** The permutation undoes the interleaving, and nothing saturates. */
  lemma {:induction false} VectorNarrows(a: seq<Word>, b: seq<Word>)
    requires |a| == 16 == |b|
    ensures Permuted(PackLanes(Narrowed(a), Narrowed(b))) == Samples(a + b)
  {
    var p := PackLanes(Narrowed(a), Narrowed(b));
    forall k | 0 <= k < 16 ensures Permuted(p)[k] == a[k] % 1024 / 4 {
      Fits(a[k]);
      assert Permuted(p)[k] == p[if k < 8 then k else k + 8];
    }
    forall k | 0 <= k < 16 ensures Permuted(p)[16 + k] == b[k] % 1024 / 4 {
      Fits(b[k]);
      assert Permuted(p)[16 + k] == p[if k < 8 then k + 8 else k + 16];
    }
    assert Samples(a + b) == Permuted(p);
  }

  lemma Fits(x: Word)
    ensures x % 1024 / 4 <= 255
  {}

  /** Thirty-two words at a time, the rest one by one. */
  method FastToSamples(src: seq<Word>, dst: array<Byte>)
    requires |src| <= dst.Length
    modifies dst
    ensures dst[..] == Samples(src) + old(dst[|src|..])
  {
    hide Samples;
    ghost var was := dst[..];
    SamplesNone(was);
    var i := 0;
    while i + 32 <= |src|
      invariant i <= |src| && dst[..] == Samples(src[..i]) + was[i..]
    {
      StoreVector(src, i, dst, was);
      i := i + 32;
    }
    while i < |src|
      invariant i <= |src| && dst[..] == Samples(src[..i]) + was[i..]
    {
      StoreSample(src, i, dst, was);
      i := i + 1;
    }
    assert src[..|src|] == src;
  }

  method StoreVector(src: seq<Word>, i: nat, dst: array<Byte>, ghost was: seq<Byte>)
    requires i + 32 <= |src| <= |was| && dst[..] == Samples(src[..i]) + was[i..]
    modifies dst
    ensures dst[..] == Samples(src[..i + 32]) + was[i + 32..]
  {
    hide Samples, Permuted, PackLanes, Narrowed;
    ghost var d := dst[..];
    var a, b := src[i..i + 16], src[i + 16..i + 32];
    VectorNarrows(a, b);
    assert a + b == src[i..i + 32];
    SamplesJoin(src, i, i + 32, was);
    assert dst.Length == |d| && dst[..i] == d[..i] && dst[i + 32..] == d[i + 32..];
    Store(dst, i, Permuted(PackLanes(Narrowed(a), Narrowed(b))));
  }

  lemma {:induction false} SamplesNone(was: seq<Byte>)
    ensures was == Samples([]) + was[0..]
  {}

  lemma {:induction false} SamplesJoin(src: seq<Word>, i: nat, j: nat, was: seq<Byte>)
    requires i <= j <= |src| <= |was|
    ensures var d := Samples(src[..i]) + was[i..];
            && |d| == |was|
            && d[..i] + Samples(src[i..j]) + d[j..] == Samples(src[..j]) + was[j..]
  {}

  /** Sixteen samples at a time, the rest one by one. */
  method FastToWords(src: seq<Byte>, dst: array<Word>)
    requires |src| <= dst.Length
    modifies dst
    ensures dst[..] == ToWords(src) + old(dst[|src|..])
  {
    hide ToWords;
    ghost var was := dst[..];
    ToWordsNone(was);
    var i := 0;
    while i + 16 <= |src|
      invariant i <= |src| && dst[..] == ToWords(src[..i]) + was[i..]
    {
      StoreWidened(src, i, dst, was);
      i := i + 16;
    }
    while i < |src|
      invariant i <= |src| && dst[..] == ToWords(src[..i]) + was[i..]
    {
      StoreWord(src, i, dst, was);
      i := i + 1;
    }
    assert src[..|src|] == src;
  }

  method StoreWidened(src: seq<Byte>, i: nat, dst: array<Word>, ghost was: seq<Word>)
    requires i + 16 <= |src| <= |was| && dst[..] == ToWords(src[..i]) + was[i..]
    modifies dst
    ensures dst[..] == ToWords(src[..i + 16]) + was[i + 16..]
  {
    hide ToWords;
    ghost var d := dst[..];
    ToWordsJoin(src, i, i + 16, was);
    assert dst.Length == |d| && dst[..i] == d[..i] && dst[i + 16..] == d[i + 16..];
    Store(dst, i, ToWords(src[i..i + 16]));
  }

  lemma {:induction false} ToWordsNone(was: seq<Word>)
    ensures was == ToWords([]) + was[0..]
  {}

  lemma {:induction false} ToWordsJoin(src: seq<Byte>, i: nat, j: nat, was: seq<Word>)
    requires i <= j <= |src| <= |was|
    ensures var d := ToWords(src[..i]) + was[i..];
            && |d| == |was|
            && d[..i] + ToWords(src[i..j]) + d[j..] == ToWords(src[..j]) + was[j..]
  {}
}
