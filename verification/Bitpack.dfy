/** Packing of 10-bit words, four words to five bytes, most significant bit first.
  *
  * The meaning of the format is `GroupValue`: a group of four words and its five
  * bytes are the same 40-bit number.  The scalar loops and the 64-bit fast path
  * with its overlapping stores are both proved against it.
  */
module Bitpack {
  import opened Wrappers
  import opened Gf2

  // ---------------------------------------------------------------------------
  // The format
  // ---------------------------------------------------------------------------

  /** The ten bits of a word that count. */
  function Ten(w: Word): nat {
    w % 1024
  }

  /** The 40 bits that a group of four words carries. */
  function GroupValue(w: seq<Word>): (v: nat)
    requires |w| == 4
    ensures v < 0x100_0000_0000
  {
    ((Ten(w[0]) * 1024 + Ten(w[1])) * 1024 + Ten(w[2])) * 1024 + Ten(w[3])
  }

  /** The number that five bytes are, big-endian. */
  function BytesValue(b: seq<Byte>): (v: nat)
    requires |b| == 5
    ensures v < 0x100_0000_0000
  {
    var x: nat := b[0];
    (((x * 256 + b[1]) * 256 + b[2]) * 256 + b[3]) * 256 + b[4]
  }

  /** The five bytes of a 40-bit number, big-endian. */
  function BytesOf(v: nat): (r: seq<Byte>)
    requires v < 0x100_0000_0000
    ensures |r| == 5
  {
    var x3 := v / 256;
    var x2 := x3 / 256;
    var x1 := x2 / 256;
    [x1 / 256, x1 % 256, x2 % 256, x3 % 256, v % 256]
  }

  /** The four words of a 40-bit number. */
  function WordsOf(v: nat): (r: seq<Word>)
    requires v < 0x100_0000_0000
    ensures |r| == 4
  {
    var y2 := v / 1024;
    var y1 := y2 / 1024;
    [y1 / 1024, y1 % 1024, y2 % 1024, v % 1024]
  }

  function PackGroup(w: seq<Word>): (r: seq<Byte>)
    requires |w| == 4
    ensures |r| == 5
  {
    BytesOf(GroupValue(w))
  }

  function UnpackGroup(b: seq<Byte>): (r: seq<Word>)
    requires |b| == 5
    ensures |r| == 4
  {
    WordsOf(BytesValue(b))
  }

  /** The low ten bits of each word: all that packing keeps. */
  function TenBits(w: seq<Word>): (r: seq<Word>)
    ensures |r| == |w|
  {
    seq(|w|, i requires 0 <= i < |w| => w[i] % 1024)
  }

  function Pack(w: seq<Word>): seq<Byte> {
    if |w| < 4 then [] else PackGroup(w[..4]) + Pack(w[4..])
  }

  function Unpack(b: seq<Byte>): seq<Word> {
    if |b| < 5 then [] else UnpackGroup(b[..5]) + Unpack(b[5..])
  }

  lemma {:induction false} PackLength(w: seq<Word>, groups: nat)
    requires 4 * groups <= |w| < 4 * groups + 4
    ensures |Pack(w)| == 5 * groups
  {
    if groups > 0 { PackLength(w[4..], groups - 1); }
  }

  lemma {:induction false} UnpackLength(b: seq<Byte>, groups: nat)
    requires 5 * groups <= |b| < 5 * groups + 5
    ensures |Unpack(b)| == 4 * groups
  {
    if groups > 0 { UnpackLength(b[5..], groups - 1); }
  }

  // ---------------------------------------------------------------------------
  // Packing and unpacking undo each other
  // ---------------------------------------------------------------------------

  lemma BytesRoundTrip(v: nat)
    requires v < 0x100_0000_0000
    ensures BytesValue(BytesOf(v)) == v
  {}

  lemma {:induction false} ValueRoundTrip(b: seq<Byte>)
    requires |b| == 5
    ensures BytesOf(BytesValue(b)) == b
  {
    var x0: nat := b[0];
    var x1: nat := x0 * 256 + b[1];
    var x2: nat := x1 * 256 + b[2];
    var x3: nat := x2 * 256 + b[3];
    DivMod(x3, b[4], 256);
    DivMod(x2, b[3], 256);
    DivMod(x1, b[2], 256);
    DivMod(x0, b[1], 256);
  }

  lemma WordsRoundTrip(v: nat)
    requires v < 0x100_0000_0000
    ensures GroupValue(WordsOf(v)) == v
  {}

  lemma {:induction false} GroupRoundTrip(w: seq<Word>)
    requires |w| == 4
    ensures WordsOf(GroupValue(w)) == TenBits(w)
  {
    var y1 := Ten(w[0]) * 1024 + Ten(w[1]);
    var y2 := y1 * 1024 + Ten(w[2]);
    DivMod(y2, Ten(w[3]), 1024);
    DivMod(y1, Ten(w[2]), 1024);
    DivMod(Ten(w[0]), Ten(w[1]), 1024);
  }

  lemma {:induction false} UnpackPack(w: seq<Word>)
    requires |w| % 4 == 0
    ensures Unpack(Pack(w)) == TenBits(w)
  {
    hide BytesOf, BytesValue, WordsOf, GroupValue;
    if |w| > 0 {
      var b, rest := PackGroup(w[..4]), Pack(w[4..]);
      assert (b + rest)[..5] == b && (b + rest)[5..] == rest;
      BytesRoundTrip(GroupValue(w[..4]));
      GroupRoundTrip(w[..4]);
      UnpackPack(w[4..]);
      assert TenBits(w) == TenBits(w[..4]) + TenBits(w[4..]);
    }
  }

  lemma {:induction false} PackUnpack(b: seq<Byte>)
    requires |b| % 5 == 0
    ensures Pack(Unpack(b)) == b
  {
    hide BytesOf, BytesValue, WordsOf, GroupValue;
    if |b| > 0 {
      var w, rest := UnpackGroup(b[..5]), Unpack(b[5..]);
      assert (w + rest)[..4] == w && (w + rest)[4..] == rest;
      ValueRoundTrip(b[..5]);
      WordsRoundTrip(BytesValue(b[..5]));
      PackUnpack(b[5..]);
      assert b == b[..5] + b[5..];
    }
  }

  // Packing a concatenation at a group boundary packs its parts.
  lemma {:induction false} PackAppend(a: seq<Word>, b: seq<Word>, groups: nat)
    requires |a| == 4 * groups
    ensures Pack(a + b) == Pack(a) + Pack(b)
  {
    hide PackGroup;
    if groups == 0 {
      assert a + b == b;
    } else {
      assert (a + b)[..4] == a[..4] && (a + b)[4..] == a[4..] + b;
      PackAppend(a[4..], b, groups - 1);
    }
  }

  lemma {:induction false} UnpackAppend(a: seq<Byte>, b: seq<Byte>, groups: nat)
    requires |a| == 5 * groups
    ensures Unpack(a + b) == Unpack(a) + Unpack(b)
  {
    hide UnpackGroup;
    if groups == 0 {
      assert a + b == b;
    } else {
      assert (a + b)[..5] == a[..5] && (a + b)[5..] == a[5..] + b;
      UnpackAppend(a[5..], b, groups - 1);
    }
  }

  // ---------------------------------------------------------------------------
  // Bit by bit
  // ---------------------------------------------------------------------------

  // The bits of a quotient and a remainder by a power of two.
  lemma ByteDigit(v: nat, m: nat)
    ensures Bit(v / 256, m) == Bit(v, m + 8) && (m < 8 ==> Bit(v % 256, m) == Bit(v, m))
  {
    hide Bit;
    BitOfSum(v / 256, v % 256, 8, m);
    BitOfSum(v / 256, v % 256, 8, m + 8);
    assert Pow2(4) == 16;
    assert Pow2(8) == 256;
  }

  lemma WordDigit(v: nat, m: nat)
    ensures Bit(v / 1024, m) == Bit(v, m + 10) && (m < 10 ==> Bit(v % 1024, m) == Bit(v, m))
  {
    hide Bit;
    assert Pow2(4) == 16;
    assert Pow2(8) == 256;
    assert Pow2(10) == 4 * Pow2(8);
    BitOfSum(v / 1024, v % 1024, 10, m);
    BitOfSum(v / 1024, v % 1024, 10, m + 10);
  }

  lemma {:induction false} BitOfBytes(v: nat, j: nat, r: nat)
    requires v < 0x100_0000_0000 && j < 5 && r < 8
    ensures Bit(BytesOf(v)[j], 7 - r) == Bit(v, 39 - (8 * j + r))
  {
    hide Bit;
    var m, x3 := 7 - r, v / 256;
    var x2 := x3 / 256;
    var x1 := x2 / 256;
    ByteDigit(v, m);
    ByteDigit(v, m + 8);
    ByteDigit(v, m + 16);
    ByteDigit(v, m + 24);
    ByteDigit(x3, m);
    ByteDigit(x3, m + 8);
    ByteDigit(x3, m + 16);
    ByteDigit(x2, m);
    ByteDigit(x2, m + 8);
    ByteDigit(x1, m);
  }

  lemma {:induction false} BitOfWords(v: nat, j: nat, r: nat)
    requires v < 0x100_0000_0000 && j < 4 && r < 10
    ensures Bit(WordsOf(v)[j], 9 - r) == Bit(v, 39 - (10 * j + r))
  {
    hide Bit;
    var m, y2 := 9 - r, v / 1024;
    var y1 := y2 / 1024;
    WordDigit(v, m);
    WordDigit(v, m + 10);
    WordDigit(v, m + 20);
    WordDigit(y2, m);
    WordDigit(y2, m + 10);
    WordDigit(y1, m);
  }

  lemma {:induction false} GroupInOrder(w: seq<Word>, k: nat)
    requires |w| == 4 && k < 40
    ensures Bit(PackGroup(w)[k / 8], 7 - k % 8) == Bit(w[k / 10], 9 - k % 10)
  {
    hide Bit, BytesOf, WordsOf, GroupValue;
    var v := GroupValue(w);
    BitOfBytes(v, k / 8, k % 8);
    BitOfWords(v, k / 10, k % 10);
    GroupRoundTrip(w);
    var word: nat := w[k / 10];
    WordDigit(word, 9 - k % 10);
  }

  /** The words' ten bits lie in the bytes end to end, the highest first: bit `k` of the stream
    * is bit `k` of the words and of the bytes alike. */
  lemma {:induction false} BitsInOrder(w: seq<Word>, k: nat, groups: nat)
    requires |w| == 4 * groups && k < 10 * |w|
    ensures |Pack(w)| == 5 * groups && Bit(Pack(w)[k / 8], 7 - k % 8) == Bit(w[k / 10], 9 - k % 10)
  {
    hide Bit, PackGroup;
    PackLength(w, groups);
    if k < 40 {
      GroupInOrder(w[..4], k);
      assert w[..4][k / 10] == w[k / 10];
    } else {
      BitsInOrder(w[4..], k - 40, groups - 1);
      DivModUnique(k, (k - 40) / 8 + 5, (k - 40) % 8, 8);
      DivModUnique(k, (k - 40) / 10 + 4, (k - 40) % 10, 10);
    }
  }

  // ---------------------------------------------------------------------------
  // The scalar loops and the 64-bit fast path
  // ---------------------------------------------------------------------------

  /** The five bytes the scalar code assembles, one by one. */
  function ScalarBytes(w: seq<Word>): (r: seq<Byte>)
    requires |w| == 4
    ensures |r| == 5
  {
    var w0, w1, w2, w3 := Ten(w[0]), Ten(w[1]), Ten(w[2]), Ten(w[3]);
    [w0 / 4, w0 % 4 * 64 + w1 / 16, w1 % 16 * 16 + w2 / 64, w2 % 64 * 4 + w3 / 256, w3 % 256]
  }

  lemma {:induction false} ScalarBytesCorrect(w: seq<Word>)
    requires |w| == 4
    ensures ScalarBytes(w) == PackGroup(w)
  {
    var w0, w1, w2, w3 := Ten(w[0]), Ten(w[1]), Ten(w[2]), Ten(w[3]);
    var x1 := w0 * 64 + w1 / 16;
    var x2 := (w0 * 1024 + w1) * 16 + w2 / 64;
    var x3 := ((w0 * 1024 + w1) * 1024 + w2) * 4 + w3 / 256;
    DivModUnique(GroupValue(w), x3, w3 % 256, 256);
    DivModUnique(x3, x2, w2 % 64 * 4 + w3 / 256, 256);
    DivModUnique(x2, x1, w1 % 16 * 16 + w2 / 64, 256);
    DivModUnique(x1, w0 / 4, w0 % 4 * 64 + w1 / 16, 256);
  }

  /** The four words the scalar code takes from five bytes. */
  function ScalarWords(b: seq<Byte>): (r: seq<Word>)
    requires |b| == 5
    ensures |r| == 4
  {
    var b0: nat, b1: nat, b2: nat, b3: nat, b4: nat := b[0], b[1], b[2], b[3], b[4];
    [b0 * 4 + b1 / 64, b1 % 64 * 16 + b2 / 16, b2 % 16 * 64 + b3 / 4, b3 % 4 * 256 + b4]
  }

  lemma {:induction false} ScalarWordsCorrect(b: seq<Byte>)
    requires |b| == 5
    ensures ScalarWords(b) == UnpackGroup(b)
  {
    var s := ScalarWords(b);
    var s0: nat := s[0];
    var y1: nat := s0 * 1024 + s[1];
    var y2: nat := y1 * 1024 + s[2];
    DivModUnique(BytesValue(b), y2, s[3], 1024);
    DivModUnique(y2, y1, s[2], 1024);
    DivModUnique(y1, s0, s[1], 1024);
  }

  // ---------------------------------------------------------------------------
  // The loops over whole buffers
  // ---------------------------------------------------------------------------

  /** A store of consecutive elements. */
  method Store<T>(dst: array<T>, at: nat, b: seq<T>)
    requires at + |b| <= dst.Length
    modifies dst
    ensures dst[..] == old(dst[..at]) + b + old(dst[at + |b|..])
  {
    forall k | 0 <= k < |b| { dst[at + k] := b[k]; }
  }

  // The state of a packer: `groups` groups of `src` packed at `at`, nothing outside
  // the `room` bytes from there touched, the rest of that room arbitrary.
  ghost predicate PackedTo(now: seq<Byte>, orig: seq<Byte>, src: seq<Word>, at: nat, room: nat, groups: nat) {
    && 4 * groups <= |src| && 5 * groups <= room && at + room <= |orig| == |now|
    && now[..at] == orig[..at] && now[at + room..] == orig[at + room..]
    && now[at..at + 5 * groups] == Pack(src[..4 * groups])
  }

  lemma {:induction false} PackedNothing(orig: seq<Byte>, src: seq<Word>, at: nat, room: nat)
    requires at + room <= |orig|
    ensures PackedTo(orig, orig, src, at, room, 0)
  {
    PackLength(src[..0], 0);
  }

  // One more group stored, with `slack` bytes after it that still fit.
  lemma {:induction false} PackedMore(now: seq<Byte>, after: seq<Byte>, orig: seq<Byte>, src: seq<Word>, at: nat, room: nat,
                   groups: nat, slack: seq<Byte>)
    requires PackedTo(now, orig, src, at, room, groups)
    requires 4 * groups + 4 <= |src| && 5 * groups + 5 + |slack| <= room
    requires var d := at + 5 * groups;
             after == now[..d] + (PackGroup(src[4 * groups..4 * groups + 4]) + slack) + now[d + 5 + |slack|..]
    ensures PackedTo(after, orig, src, at, room, groups + 1)
  {
    hide Pack, PackGroup;
    PackOneMore(src, groups);
    var b := PackGroup(src[4 * groups..4 * groups + 4]);
    assert after[at..at + 5 * groups + 5] == now[at..at + 5 * groups] + b;
  }

  lemma {:induction false} PackedAll(now: seq<Byte>, orig: seq<Byte>, src: seq<Word>, at: nat, room: nat, groups: nat)
    requires PackedTo(now, orig, src, at, room, groups) && |src| < 4 * groups + 4 && room == 5 * groups
    ensures now == orig[..at] + Pack(src) + orig[at + room..]
  {
    PackShortTail(src, groups);
    assert now == now[..at] + now[at..at + room] + now[at + room..];
  }

  lemma {:induction false} PackOneMore(src: seq<Word>, groups: nat)
    requires 4 * groups + 4 <= |src|
    ensures var i := 4 * groups; Pack(src[..i + 4]) == Pack(src[..i]) + PackGroup(src[i..i + 4])
  {
    hide PackGroup;
    var i := 4 * groups;
    var g := src[i..i + 4];
    assert src[..i + 4] == src[..i] + g;
    PackAppend(src[..i], g, groups);
    assert g[..4] == g;
  }

  lemma {:induction false} PackShortTail(src: seq<Word>, groups: nat)
    requires 4 * groups <= |src| < 4 * groups + 4
    ensures Pack(src) == Pack(src[..4 * groups])
  {
    hide PackGroup;
    var i := 4 * groups;
    assert src == src[..i] + src[i..];
    PackAppend(src[..i], src[i..], groups);
  }

  /** Store a group at its place: its five bytes, and `slack` more that later groups or
    * nobody will want. */
  method StoreGroup(src: seq<Word>, dst: array<Byte>, ghost orig: seq<Byte>, ghost at: nat, ghost room: nat,
                    ghost groups: nat, d: nat, b: seq<Byte>, ghost slack: seq<Byte>)
    requires PackedTo(dst[..], orig, src, at, room, groups) && 4 * groups + 4 <= |src| && d == at + 5 * groups
    requires b == PackGroup(src[4 * groups..4 * groups + 4]) + slack && 5 * groups + |b| <= room
    requires at + room <= dst.Length
    modifies dst
    ensures PackedTo(dst[..], orig, src, at, room, groups + 1)
  {
    hide PackedTo, Pack, PackGroup;
    ghost var now := dst[..];
    Store(dst, d, b);
    PackedMore(now, dst[..], orig, src, at, room, groups, slack);
  }

  method ScalarPack10(src: seq<Word>, dst: array<Byte>, at: nat, ghost n: nat)
    requires 4 * n <= |src| < 4 * n + 4 && at + 5 * n <= dst.Length
    modifies dst
    ensures dst[..] == old(dst[..at]) + Pack(src) + old(dst[at + 5 * n..])
  {
    hide PackedTo, Pack, PackGroup, ScalarBytes;
    ghost var orig, groups, room := dst[..], 0, 5 * n;
    PackedNothing(orig, src, at, room);
    var i, d := 0, at;
    while i + 4 <= |src|
      invariant groups <= n && i == 4 * groups && d == at + 5 * groups
      invariant PackedTo(dst[..], orig, src, at, room, groups)
    {
      ScalarBytesCorrect(src[i..i + 4]);
      StoreGroup(src, dst, orig, at, room, groups, d, ScalarBytes(src[i..i + 4]), []);
      i, d, groups := i + 4, d + 5, groups + 1;
    }
    PackedAll(dst[..], orig, src, at, room, groups);
  }

  // The state of an unpacker: `groups` groups of `src` unpacked.
  ghost predicate UnpackedTo(now: seq<Word>, orig: seq<Word>, src: seq<Byte>, groups: nat) {
    && 5 * groups <= |src| && 4 * groups <= |orig|
    && now == Unpack(src[..5 * groups]) + orig[4 * groups..]
  }

  lemma {:induction false} UnpackedNothing(orig: seq<Word>, src: seq<Byte>)
    ensures UnpackedTo(orig, orig, src, 0)
  {}

  lemma {:induction false} UnpackedMore(now: seq<Word>, after: seq<Word>, orig: seq<Word>, src: seq<Byte>, groups: nat)
    requires UnpackedTo(now, orig, src, groups)
    requires 5 * groups + 5 <= |src| && 4 * groups + 4 <= |orig| == |now|
    requires after == now[..4 * groups] + UnpackGroup(src[5 * groups..5 * groups + 5]) + now[4 * groups + 4..]
    ensures UnpackedTo(after, orig, src, groups + 1)
  {
    hide Unpack, UnpackGroup;
    UnpackOneMore(src, groups);
  }

  lemma {:induction false} UnpackedAll(now: seq<Word>, orig: seq<Word>, src: seq<Byte>, groups: nat)
    requires UnpackedTo(now, orig, src, groups) && |src| == 5 * groups
    ensures now == Unpack(src) + orig[4 * groups..]
  {
    assert src[..5 * groups] == src;
  }

  lemma {:induction false} UnpackOneMore(src: seq<Byte>, groups: nat)
    requires 5 * groups + 5 <= |src|
    ensures var s := 5 * groups; Unpack(src[..s + 5]) == Unpack(src[..s]) + UnpackGroup(src[s..s + 5])
  {
    hide UnpackGroup;
    var s := 5 * groups;
    var g := src[s..s + 5];
    assert src[..s + 5] == src[..s] + g;
    UnpackAppend(src[..s], g, groups);
    assert g[..5] == g;
  }

  method StoreWords(src: seq<Byte>, dst: array<Word>, ghost orig: seq<Word>, ghost groups: nat, i: nat, w: seq<Word>)
    requires UnpackedTo(dst[..], orig, src, groups) && 5 * groups + 5 <= |src| && i == 4 * groups
    requires w == UnpackGroup(src[5 * groups..5 * groups + 5]) && i + 4 <= dst.Length == |orig|
    modifies dst
    ensures UnpackedTo(dst[..], orig, src, groups + 1)
  {
    hide UnpackedTo, Unpack, UnpackGroup;
    ghost var now := dst[..];
    Store(dst, i, w);
    UnpackedMore(now, dst[..], orig, src, groups);
  }

  method ScalarUnpack10(src: seq<Byte>, count: nat, dst: array<Word>, ghost n: nat)
    requires count == 4 * n <= dst.Length && |src| == 5 * n
    modifies dst
    ensures dst[..] == Unpack(src) + old(dst[4 * n..])
  {
    hide UnpackedTo, Unpack, UnpackGroup, ScalarWords;
    ghost var orig, groups := dst[..], 0;
    UnpackedNothing(orig, src);
    var i, s := 0, 0;
    while i + 4 <= count
      invariant groups <= n && i == 4 * groups && s == 5 * groups
      invariant UnpackedTo(dst[..], orig, src, groups)
    {
      ScalarWordsCorrect(src[s..s + 5]);
      StoreWords(src, dst, orig, groups, i, ScalarWords(src[s..s + 5]));
      i, s, groups := i + 4, s + 5, groups + 1;
    }
    UnpackedAll(dst[..], orig, src, groups);
  }

  // ---------------------------------------------------------------------------
  // The 64-bit fast path
  // ---------------------------------------------------------------------------

  /** The eight bytes of a 64-bit number, big-endian. */
  function BigEndian64(v: nat): (r: seq<Byte>)
    requires v < 0x1_0000_0000_0000_0000
    ensures |r| == 8
  {
    var y := v / 0x100_0000;
    var z := v / 256;
    BytesOf(y) + [z / 256 % 256, z % 256, v % 256]
  }

  /** The 64-bit number that eight bytes are, big-endian. */
  function Load64(b: seq<Byte>): nat
    requires |b| == 8
  {
    ((BytesValue(b[..5]) * 256 + b[5]) * 256 + b[6]) * 256 + b[7]
  }

  /** The four words the fast path takes from a 64-bit load. */
  function LoadedWords(b: seq<Byte>): (r: seq<Word>)
    requires |b| == 8
    ensures |r| == 4
  {
    Top40(b);
    WordsOf(Load64(b) / 0x100_0000)
  }

  lemma {:induction false} Top40(b: seq<Byte>)
    requires |b| == 8
    ensures Load64(b) / 0x100_0000 == BytesValue(b[..5])
  {
    hide BytesValue;
    var b5: nat, b6: nat := b[5], b[6];
    DivModUnique(Load64(b), BytesValue(b[..5]), (b5 * 256 + b6) * 256 + b[7], 0x100_0000);
  }

  // The 40 bits moved to the top of a 64-bit store: five bytes and three zeros.
  lemma {:induction false} GroupStore(w: seq<Word>)
    requires |w| == 4
    ensures BigEndian64(GroupValue(w) * 0x100_0000) == PackGroup(w) + [0, 0, 0]
  {
    var v := GroupValue(w);
    hide BytesOf, GroupValue;
    DivMod(v, 0, 0x100_0000);
    DivModUnique(v * 0x100_0000, v * 0x1_0000, 0, 256);
    DivModUnique(v * 0x1_0000, v * 256, 0, 256);
    DivMod(v, 0, 256);
  }

  lemma {:induction false} GroupLoad(src: seq<Byte>, s: nat)
    requires s + 8 <= |src|
    ensures LoadedWords(src[s..s + 8]) == UnpackGroup(src[s..s + 5])
  {
    hide BytesValue, WordsOf, Load64;
    Top40(src[s..s + 8]);
    assert src[s..s + 8][..5] == src[s..s + 5];
  }

  /** Where the last eight-byte store of the fast packer ends, or load of the fast unpacker,
    * relative to the start of the bytes. */
  function BulkEnd(count: nat): nat {
    if count <= 4 then 0 else (count - 5) / 4 * 5 + 8
  }

  /** The bytes the fast packer stores into, and the fast unpacker reads. */
  function Room(count: nat): (r: nat)
    ensures count / 4 * 5 <= r && BulkEnd(count) <= r
  {
    if BulkEnd(count) > count / 4 * 5 then BulkEnd(count) else count / 4 * 5
  }

  /** The fast forms stay inside count/4*5 bytes exactly on whole groups, or when there are
    * too few words for an eight-byte store or load. */
  lemma BulkFits(count: nat)
    ensures BulkEnd(count) <= count / 4 * 5 <==> count % 4 == 0 || count < 4
  {
    var g, r := count / 4, count % 4;
    if count > 4 && r > 0 {
      DivModUnique(count - 5, g - 1, r - 1, 4);
    } else if count > 4 {
      DivModUnique(count - 5, g - 2, 3, 4);
    }
  }

  // Where the eight bytes of group `groups` end, if it is a bulk one, and if it is the last.
  lemma BulkAt(count: nat, groups: nat)
    requires 4 * groups + 4 < count
    ensures 5 * groups + 8 <= BulkEnd(count)
    ensures 4 * groups + 8 >= count ==> 5 * groups + 8 == BulkEnd(count)
  {
    var k := (count - 5) / 4;
    assert count - 5 == 4 * k + (count - 5) % 4;
    assert groups <= k && (4 * groups + 8 >= count ==> groups == k);
  }

  /** The bulk loop of the fast packer, on any number of words: whole eight-byte stores, of
    * which five bytes are kept and three are overwritten by the next group.  `end` is where
    * the last of them ends. */
  method PackBulk(src: seq<Word>, dst: array<Byte>, at: nat) returns (i: nat, d: nat, ghost groups: nat, ghost end: nat)
    requires at + Room(|src|) <= dst.Length
    modifies dst
    ensures i == 4 * groups <= |src| < i + 5 && d == at + 5 * groups
    ensures end == BulkEnd(|src|)
    ensures PackedTo(dst[..], old(dst[..]), src, at, Room(|src|), groups)
  {
    hide PackedTo, Pack, PackGroup, GroupValue, BigEndian64, BulkEnd, Room;
    ghost var orig, room := dst[..], Room(|src|);
    PackedNothing(orig, src, at, room);
    NoBulk();
    i, d, groups, end := 0, at, 0, 0;
    var bulk := if |src| >= 4 then |src| - 4 else 0;
    while i < bulk
      invariant i == 4 * groups < bulk + 4 && d == at + 5 * groups
      invariant i >= bulk ==> end == BulkEnd(|src|)
      invariant PackedTo(dst[..], orig, src, at, room, groups)
    {
      BulkAt(|src|, groups);
      GroupStore(src[i..i + 4]);
      StoreGroup(src, dst, orig, at, room, groups, d, BigEndian64(GroupValue(src[i..i + 4]) * 0x100_0000), [0, 0, 0]);
      end := d + 8 - at;
      i, d, groups := i + 4, d + 5, groups + 1;
    }
  }

  lemma NoBulk()
    ensures forall count: nat :: count <= 4 ==> BulkEnd(count) == 0
  {}

  /** The fast packer: the bulk loop for all groups but the last, which takes the exact path.
    * On any number of words it keeps to its room and packs the whole groups. */
  method FastPack10(src: seq<Word>, dst: array<Byte>, at: nat, ghost n: nat)
    requires 4 * n <= |src| < 4 * n + 4 && at + Room(|src|) <= dst.Length
    modifies dst
    ensures dst[..at] == old(dst[..at]) && dst[at + Room(|src|)..] == old(dst[at + Room(|src|)..])
    ensures at + 5 * n <= dst.Length && dst[at..at + 5 * n] == Pack(src)
    ensures |src| == 4 * n ==> dst[..] == old(dst[..at]) + Pack(src) + old(dst[at + 5 * n..])
  {
    hide PackedTo, Pack, PackGroup, ScalarBytes, GroupValue, BigEndian64, BulkEnd, Room;
    ghost var orig, room := dst[..], Room(|src|);
    var i, d;
    ghost var groups, end;
    i, d, groups, end := PackBulk(src, dst, at);
    while i + 4 <= |src|
      invariant groups <= n && i == 4 * groups && d == at + 5 * groups
      invariant PackedTo(dst[..], orig, src, at, room, groups)
    {
      ScalarBytesCorrect(src[i..i + 4]);
      StoreGroup(src, dst, orig, at, room, groups, d, ScalarBytes(src[i..i + 4]), []);
      i, d, groups := i + 4, d + 5, groups + 1;
    }
    PackedWhole(dst[..], orig, src, at, room, groups);
    if |src| == 4 * n {
      WholeRoom(|src|, n);
      PackedAll(dst[..], orig, src, at, room, groups);
    }
  }

  lemma WholeRoom(count: nat, n: nat)
    requires count == 4 * n
    ensures Room(count) == 5 * n
  {
    BulkFits(count);
  }

  lemma {:induction false} PackedWhole(now: seq<Byte>, orig: seq<Byte>, src: seq<Word>, at: nat, room: nat, groups: nat)
    requires PackedTo(now, orig, src, at, room, groups) && |src| < 4 * groups + 4
    ensures at + 5 * groups <= at + room <= |now| == |orig| && now[at..at + 5 * groups] == Pack(src)
    ensures now[..at] == orig[..at] && now[at + room..] == orig[at + room..]
  {
    PackShortTail(src, groups);
  }

  /** The bulk loop of the fast unpacker, on any number of words: whole eight-byte loads, of
    * which five bytes count.  `end` is where the last of them ends. */
  method UnpackBulk(src: seq<Byte>, count: nat, dst: array<Word>)
      returns (i: nat, s: nat, ghost groups: nat, ghost end: nat)
    requires count <= dst.Length && Room(count) <= |src|
    modifies dst
    ensures i == 4 * groups <= count < i + 5 && s == 5 * groups
    ensures end == BulkEnd(count)
    ensures UnpackedTo(dst[..], old(dst[..]), src, groups)
  {
    hide UnpackedTo, Unpack, UnpackGroup, LoadedWords, BulkEnd, Room;
    ghost var orig := dst[..];
    UnpackedNothing(orig, src);
    NoBulk();
    i, s, groups, end := 0, 0, 0, 0;
    var bulk := if count >= 4 then count - 4 else 0;
    while i < bulk
      invariant i == 4 * groups < bulk + 4 && s == 5 * groups
      invariant i >= bulk ==> end == BulkEnd(count)
      invariant UnpackedTo(dst[..], orig, src, groups)
    {
      BulkAt(count, groups);
      GroupLoad(src, s);
      StoreWords(src, dst, orig, groups, i, LoadedWords(src[s..s + 8]));
      end := s + 8;
      i, s, groups := i + 4, s + 5, groups + 1;
    }
  }

  /** The fast unpacker: the bulk loop for all groups but the last, which takes the exact path.
    * On any number of words it reads nothing past its room and unpacks the whole groups. */
  method FastUnpack10(src: seq<Byte>, count: nat, dst: array<Word>, ghost n: nat)
    requires 4 * n <= count < 4 * n + 4 && count <= dst.Length && Room(count) <= |src|
    modifies dst
    ensures 5 * n <= |src| && dst[..] == Unpack(src[..5 * n]) + old(dst[4 * n..])
    ensures |src| == 5 * n ==> dst[..] == Unpack(src) + old(dst[4 * n..])
  {
    hide UnpackedTo, Unpack, UnpackGroup, ScalarWords, BulkEnd, Room;
    ghost var orig := dst[..];
    var i, s;
    ghost var groups, end;
    i, s, groups, end := UnpackBulk(src, count, dst);
    assert 5 * n <= |src| by { assert count / 4 == n; }
    while i + 4 <= count
      invariant groups <= n && i == 4 * groups && s == 5 * groups
      invariant UnpackedTo(dst[..], orig, src, groups)
    {
      ScalarWordsCorrect(src[s..s + 5]);
      StoreWords(src, dst, orig, groups, i, ScalarWords(src[s..s + 5]));
      i, s, groups := i + 4, s + 5, groups + 1;
    }
    UnpackedWhole(dst[..], orig, src, groups);
    assert |src| == 5 * n ==> src[..5 * n] == src;
  }

  lemma {:induction false} UnpackedWhole(now: seq<Word>, orig: seq<Word>, src: seq<Byte>, groups: nat)
    requires UnpackedTo(now, orig, src, groups)
    ensures 5 * groups <= |src| && now == Unpack(src[..5 * groups]) + orig[4 * groups..]
  {}
}
