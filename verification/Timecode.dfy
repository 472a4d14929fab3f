/** Ancillary timecode: the digits of a time in the user words of a packet. */
module Timecode {
  import opened Wrappers
  import opened Gf2
  import Crc

  datatype Fields = Fields(h: nat, m: nat, s: nat, f: nat)

  /** A frame count as a time of day; a negative count is midnight. */
  function FramesToFields(frames: int, fps: nat): (r: Fields)
    requires fps > 0
    ensures r.h < 24 && r.m < 60 && r.s < 60 && r.f < fps
  {
    var n := if frames < 0 then 0 else frames;
    var sec := n / fps;
    Fields(sec / 3600 % 24, sec / 60 % 60, sec % 60, n % fps)
  }

  function FieldsToFrames(h: nat, m: nat, s: nat, f: nat, fps: nat): nat {
    (h * 3600 + m * 60 + s) * fps + f
  }

  /** The digit goes to b7..b4, the low nibble stays, b8 is clear and b9 its complement. */
  function Put(w: Word, v: nat): (r: Word)
    ensures r < 1024
  {
    Crc.WithNotB8(v % 16 * 16 + w % 16)
  }

  function Nib(w: Word): nat { w / 16 % 16 }

  lemma PutReads(w: Word, v: nat)
    ensures Nib(Put(w, v)) == v % 16 && Put(w, v) % 16 == w % 16
    ensures Put(w, v) / 256 % 2 == 0 && Put(w, v) / 512 == 1
  {
    var d := v % 16;
    DivMod(d, w % 16, 16);
    assert Put(w, v) == 512 + d * 16 + w % 16;
    DivModUnique(512 + d * 16 + w % 16, 32 + d, w % 16, 16);
  }

  /** The user words with a time written into every other one of them. */
  function Written(udw: seq<Word>, t: Fields): (r: seq<Word>)
    requires |udw| == 16
    ensures |r| == 16
  {
    udw[0 := Put(udw[0], t.f % 10)][2 := Put(udw[2], t.f / 10 % 4)]
       [4 := Put(udw[4], t.s % 10)][6 := Put(udw[6], t.s / 10 % 8)]
       [8 := Put(udw[8], t.m % 10)][10 := Put(udw[10], t.m / 10 % 8)]
       [12 := Put(udw[12], t.h % 10)][14 := Put(udw[14], t.h / 10 % 4)]
  }

  function ReadAtc(udw: seq<Word>, fps: nat): nat
    requires |udw| >= 15
  {
    FieldsToFrames(Nib(udw[12]) + Nib(udw[14]) % 4 * 10, Nib(udw[8]) + Nib(udw[10]) % 8 * 10,
                   Nib(udw[4]) + Nib(udw[6]) % 8 * 10, Nib(udw[0]) + Nib(udw[2]) % 4 * 10, fps)
  }

  /** Every time stands in its packet digit by digit, ones before tens: frames in user words 1
    * and 3, seconds in 5 and 7, minutes in 9 and 11, hours in 13 and 15.  Forty frames and more
    * do not fit.  Nothing else of the packet changes. */
  lemma {:induction false} DigitsWritten(udw: seq<Word>, t: Fields)
    requires |udw| == 16
    ensures var u := Written(udw, t);
            && (t.h < 24 ==> u[12] / 16 % 16 + 10 * (u[14] / 16 % 16) == t.h)
            && (t.m < 60 ==> u[8] / 16 % 16 + 10 * (u[10] / 16 % 16) == t.m)
            && (t.s < 60 ==> u[4] / 16 % 16 + 10 * (u[6] / 16 % 16) == t.s)
            && (u[0] / 16 % 16 + 10 * (u[2] / 16 % 16) == t.f <==> t.f < 40)
            && forall k :: 0 <= k < 16 ==> u[k] % 16 == udw[k] % 16 && (k % 2 == 1 ==> u[k] == udw[k])
  {
    hide Put;
    Tens(udw[0], udw[2], t.f);
    Tens(udw[4], udw[6], t.s);
    Tens(udw[8], udw[10], t.m);
    Tens(udw[12], udw[14], t.h);
  }

  lemma Tens(w: Word, v: Word, x: nat)
    ensures Put(w, x % 10) % 16 == w % 16 && Put(v, x / 10 % 8) % 16 == v % 16 && Put(v, x / 10 % 4) % 16 == v % 16
    ensures x < 60 ==> Put(w, x % 10) / 16 % 16 + 10 * (Put(v, x / 10 % 8) / 16 % 16) == x
    ensures Put(w, x % 10) / 16 % 16 + 10 * (Put(v, x / 10 % 4) / 16 % 16) == x <==> x < 40
  {
    hide Put;
    DigitPut(w, x % 10);
    DigitPut(v, x / 10 % 8);
    DigitPut(v, x / 10 % 4);
    TensOfFrames(x);
    if x < 60 { Digits(x); }
  }

  lemma DigitPut(w: Word, d: nat)
    requires d < 16
    ensures Put(w, d) / 16 % 16 == d && Put(w, d) % 16 == w % 16
  {
    PutReads(w, d);
  }

  /** A packet with the digits of a time in those words reads as that time in frames. */
  lemma {:induction false} DigitsRead(u: seq<Word>, t: Fields, fps: nat)
    requires |u| >= 15 && t.h < 24 && t.m < 60 && t.s < 60 && t.f < 40
    requires u[12] / 16 % 16 == t.h % 10 && u[14] / 16 % 16 == t.h / 10
    requires u[8] / 16 % 16 == t.m % 10 && u[10] / 16 % 16 == t.m / 10
    requires u[4] / 16 % 16 == t.s % 10 && u[6] / 16 % 16 == t.s / 10
    requires u[0] / 16 % 16 == t.f % 10 && u[2] / 16 % 16 == t.f / 10
    ensures ReadAtc(u, fps) == ((t.h * 60 + t.m) * 60 + t.s) * fps + t.f
  {
    hide FieldsToFrames;
    SmallTens(t.h);
    SmallTens(t.m);
    SmallTens(t.s);
    SmallTens(t.f);
    InSeconds(t, fps);
  }

  lemma SmallTens(x: nat)
    requires x < 60
    ensures x % 10 + x / 10 * 10 == x && x / 10 % 8 == x / 10 && (x < 40 ==> x / 10 % 4 == x / 10)
  {}

  lemma InSeconds(t: Fields, fps: nat)
    ensures FieldsToFrames(t.h, t.m, t.s, t.f, fps) == ((t.h * 60 + t.m) * 60 + t.s) * fps + t.f
  {
    assert t.h * 3600 + t.m * 60 + t.s == (t.h * 60 + t.m) * 60 + t.s;
  }

  method WriteAtc(udw: array<Word>, t: Fields)
    requires udw.Length == 16
    modifies udw
    ensures udw[..] == Written(old(udw[..]), t)
    ensures t.h < 24 && t.m < 60 && t.s < 60 ==>
              && udw[12] / 16 % 16 + 10 * (udw[14] / 16 % 16) == t.h
              && udw[8] / 16 % 16 + 10 * (udw[10] / 16 % 16) == t.m
              && udw[4] / 16 % 16 + 10 * (udw[6] / 16 % 16) == t.s
              && (udw[0] / 16 % 16 + 10 * (udw[2] / 16 % 16) == t.f <==> t.f < 40)
    ensures forall k :: 0 <= k < 16 ==> udw[k] % 16 == old(udw[k]) % 16 && (k % 2 == 1 ==> udw[k] == old(udw[k]))
  {
    hide Put;
    DigitsWritten(udw[..], t);
    udw[0] := Put(udw[0], t.f % 10);
    udw[2] := Put(udw[2], t.f / 10 % 4);
    udw[4] := Put(udw[4], t.s % 10);
    udw[6] := Put(udw[6], t.s / 10 % 8);
    udw[8] := Put(udw[8], t.m % 10);
    udw[10] := Put(udw[10], t.m / 10 % 8);
    udw[12] := Put(udw[12], t.h % 10);
    udw[14] := Put(udw[14], t.h / 10 % 4);
  }

  /** Two bits hold the tens of frames: what is read back is what was written except
    * that forty frames are lost from every frame field of forty and up. */
  lemma {:induction false} ReadsBack(udw: seq<Word>, t: Fields, fps: nat)
    requires |udw| == 16 && t.h < 24 && t.m < 60 && t.s < 60
    ensures ReadAtc(Written(udw, t), fps)
            == FieldsToFrames(t.h, t.m, t.s, t.f / 10 % 4 * 10 + t.f % 10, fps)
  {
    hide Put, Nib, FieldsToFrames;
    PutReads(udw[0], t.f % 10);
    PutReads(udw[2], t.f / 10 % 4);
    PutReads(udw[4], t.s % 10);
    PutReads(udw[6], t.s / 10 % 8);
    PutReads(udw[8], t.m % 10);
    PutReads(udw[10], t.m / 10 % 8);
    PutReads(udw[12], t.h % 10);
    PutReads(udw[14], t.h / 10 % 4);
    var w := Written(udw, t);
    Digits(t.s);
    Digits(t.m);
    Digits(t.h);
    Nibbles(t.f);
    Nibbles(t.s);
    Nibbles(t.m);
    Nibbles(t.h);
  }

  // Each digit fits its four bits, and the tens their mask.
  lemma Nibbles(x: nat)
    ensures x % 10 % 16 == x % 10 && x / 10 % 4 % 16 % 4 == x / 10 % 4 && x / 10 % 8 % 16 % 8 == x / 10 % 8
  {
    var q := x / 10;
    assert q % 4 < 4 && q % 8 < 8;
  }

  lemma Digits(x: nat)
    requires x < 60
    ensures x / 10 % 8 * 10 + x % 10 == x && (x < 40 ==> x / 10 % 4 * 10 + x % 10 == x)
    ensures x / 10 % 4 < 4 && x / 10 % 8 < 8
  {}

  /** The fields of a count are the count, within a day. */
  lemma FieldsAreFrames(frames: int, fps: nat)
    requires fps > 0 && frames >= 0
    ensures var t := FramesToFields(frames, fps);
            && FieldsToFrames(t.h, t.m, t.s, t.f, fps) == frames % (86400 * fps)
            && ((t.h * 60 + t.m) * 60 + t.s) * fps + t.f == frames % (86400 * fps)
            && t.h < 24 && t.m < 60 && t.s < 60 && t.f < fps
  {
    hide FieldsToFrames, FramesToFields;
    var sec, f := frames / fps, frames % fps;
    FieldsOf(frames, fps, sec, f);
    DayOf(sec);
    FromSeconds(sec / 3600 % 24, sec / 60 % 60, sec % 60, f, fps, sec % 86400);
    WithinDay(frames, sec, f, sec / 86400, sec % 86400, fps);
  }

  lemma FieldsOf(frames: nat, fps: nat, sec: nat, f: nat)
    requires fps > 0 && sec == frames / fps && f == frames % fps
    ensures f < fps && frames == sec * fps + f
    ensures FramesToFields(frames, fps) == Fields(sec / 3600 % 24, sec / 60 % 60, sec % 60, f)
  {}

  lemma WithinDay(frames: nat, sec: nat, f: nat, day: nat, r: nat, fps: nat)
    requires f < fps && r < 86400 && frames == sec * fps + f && sec == day * 86400 + r
    ensures frames % (86400 * fps) == r * fps + f
  {
    Regroup(day, r, fps, f);
    DivModUnique(frames, day, r * fps + f, 86400 * fps);
  }

  lemma FromSeconds(h: nat, m: nat, s: nat, f: nat, fps: nat, r: nat)
    requires h * 3600 + m * 60 + s == r
    ensures FieldsToFrames(h, m, s, f, fps) == r * fps + f
  {}

  lemma DayOf(sec: nat)
    ensures sec / 3600 % 24 * 3600 + sec / 60 % 60 * 60 + sec % 60 == sec % 86400
  {
    var day, r := sec / 86400, sec % 86400;
    var hour, q := r / 3600, r % 3600;
    var min, left := q / 60, q % 60;
    DivModUnique(sec, day * 24 + hour, q, 3600);
    DivModUnique(day * 24 + hour, day, hour, 24);
    DivModUnique(sec, day * 1440 + hour * 60 + min, left, 60);
    DivModUnique(day * 1440 + hour * 60 + min, day * 24 + hour, min, 60);
  }

  lemma Regroup(day: nat, r: nat, fps: nat, f: nat)
    requires r < 86400 && f < fps
    ensures (day * 86400 + r) * fps + f == day * (86400 * fps) + (r * fps + f)
    ensures r * fps + f < 86400 * fps
  {
    assert (r + 1) * fps <= 86400 * fps;
  }

  /** A written time of day reads back, within a day, exactly when its frame field fits
    * the two tens bits. */
  lemma {:induction false} TimeReadsBack(udw: seq<Word>, frames: int, fps: nat)
    requires |udw| == 16 && fps > 0 && frames >= 0
    ensures ReadAtc(Written(udw, FramesToFields(frames, fps)), fps) == frames % (86400 * fps)
            <==> frames % fps < 40
  {
    hide Written, ReadAtc, FramesToFields;
    var t := FramesToFields(frames, fps);
    ReadsBack(udw, t, fps);
    FieldsAreFrames(frames, fps);
    FrameField(frames, fps);
    TensOfFrames(t.f);
  }

  lemma FrameField(frames: int, fps: nat)
    requires fps > 0 && frames >= 0
    ensures FramesToFields(frames, fps).f == frames % fps
  {}

  lemma TensOfFrames(f: nat)
    ensures f / 10 % 4 * 10 + f % 10 == f <==> f < 40
  {}

  /** So every time of day reads back exactly on formats of at most forty frames a second. */
  lemma {:induction false} AllTimesReadBack(udw: seq<Word>, fps: nat)
    requires |udw| == 16 && fps > 0
    ensures (forall frames: nat :: ReadAtc(Written(udw, FramesToFields(frames, fps)), fps) == frames % (86400 * fps))
            <==> fps <= 40
  {
    hide Written, ReadAtc, FramesToFields;
    forall frames: nat
      ensures ReadAtc(Written(udw, FramesToFields(frames, fps)), fps) == frames % (86400 * fps)
              <==> frames % fps < 40
    {
      TimeReadsBack(udw, frames, fps);
    }
    if fps > 40 {
      var last := fps - 1;
      assert last % fps == last;
      assert ReadAtc(Written(udw, FramesToFields(last, fps)), fps) != last % (86400 * fps);
    }
  }

  function Ones(v: nat, bits: nat): nat {
    if bits == 0 then 0 else v % 2 + Ones(v / 2, bits - 1)
  }

  /** The header promises even parity in b8; the writer leaves b8 clear, which is even
    * parity exactly for the words whose eight data bits are even in number. */
  lemma ParityIsNotWritten(w: Word, v: nat)
    ensures var p := Put(w, v);
            (Ones(p % 256, 8) + p / 256 % 2) % 2 == 0 <==> Ones(v % 16 * 16 + w % 16, 8) % 2 == 0
  {
    PutReads(w, v);
    hide Ones;
    var d := v % 16;
    assert Put(w, v) == 512 + d * 16 + w % 16;
    DivModUnique(Put(w, v), 2, d * 16 + w % 16, 256);
  }

  /** One digit that leaves the parity odd: a one over a clear low nibble. */
  lemma ParityFails()
    ensures var p := Put(0, 1); (Ones(p % 256, 8) + p / 256 % 2) % 2 == 1
  {
    assert Put(0, 1) == 528;
    assert Ones(16, 8) == Ones(8, 7) == Ones(4, 6) == Ones(2, 5) == Ones(1, 4);
    assert Ones(1, 4) == 1 + Ones(0, 3) && Ones(0, 3) == Ones(0, 2) == Ones(0, 1) == 0;
  }
}
