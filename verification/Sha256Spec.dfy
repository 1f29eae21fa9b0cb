/**
 SHA-256 as FIPS 180-4 defines it, by recursion over rounds and blocks. Section numbers below are
 those of FIPS 180-4.
 */
module Sha256Spec {
  import opened Bytes
  import opened Sha256Constants

  const LENGTH_LIMIT: int := 0x2000_0000_0000_0000

  // ----- Section 3.2: addition of words, modulo 2^32 -----

  function Plus(x: Word, y: Word): Word { x + y }

  /** The sum in a wider word, cut to 32 bits. */
  lemma PlusWraps(x: Word, y: Word)
    ensures Plus(x, y) as bv64 == (x as bv64 + y as bv64) & 0xffff_ffff
  {}

  function Plus4(x: Word, y: Word, z: Word, w: Word): Word { x + y + z + w }

  // ----- Section 4.1.2: functions -----

  function ROTR(n: Word, x: Word): Word
    requires n <= 32
  {
    (x >> n) | (x << (32 - n))
  }

  function Ch(x: Word, y: Word, z: Word): Word { (x & y) ^ (!x & z) }

  function Maj(x: Word, y: Word, z: Word): Word { (x & y) ^ (x & z) ^ (y & z) }

  function BigSigma0(x: Word): Word { ROTR(2, x) ^ ROTR(13, x) ^ ROTR(22, x) }

  function BigSigma1(x: Word): Word { ROTR(6, x) ^ ROTR(11, x) ^ ROTR(25, x) }

  function SmallSigma0(x: Word): Word { ROTR(7, x) ^ ROTR(18, x) ^ (x >> 3) }

  function SmallSigma1(x: Word): Word { ROTR(17, x) ^ ROTR(19, x) ^ (x >> 10) }

  // ----- Section 5.1.1: padding -----

  /** The octets of zero bits that follow the octet holding the single one bit. */
  function ZeroOctets(n: nat): nat {
    (119 - n % 64) % 64
  }

  function Zeros(n: nat): (r: seq<Byte>)
    ensures |r| == n && forall i :: 0 <= i < n ==> r[i] == 0
  {
    seq(n, _ => 0)
  }

  /** `count` octets of `n`, most significant first. */
  function BigEndian(n: nat, count: nat): (r: seq<Byte>)
    ensures |r| == count
  {
    if count == 0 then [] else BigEndian(n / 0x100, count - 1) + [n % 0x100]
  }

  /** Everything appended to a message of `n` octets. */
  function Padding(n: nat): seq<Byte> {
    [0x80] + Zeros(ZeroOctets(n)) + BigEndian(8 * n, 8)
  }

  function Padded(message: seq<Byte>): seq<Byte> {
    message + Padding(|message|)
  }

  // ----- Sections 5.2.1, 5.3.3 and 6.2.2: blocks, initial value, hash computation -----

  const H0: State := State(INITIAL[0], INITIAL[1], INITIAL[2], INITIAL[3],
                           INITIAL[4], INITIAL[5], INITIAL[6], INITIAL[7])

  datatype State = State(a: Word, b: Word, c: Word, d: Word, e: Word, f: Word, g: Word, h: Word)

  /** The big-endian word in the four octets of `m` from `at`. */
  function WordAt(m: seq<Byte>, at: nat): Word
    requires at + 4 <= |m|
  {
    (m[at] as Word << 24) | (m[at + 1] as Word << 16) | (m[at + 2] as Word << 8) | m[at + 3] as Word
  }

  /** Word `t` of the message schedule of the block of `m` that starts at `block`. */
  function W(m: seq<Byte>, block: nat, t: nat): Word
    requires block + 64 <= |m|
  {
    if t < 16 then WordAt(m, block + 4 * t)
    else Plus4(SmallSigma1(W(m, block, t - 2)), W(m, block, t - 7), SmallSigma0(W(m, block, t - 15)),
               W(m, block, t - 16))
  }

  function Round(s: State, k: Word, w: Word): State {
    var t1 := Plus(Plus(Plus(Plus(s.h, BigSigma1(s.e)), Ch(s.e, s.f, s.g)), k), w);
    var t2 := Plus(BigSigma0(s.a), Maj(s.a, s.b, s.c));
    State(Plus(t1, t2), s.a, s.b, s.c, Plus(s.d, t1), s.e, s.f, s.g)
  }

  /** The working variables after the first `t` rounds. */
  function Rounds(s: State, m: seq<Byte>, block: nat, t: nat): State
    requires block + 64 <= |m| && t <= 64
  {
    if t == 0 then s else Round(Rounds(s, m, block, t - 1), K(t - 1), W(m, block, t - 1))
  }

  function Add(x: State, y: State): State {
    State(Plus(x.a, y.a), Plus(x.b, y.b), Plus(x.c, y.c), Plus(x.d, y.d),
          Plus(x.e, y.e), Plus(x.f, y.f), Plus(x.g, y.g), Plus(x.h, y.h))
  }

  function Compress(s: State, m: seq<Byte>, block: nat): State
    requires block + 64 <= |m|
  {
    Add(s, Rounds(s, m, block, 64))
  }

  /** The hash value after the first `n` blocks of `m`. */
  function Blocks(m: seq<Byte>, n: nat): State
    requires 64 * n <= |m|
  {
    if n == 0 then H0 else Compress(Blocks(m, n - 1), m, 64 * (n - 1))
  }

  function Digest(message: seq<Byte>): State {
    var m := Padded(message);
    Blocks(m, |m| / 64)
  }

  // ----- The digest as text: eight hexadecimal digits a word, most significant first -----

  function HexChar(n: Word): char {
    if n == 0 then '0' else if n == 1 then '1' else if n == 2 then '2' else if n == 3 then '3'
    else if n == 4 then '4' else if n == 5 then '5' else if n == 6 then '6' else if n == 7 then '7'
    else if n == 8 then '8' else if n == 9 then '9' else if n == 10 then 'a' else if n == 11 then 'b'
    else if n == 12 then 'c' else if n == 13 then 'd' else if n == 14 then 'e' else 'f'
  }

  function HexWord(w: Word): (r: string)
    ensures |r| == 8
  {
    [HexChar(Nibble(w, 28)), HexChar(Nibble(w, 24)), HexChar(Nibble(w, 20)), HexChar(Nibble(w, 16)),
     HexChar(Nibble(w, 12)), HexChar(Nibble(w, 8)), HexChar(Nibble(w, 4)), HexChar(Nibble(w, 0))]
  }

  /** The four bits above the lowest `shift`. */
  function Nibble(w: Word, shift: Word): Word
    requires shift <= 32
  {
    (w >> shift) & 0xf
  }

  function Words(s: State): seq<Word> {
    [s.a, s.b, s.c, s.d, s.e, s.f, s.g, s.h]
  }

  function HexWords(words: seq<Word>): string {
    if words == [] then "" else HexWord(words[0]) + HexWords(words[1..])
  }

  function Hex(s: State): string {
    HexWords(Words(s))
  }

  // ----- Properties of padding and of the text form -----

  /** The number that octets spell, most significant first. */
  function FromBigEndian(b: seq<Byte>): nat {
    if b == [] then 0 else FromBigEndian(b[..|b| - 1]) * 0x100 + b[|b| - 1]
  }

  function Pow256(k: nat): (p: nat)
    ensures p > 0
  {
    if k == 0 then 1 else 0x100 * Pow256(k - 1)
  }

  lemma {:induction false} BigEndianRoundTrip(n: nat, count: nat)
    requires n < Pow256(count)
    ensures FromBigEndian(BigEndian(n, count)) == n
  {
    if count > 0 {
      BigEndianRoundTrip(n / 0x100, count - 1);
      var b := BigEndian(n, count);
      assert b[..|b| - 1] == BigEndian(n / 0x100, count - 1);
    }
  }

  lemma LengthFitsEightOctets(n: nat)
    requires n < LENGTH_LIMIT
    ensures 8 * n < Pow256(8)
  {
    assert Pow256(4) == 0x1_0000_0000 by { assert Pow256(2) == 0x1_0000; }
    assert Pow256(6) == 0x1_0000_0000_0000;
    assert Pow256(8) == 0x1_0000_0000_0000_0000;
  }

  /** The last eight octets of a padded message give back the length of the message. */
  lemma PaddedTail(m: seq<Byte>)
    requires |m| < LENGTH_LIMIT
    ensures |Padded(m)| >= 8
    ensures FromBigEndian(Padded(m)[|Padded(m)| - 8..]) == 8 * |m|
  {
    LengthFitsEightOctets(|m|);
    BigEndianRoundTrip(8 * |m|, 8);
    var p := Padded(m);
    assert p[|p| - 8..] == BigEndian(8 * |m|, 8);
  }

  /** `ZeroOctets(n)` is the least count that completes a block. */
  lemma ZeroOctetsLeast(n: nat, zeros: nat)
    ensures (n + 9 + ZeroOctets(n)) % 64 == 0
    ensures (n + 9 + zeros) % 64 == 0 ==> ZeroOctets(n) <= zeros
  {
    var q, r := n / 64, n % 64;
    assert n == 64 * q + r;
    var z := ZeroOctets(n);
    if r <= 55 {
      assert z == 55 - r;
      assert n + 9 + z == 64 * (q + 1);
    } else {
      assert z == 119 - r;
      assert n + 9 + z == 64 * (q + 2);
    }
    if (n + 9 + zeros) % 64 == 0 {
      var k := (n + 9 + zeros) / 64;
      assert n + 9 + zeros == 64 * k;
    }
  }

  /**
   Padding is the shortest extension of the required form: whole blocks, and no smaller count of
   zero octets gives whole blocks.
   */
  lemma PaddingIsShortest(m: seq<Byte>, zeros: nat)
    requires |m + [0x80] + Zeros(zeros) + BigEndian(8 * |m|, 8)| % 64 == 0
    ensures |Padded(m)| % 64 == 0
    ensures m + [0x80] <= Padded(m)
    ensures ZeroOctets(|m|) < 64
    ensures |Padded(m)| <= |m + [0x80] + Zeros(zeros) + BigEndian(8 * |m|, 8)|
  {
    var n, tail := |m|, BigEndian(8 * |m|, 8);
    assert |m + [0x80] + Zeros(zeros) + tail| == n + 9 + zeros;
    assert |Padded(m)| == n + 9 + ZeroOctets(n);
    ZeroOctetsLeast(n, zeros);
  }

  lemma PaddedShape(m: seq<Byte>)
    ensures |Padded(m)| == |m| + 9 + ZeroOctets(|m|) && m == Padded(m)[..|m|]
  {}

  /** No padded message is a suffix of another; in particular padding is injective. */
  lemma PaddingSuffixFree(x: seq<Byte>, y: seq<Byte>, front: seq<Byte>)
    requires |x| < LENGTH_LIMIT && |y| < LENGTH_LIMIT
    requires Padded(y) == front + Padded(x)
    ensures front == [] && x == y
  {
    PaddedTail(x);
    PaddedTail(y);
    PaddedShape(x);
    PaddedShape(y);
    hide Padded, FromBigEndian, ZeroOctets;
    var px, py := Padded(x), Padded(y);
    assert py[|py| - 8..] == px[|px| - 8..];
    assert |x| == |y|;
    assert |px| == |py|;
  }

  function DigitValue(c: char): Word {
    match c
    case '0' => 0 case '1' => 1 case '2' => 2 case '3' => 3 case '4' => 4 case '5' => 5 case '6' => 6 case '7' => 7
    case '8' => 8 case '9' => 9 case 'a' => 10 case 'b' => 11 case 'c' => 12 case 'd' => 13 case 'e' => 14
    case _ => 15
  }

  /** The eight digits read from the left spell the word. */
  function ReadWord(text: string): Word {
    if text == "" then 0 else (ReadWord(text[..|text| - 1]) << 4) | DigitValue(text[|text| - 1])
  }

  lemma DigitReads(n: Word)
    requires n < 16
    ensures DigitValue(HexChar(n)) == n
  {}

  lemma HexWordReads(w: Word)
    ensures ReadWord(HexWord(w)) == w
  {
    ReadEight(HexWord(w));
    DigitReads(Nibble(w, 28));
    DigitReads(Nibble(w, 24));
    DigitReads(Nibble(w, 20));
    DigitReads(Nibble(w, 16));
    DigitReads(Nibble(w, 12));
    DigitReads(Nibble(w, 8));
    DigitReads(Nibble(w, 4));
    DigitReads(Nibble(w, 0));
    Recompose(w);
    hide HexChar, DigitValue, Nibble, ReadWord;
  }

  /** Four more digits behind `x`, four bits each. */
  function FourMore(x: Word, a: Word, b: Word, c: Word, d: Word): Word {
    (((((((x << 4) | a) << 4) | b) << 4) | c) << 4) | d
  }

  function Shifts(a: Word, b: Word, c: Word, d: Word, e: Word, f: Word, g: Word, h: Word): Word {
    FourMore(FourMore(0, a, b, c, d), e, f, g, h)
  }

  lemma Recompose(w: Word)
    ensures Shifts(Nibble(w, 28), Nibble(w, 24), Nibble(w, 20), Nibble(w, 16),
                   Nibble(w, 12), Nibble(w, 8), Nibble(w, 4), Nibble(w, 0)) == w
  {}

  lemma ReadEight(t: string)
    requires |t| == 8
    ensures ReadWord(t) == Shifts(DigitValue(t[0]), DigitValue(t[1]), DigitValue(t[2]), DigitValue(t[3]),
                                  DigitValue(t[4]), DigitValue(t[5]), DigitValue(t[6]), DigitValue(t[7]))
  {
    hide DigitValue, ReadWord, FourMore;
    ReadFour(t, 0);
    ReadFour(t, 4);
    ReadNothing(t);
    assert t == t[..8];
  }

  lemma ReadFour(t: string, i: nat)
    requires i + 4 <= |t|
    ensures ReadWord(t[..i + 4]) == FourMore(ReadWord(t[..i]), DigitValue(t[i]), DigitValue(t[i + 1]),
                                             DigitValue(t[i + 2]), DigitValue(t[i + 3]))
  {
    hide DigitValue, ReadWord;
    OneMore(t, i);
    OneMore(t, i + 1);
    OneMore(t, i + 2);
    OneMore(t, i + 3);
  }

  lemma OneMore(t: string, i: nat)
    requires i < |t|
    ensures ReadWord(t[..i + 1]) == (ReadWord(t[..i]) << 4) | DigitValue(t[i])
  {
    assert t[..i + 1][..i] == t[..i];
  }

  lemma ReadNothing(t: string)
    ensures ReadWord(t[..0]) == 0
  {}

  lemma HexWordInjective(v: Word, w: Word)
    requires HexWord(v) == HexWord(w)
    ensures v == w
  {
    HexWordReads(v);
    HexWordReads(w);
  }

  lemma SplitEqual<T>(a: seq<T>, b: seq<T>, c: seq<T>, d: seq<T>)
    requires |a| == |c| && a + b == c + d
    ensures a == c && b == d
  {
    assert a == (a + b)[..|a|] && c == (c + d)[..|a|];
    assert b == (a + b)[|a|..] && d == (c + d)[|a|..];
  }

  lemma {:induction false} HexWordsInjective(v: seq<Word>, w: seq<Word>)
    requires |v| == |w| && HexWords(v) == HexWords(w)
    ensures v == w
  {
    if v != [] {
      SplitEqual(HexWord(v[0]), HexWords(v[1..]), HexWord(w[0]), HexWords(w[1..]));
      HexWordInjective(v[0], w[0]);
      HexWordsInjective(v[1..], w[1..]);
      assert v == [v[0]] + v[1..] && w == [w[0]] + w[1..];
    }
  }

  /** Comparing digests as text is comparing digests. */
  lemma HexInjective(s: State, t: State)
    ensures Hex(s) == Hex(t) <==> s == t
  {
    if Hex(s) == Hex(t) {
      var v, w := Words(s), Words(t);
      HexWordsInjective(v, w);
      assert v[0] == w[0] && v[1] == w[1] && v[2] == w[2] && v[3] == w[3];
      assert v[4] == w[4] && v[5] == w[5] && v[6] == w[6] && v[7] == w[7];
    }
  }
}
