/**
 The Swift client's own SHA-256: a growing message, an in-place schedule of 64 words, eight rotating
 working variables and a hash array updated block by block.
 */
module Sha256 {
  import opened Bytes
  import opened Sha256Constants
  import opened Sha256Spec

  function RotateRight(value: Word, amount: Word): Word
    requires amount <= 32
  {
    (value >> amount) | (value << (32 - amount))
  }

  /** The eight words of the hash array as the state of the specification. */
  function StateOf(words: seq<Word>): State
    requires |words| == 8
  {
    State(words[0], words[1], words[2], words[3], words[4], words[5], words[6], words[7])
  }

  /** The digest in lower-case hexadecimal. Longer messages overflow the 64-bit length and trap. */
  method HexDigest(data: seq<Byte>) returns (hex: string)
    requires |data| < LENGTH_LIMIT
    ensures hex == Hex(Digest(data))
  {
    hide Compress, HexWords, Padding, BigEndian;
    var message := Pad(data);
    var hash := new Word[8] [0x6a09e667, 0xbb67ae85, 0x3c6ef372, 0xa54ff53a,
                             0x510e527f, 0x9b05688c, 0x1f83d9ab, 0x5be0cd19];
    assert StateOf(hash[..]) == H0;
    var offset := 0;
    while offset < |message|
      invariant 0 <= offset <= |message| && offset % 64 == 0
      invariant StateOf(hash[..]) == Blocks(message, offset / 64)
    {
      var words := FillWords(message, offset);
      CompressBlock(hash, words, message, offset);
      offset := offset + 64;
    }
    hex := HexText(hash[..]);
  }

  /** The padding loop and the eight length octets. */
  method Pad(data: seq<Byte>) returns (message: seq<Byte>)
    requires |data| < LENGTH_LIMIT
    ensures message == Padded(data) && |message| % 64 == 0
  {
    hide BigEndian, ZeroOctets, LengthOctets, Zeros, Padded;
    message := data;
    var bitLength: nat := |message| * 8;
    message := message + [0x80];
    ghost var zeros := 0;
    NoZeros(message);
    while |message| % 64 != 56
      invariant 0 <= zeros <= ZeroOctets(|data|)
      invariant message == data + [0x80] + Zeros(zeros)
      decreases ZeroOctets(|data|) - zeros
    {
      ZeroOctetsLeast(|data|, zeros);
      OneMoreZero(data + [0x80], zeros);
      message := message + [0];
      zeros := zeros + 1;
    }
    ZeroOctetsLeast(|data|, zeros);
    message := message + LengthOctets(bitLength);
    EightOctets(bitLength);
    PaddedEnds(data, zeros);
  }

  lemma NoZeros(x: seq<Byte>)
    ensures x == x + Zeros(0)
  {}

  lemma OneMoreZero(x: seq<Byte>, n: nat)
    ensures x + Zeros(n) + [0] == x + Zeros(n + 1)
  {}

  lemma PaddedEnds(data: seq<Byte>, zeros: nat)
    requires zeros == ZeroOctets(|data|)
    ensures data + [0x80] + Zeros(zeros) + BigEndian(8 * |data|, 8) == Padded(data)
  {
    hide ZeroOctets, BigEndian, Zeros;
  }

  /** A count shifted right by seven octets, six, and so on, each time cut to one octet. */
  function LengthOctets(n: nat): seq<Byte> {
    [(n / 0x100_0000_0000_0000) % 0x100, (n / 0x1_0000_0000_0000) % 0x100,
     (n / 0x100_0000_0000) % 0x100, (n / 0x1_0000_0000) % 0x100,
     (n / 0x100_0000) % 0x100, (n / 0x1_0000) % 0x100, (n / 0x100) % 0x100, n % 0x100]
  }

  /** Those are its octets in order. */
  lemma EightOctets(n: nat)
    ensures LengthOctets(n) == BigEndian(n, 8)
  {
    var n4 := n / 0x1_0000_0000;
    FourOctets(n, BigEndian(n4, 4), 4);
    FourOctets(n4, [], 0);
    Quotients(n);
    assert BigEndian(n4 / 0x1_0000_0000, 0) == [];
  }

  lemma Quotients(n: nat)
    ensures n / 0x1_0000_0000 / 0x100_0000 == n / 0x100_0000_0000_0000
    ensures n / 0x1_0000_0000 / 0x1_0000 == n / 0x1_0000_0000_0000
    ensures n / 0x1_0000_0000 / 0x100 == n / 0x100_0000_0000
  {}

  lemma FourOctets(n: nat, front: seq<Byte>, count: nat)
    requires front == BigEndian(n / 0x1_0000_0000, count)
    ensures BigEndian(n, count + 4) ==
            front + [(n / 0x100_0000) % 0x100, (n / 0x1_0000) % 0x100, (n / 0x100) % 0x100, n % 0x100]
  {
    var n1 := n / 0x100;
    var n2 := n1 / 0x100;
    var n3 := n2 / 0x100;
    assert n2 == n / 0x1_0000 && n3 == n / 0x100_0000 && n3 / 0x100 == n / 0x1_0000_0000;
    assert BigEndian(n3, count + 1) == front + [n3 % 0x100];
    assert BigEndian(n2, count + 2) == BigEndian(n3, count + 1) + [n2 % 0x100];
    assert BigEndian(n1, count + 3) == BigEndian(n2, count + 2) + [n1 % 0x100];
    assert BigEndian(n, count + 4) == BigEndian(n1, count + 3) + [n % 0x100];
  }

  /** The schedule: sixteen words of the block, then forty-eight from earlier ones, in place. */
  method FillWords(message: seq<Byte>, offset: nat) returns (words: array<Word>)
    requires offset + 64 <= |message|
    ensures fresh(words) && words.Length == 64
    ensures forall t :: 0 <= t < 64 ==> words[t] == W(message, offset, t)
  {
    hide W;
    words := new Word[64](_ => 0);
    LoadBlock(words, message, offset);
    ExtendSchedule(words, message, offset);
  }

  method LoadBlock(words: array<Word>, message: seq<Byte>, offset: nat)
    requires words.Length == 64 && offset + 64 <= |message|
    modifies words
    ensures forall t :: 0 <= t < 16 ==> words[t] == W(message, offset, t)
  {
    hide W, Joined;
    for index := 0 to 16
      invariant forall t :: 0 <= t < index ==> words[t] == W(message, offset, t)
    {
      BlockWord(message, offset, index);
      words[index] := Joined(message, offset + index * 4);
    }
  }

  /** Four octets as a word, the first one on top. */
  function Joined(message: seq<Byte>, start: nat): Word
    requires start + 4 <= |message|
  {
    (message[start] as Word << 24) | (message[start + 1] as Word << 16)
    | (message[start + 2] as Word << 8) | message[start + 3] as Word
  }

  method ExtendSchedule(words: array<Word>, ghost message: seq<Byte>, ghost offset: nat)
    requires words.Length == 64 && offset + 64 <= |message|
    requires forall t :: 0 <= t < 16 ==> words[t] == W(message, offset, t)
    modifies words
    ensures forall t :: 0 <= t < 64 ==> words[t] == W(message, offset, t)
  {
    hide RotateRight, SmallSigma0, SmallSigma1, Plus4, W;
    for index := 16 to 64
      invariant forall t :: 0 <= t < index ==> words[t] == W(message, offset, t)
    {
      var s0 := RotateRight(words[index - 15], 7) ^ RotateRight(words[index - 15], 18) ^ (words[index - 15] >> 3);
      var s1 := RotateRight(words[index - 2], 17) ^ RotateRight(words[index - 2], 19) ^ (words[index - 2] >> 10);
      ScheduleSigmas(words[index - 15], words[index - 2]);
      ScheduleStep(message, offset, index, words[index - 16], s0, words[index - 7], s1);
      words[index] := Plus4(words[index - 16], s0, words[index - 7], s1);
    }
  }

  lemma BlockWord(m: seq<Byte>, block: nat, t: nat)
    requires block + 64 <= |m| && t < 16
    ensures W(m, block, t) == Joined(m, block + t * 4)
  {}

  lemma ScheduleStep(m: seq<Byte>, block: nat, t: nat, w16: Word, s0: Word, w7: Word, s1: Word)
    requires block + 64 <= |m| && 16 <= t
    requires w16 == W(m, block, t - 16) && w7 == W(m, block, t - 7)
    requires s0 == SmallSigma0(W(m, block, t - 15)) && s1 == SmallSigma1(W(m, block, t - 2))
    ensures Plus4(w16, s0, w7, s1) == W(m, block, t)
  {
    hide Plus4, SmallSigma0, SmallSigma1, WordAt;
    Reorder(w16, s0, w7, s1);
  }

  lemma Reorder(x: Word, y: Word, z: Word, w: Word)
    ensures Plus4(x, y, z, w) == Plus4(w, z, y, x)
  {}

  lemma ScheduleSigmas(x: Word, y: Word)
    ensures RotateRight(x, 7) ^ RotateRight(x, 18) ^ (x >> 3) == SmallSigma0(x)
    ensures RotateRight(y, 17) ^ RotateRight(y, 19) ^ (y >> 10) == SmallSigma1(y)
  {
    hide RotateRight, ROTR;
    SameRotation(x, 7);
    SameRotation(x, 18);
    SameRotation(y, 17);
    SameRotation(y, 19);
  }

  lemma SameRotation(x: Word, n: Word)
    requires n <= 32
    ensures RotateRight(x, n) == ROTR(n, x)
  {}

  /** Sixty-four rounds over eight rotating variables, then the feed-forward into the hash array. */
  method CompressBlock(hash: array<Word>, words: array<Word>, ghost m: seq<Byte>, ghost block: nat)
    requires hash.Length == 8 && words.Length == 64 && hash != words
    requires block + 64 <= |m| && forall t :: 0 <= t < 64 ==> words[t] == W(m, block, t)
    modifies hash
    ensures StateOf(hash[..]) == Compress(old(StateOf(hash[..])), m, block)
  {
    hide RotateRight, Round, W, Plus, Ch, Maj, BigSigma0, BigSigma1, K;
    var a, b, c, d := hash[0], hash[1], hash[2], hash[3];
    var e, f, g, h := hash[4], hash[5], hash[6], hash[7];
    ghost var start := StateOf(hash[..]);
    for index := 0 to 64
      invariant hash[..] == old(hash[..])
      invariant State(a, b, c, d, e, f, g, h) == Rounds(start, m, block, index)
    {
      var sum1 := RotateRight(e, 6) ^ RotateRight(e, 11) ^ RotateRight(e, 25);
      var choice := (e & f) ^ (!e & g);
      var temporary1 := Plus(Plus(Plus(Plus(h, sum1), choice), K(index)), words[index]);
      var sum0 := RotateRight(a, 2) ^ RotateRight(a, 13) ^ RotateRight(a, 22);
      var majority := (a & b) ^ (a & c) ^ (b & c);
      var temporary2 := Plus(sum0, majority);
      BigSigmas(a, e);
      Selectors(e, f, g);
      Selectors(a, b, c);
      RoundStep(State(a, b, c, d, e, f, g, h), K(index), words[index], sum1, choice, sum0, majority);
      h := g;
      g := f;
      f := e;
      e := Plus(d, temporary1);
      d := c;
      c := b;
      b := a;
      a := Plus(temporary1, temporary2);
    }
    FeedForward(hash, State(a, b, c, d, e, f, g, h));
  }

  method FeedForward(hash: array<Word>, s: State)
    requires hash.Length == 8
    modifies hash
    ensures StateOf(hash[..]) == Add(old(StateOf(hash[..])), s)
  {
    hide Plus;
    hash[0], hash[1], hash[2], hash[3] :=
      Plus(hash[0], s.a), Plus(hash[1], s.b), Plus(hash[2], s.c), Plus(hash[3], s.d);
    hash[4], hash[5], hash[6], hash[7] :=
      Plus(hash[4], s.e), Plus(hash[5], s.f), Plus(hash[6], s.g), Plus(hash[7], s.h);
  }

  /** The round of the specification in the order the loop computes it. */
  lemma RoundStep(s: State, k: Word, w: Word, sum1: Word, choice: Word, sum0: Word, majority: Word)
    requires sum1 == BigSigma1(s.e) && choice == Ch(s.e, s.f, s.g)
    requires sum0 == BigSigma0(s.a) && majority == Maj(s.a, s.b, s.c)
    ensures var temporary1 := Plus(Plus(Plus(Plus(s.h, sum1), choice), k), w);
            var temporary2 := Plus(sum0, majority);
            Round(s, k, w) == State(Plus(temporary1, temporary2), s.a, s.b, s.c, Plus(s.d, temporary1), s.e, s.f, s.g)
  {
    hide Plus, BigSigma0, BigSigma1, Ch, Maj;
  }

  lemma Selectors(x: Word, y: Word, z: Word)
    ensures (x & y) ^ (!x & z) == Ch(x, y, z)
    ensures (x & y) ^ (x & z) ^ (y & z) == Maj(x, y, z)
  {}

  lemma BigSigmas(x: Word, y: Word)
    ensures RotateRight(x, 2) ^ RotateRight(x, 13) ^ RotateRight(x, 22) == BigSigma0(x)
    ensures RotateRight(y, 6) ^ RotateRight(y, 11) ^ RotateRight(y, 25) == BigSigma1(y)
  {
    hide RotateRight, ROTR;
    SameRotation(x, 2);
    SameRotation(x, 13);
    SameRotation(x, 22);
    SameRotation(y, 6);
    SameRotation(y, 11);
    SameRotation(y, 25);
  }

  /** `%08x` of every word, joined. */
  method HexText(words: seq<Word>) returns (hex: string)
    ensures hex == HexWords(words)
    ensures |words| == 8 ==> hex == Hex(StateOf(words))
  {
    hex := "";
    for i := 0 to |words|
      invariant hex + HexWords(words[i..]) == HexWords(words)
    {
      hex := hex + HexWord(words[i]);
      assert words[i..][1..] == words[i + 1..];
    }
    assert |words| == 8 ==> words == Words(StateOf(words));
  }
}
