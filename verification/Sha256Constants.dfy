/**
 The constants of SHA-256 as tables, and the proof that they are what FIPS 180-4 calls for: the first
 32 bits of the fractional parts of the cube roots (section 4.2.2) and square roots (section 5.3.3)
 of the first primes.
 */
module Sha256Constants {
  type Word = bv32

  const ROW0: seq<Word> :=
    [0x428a2f98, 0x71374491, 0xb5c0fbcf, 0xe9b5dba5, 0x3956c25b, 0x59f111f1, 0x923f82a4, 0xab1c5ed5]
  const ROW1: seq<Word> :=
    [0xd807aa98, 0x12835b01, 0x243185be, 0x550c7dc3, 0x72be5d74, 0x80deb1fe, 0x9bdc06a7, 0xc19bf174]
  const ROW2: seq<Word> :=
    [0xe49b69c1, 0xefbe4786, 0x0fc19dc6, 0x240ca1cc, 0x2de92c6f, 0x4a7484aa, 0x5cb0a9dc, 0x76f988da]
  const ROW3: seq<Word> :=
    [0x983e5152, 0xa831c66d, 0xb00327c8, 0xbf597fc7, 0xc6e00bf3, 0xd5a79147, 0x06ca6351, 0x14292967]
  const ROW4: seq<Word> :=
    [0x27b70a85, 0x2e1b2138, 0x4d2c6dfc, 0x53380d13, 0x650a7354, 0x766a0abb, 0x81c2c92e, 0x92722c85]
  const ROW5: seq<Word> :=
    [0xa2bfe8a1, 0xa81a664b, 0xc24b8b70, 0xc76c51a3, 0xd192e819, 0xd6990624, 0xf40e3585, 0x106aa070]
  const ROW6: seq<Word> :=
    [0x19a4c116, 0x1e376c08, 0x2748774c, 0x34b0bcb5, 0x391c0cb3, 0x4ed8aa4a, 0x5b9cca4f, 0x682e6ff3]
  const ROW7: seq<Word> :=
    [0x748f82ee, 0x78a5636f, 0x84c87814, 0x8cc70208, 0x90befffa, 0xa4506ceb, 0xbef9a3f7, 0xc67178f2]

  function Row(n: nat): (r: seq<Word>)
    ensures |r| == 8
  {
    if n == 0 then ROW0 else if n == 1 then ROW1 else if n == 2 then ROW2 else if n == 3 then ROW3
    else if n == 4 then ROW4 else if n == 5 then ROW5 else if n == 6 then ROW6 else ROW7
  }

  /** The constant of round `t`. */
  function K(t: nat): Word
    requires t < 64
  {
    Row(t / 8)[t % 8]
  }

  const INITIAL: seq<Word> :=
    [0x6a09e667, 0xbb67ae85, 0x3c6ef372, 0xa54ff53a, 0x510e527f, 0x9b05688c, 0x1f83d9ab, 0x5be0cd19]

  // ----- The first primes -----

  predicate Prime(p: nat) {
    p >= 2 && forall d :: 2 <= d < p ==> p % d != 0
  }

  function PrimesBelow(n: nat): nat {
    if n == 0 then 0 else PrimesBelow(n - 1) + if Prime(n - 1) then 1 else 0
  }

  /** `p` is prime, and `t` primes are smaller. */
  predicate NthPrime(t: nat, p: nat) {
    Prime(p) && PrimesBelow(p) == t
  }

  /** Divided out by the primes up to 17. */
  predicate Sieved(n: nat) {
    n >= 2 && (n == 2 || n % 2 != 0) && (n == 3 || n % 3 != 0) && (n == 5 || n % 5 != 0)
    && (n == 7 || n % 7 != 0) && (n == 11 || n % 11 != 0) && (n == 13 || n % 13 != 0)
    && (n == 17 || n % 17 != 0)
  }

  lemma SmallFactor(n: nat, d: nat, e: nat)
    requires n == d * e && 2 <= d < n && d < 18
    ensures !Sieved(n)
  {
    hide Sieved;
    if d % 2 == 0 {
      assert n == 2 * (d / 2 * e);
      PrimeFactor(n, 2, d / 2 * e);
    } else if d % 3 == 0 {
      assert n == 3 * (d / 3 * e);
      PrimeFactor(n, 3, d / 3 * e);
    } else {
      PrimeFactor(n, d, e);
    }
  }

  lemma PrimeFactor(n: nat, a: nat, k: nat)
    requires n == a * k && a < n
    requires a == 2 || a == 3 || a == 5 || a == 7 || a == 11 || a == 13 || a == 17
    ensures !Sieved(n)
  {
    Remainder(a, k);
    DividedOut(n);
    hide Sieved;
  }

  lemma Remainder(a: nat, k: nat)
    requires a > 0
    ensures a * k % a == 0
  {
    var q, r := a * k / a, a * k % a;
    assert a * k == a * q + r;
    assert a * (k - q) == r;
    AtLeast(a, k - q);
    AtLeast(a, q - k);
  }

  lemma AtLeast(a: nat, m: int)
    ensures m >= 1 ==> a * m >= a
  {}

  lemma DividedOut(n: nat)
    ensures Sieved(n) ==> (n == 2 || n % 2 != 0) && (n == 3 || n % 3 != 0) && (n == 5 || n % 5 != 0)
    ensures Sieved(n) ==> (n == 7 || n % 7 != 0) && (n == 11 || n % 11 != 0) && (n == 13 || n % 13 != 0)
    ensures Sieved(n) ==> (n == 17 || n % 17 != 0)
  {}

  lemma ProductOfLarge(d: nat, e: nat)
    ensures d >= 18 && e >= 18 ==> d * e >= 324
  {}

  lemma Composite(n: nat, d: nat)
    requires 2 <= d < n < 324 && n % d == 0
    ensures !Sieved(n)
  {
    hide Sieved;
    var e := n / d;
    assert n == d * e && 2 <= e < n;
    ProductOfLarge(d, e);
    if d < 18 {
      SmallFactor(n, d, e);
    } else {
      SmallFactor(n, e, d);
    }
  }

  lemma SievedIsPrime(n: nat)
    requires n < 324
    ensures Sieved(n) <==> Prime(n)
  {
    if Sieved(n) {
      forall d | 2 <= d < n ensures n % d != 0 {
        if n % d == 0 {
          Composite(n, d);
        }
      }
    }
  }

  lemma NextPrime(t: nat, p: nat, q: nat)
    requires NthPrime(t, p) && p < q < 324 && Sieved(q) && forall n :: p < n < q ==> !Sieved(n)
    ensures NthPrime(t + 1, q)
  {
    NoneBetween(p, q);
    SievedIsPrime(q);
  }

  lemma {:induction false} NoneBetween(p: nat, q: nat)
    requires Prime(p) && p < q < 324 && forall n :: p < n < q ==> !Sieved(n)
    ensures PrimesBelow(q) == PrimesBelow(p) + 1
  {
    hide Sieved, Prime;
    if q > p + 1 {
      SievedIsPrime(q - 1);
      NoneBetween(p, q - 1);
    }
  }

  // ----- Fractional parts of roots -----

  /** `whole` and the 32 bits of `fraction` after the point are the cube root of `p`, rounded down. */
  predicate CubeRoot(p: nat, whole: nat, fraction: Word) {
    var n := whole * 0x1_0000_0000 + fraction as int;
    n * n * n <= p * 0x1_0000_0000_0000_0000_0000_0000 < (n + 1) * (n + 1) * (n + 1)
  }

  predicate SquareRoot(p: nat, whole: nat, fraction: Word) {
    var n := whole * 0x1_0000_0000 + fraction as int;
    n * n <= p * 0x1_0000_0000_0000_0000 < (n + 1) * (n + 1)
  }

  /** The eight primes from the one of index `t`. */
  predicate PrimesFrom(t: nat, p: seq<nat>) {
    |p| == 8 && NthPrime(t, p[0]) && NthPrime(t + 1, p[1]) && NthPrime(t + 2, p[2]) && NthPrime(t + 3, p[3])
    && NthPrime(t + 4, p[4]) && NthPrime(t + 5, p[5]) && NthPrime(t + 6, p[6]) && NthPrime(t + 7, p[7])
  }

  // The eight primes of each row, four at a time.

  lemma Primes0()
    ensures PrimesFrom(0, [2, 3, 5, 7, 11, 13, 17, 19])
  {
    assert Prime(2) && PrimesBelow(2) == 0;
    hide NthPrime;
    FirstPrimes();
    Primes0High();
  }

  lemma FirstPrimes()
    requires NthPrime(0, 2)
    ensures NthPrime(1, 3) && NthPrime(2, 5) && NthPrime(3, 7)
  {
    hide NthPrime;
    NextPrime(0, 2, 3);
    NextPrime(1, 3, 5);
    NextPrime(2, 5, 7);
  }

  lemma Primes0High()
    requires NthPrime(3, 7)
    ensures NthPrime(4, 11) && NthPrime(5, 13) && NthPrime(6, 17) && NthPrime(7, 19)
  {
    hide NthPrime;
    NextPrime(3, 7, 11);
    NextPrime(4, 11, 13);
    NextPrime(5, 13, 17);
    NextPrime(6, 17, 19);
  }

  lemma Primes1()
    ensures PrimesFrom(8, [23, 29, 31, 37, 41, 43, 47, 53])
  {
    hide NthPrime;
    Primes0();
    Primes1Low();
    Primes1High();
  }

  lemma Primes1Low()
    requires NthPrime(7, 19)
    ensures NthPrime(8, 23) && NthPrime(9, 29) && NthPrime(10, 31) && NthPrime(11, 37)
  {
    hide NthPrime;
    NextPrime(7, 19, 23);
    NextPrime(8, 23, 29);
    NextPrime(9, 29, 31);
    NextPrime(10, 31, 37);
  }

  lemma Primes1High()
    requires NthPrime(11, 37)
    ensures NthPrime(12, 41) && NthPrime(13, 43) && NthPrime(14, 47) && NthPrime(15, 53)
  {
    hide NthPrime;
    NextPrime(11, 37, 41);
    NextPrime(12, 41, 43);
    NextPrime(13, 43, 47);
    NextPrime(14, 47, 53);
  }

  lemma Primes2()
    ensures PrimesFrom(16, [59, 61, 67, 71, 73, 79, 83, 89])
  {
    hide NthPrime;
    Primes1();
    Primes2Low();
    Primes2High();
  }

  lemma Primes2Low()
    requires NthPrime(15, 53)
    ensures NthPrime(16, 59) && NthPrime(17, 61) && NthPrime(18, 67) && NthPrime(19, 71)
  {
    hide NthPrime;
    NextPrime(15, 53, 59);
    NextPrime(16, 59, 61);
    NextPrime(17, 61, 67);
    NextPrime(18, 67, 71);
  }

  lemma Primes2High()
    requires NthPrime(19, 71)
    ensures NthPrime(20, 73) && NthPrime(21, 79) && NthPrime(22, 83) && NthPrime(23, 89)
  {
    hide NthPrime;
    NextPrime(19, 71, 73);
    NextPrime(20, 73, 79);
    NextPrime(21, 79, 83);
    NextPrime(22, 83, 89);
  }

  lemma Primes3()
    ensures PrimesFrom(24, [97, 101, 103, 107, 109, 113, 127, 131])
  {
    hide NthPrime;
    Primes2();
    Primes3Low();
    Primes3High();
  }

  lemma Primes3Low()
    requires NthPrime(23, 89)
    ensures NthPrime(24, 97) && NthPrime(25, 101) && NthPrime(26, 103) && NthPrime(27, 107)
  {
    hide NthPrime;
    NextPrime(23, 89, 97);
    NextPrime(24, 97, 101);
    NextPrime(25, 101, 103);
    NextPrime(26, 103, 107);
  }

  lemma Primes3High()
    requires NthPrime(27, 107)
    ensures NthPrime(28, 109) && NthPrime(29, 113) && NthPrime(30, 127) && NthPrime(31, 131)
  {
    hide NthPrime;
    NextPrime(27, 107, 109);
    NextPrime(28, 109, 113);
    NextPrime(29, 113, 127);
    NextPrime(30, 127, 131);
  }

  lemma Primes4()
    ensures PrimesFrom(32, [137, 139, 149, 151, 157, 163, 167, 173])
  {
    hide NthPrime;
    Primes3();
    Primes4Low();
    Primes4High();
  }

  lemma Primes4Low()
    requires NthPrime(31, 131)
    ensures NthPrime(32, 137) && NthPrime(33, 139) && NthPrime(34, 149) && NthPrime(35, 151)
  {
    hide NthPrime;
    NextPrime(31, 131, 137);
    NextPrime(32, 137, 139);
    NextPrime(33, 139, 149);
    NextPrime(34, 149, 151);
  }

  lemma Primes4High()
    requires NthPrime(35, 151)
    ensures NthPrime(36, 157) && NthPrime(37, 163) && NthPrime(38, 167) && NthPrime(39, 173)
  {
    hide NthPrime;
    NextPrime(35, 151, 157);
    NextPrime(36, 157, 163);
    NextPrime(37, 163, 167);
    NextPrime(38, 167, 173);
  }

  lemma Primes5()
    ensures PrimesFrom(40, [179, 181, 191, 193, 197, 199, 211, 223])
  {
    hide NthPrime;
    Primes4();
    Primes5Low();
    Primes5High();
    Primes5Next();
    Primes5Last();
  }

  lemma Primes5Low()
    requires NthPrime(39, 173)
    ensures NthPrime(40, 179) && NthPrime(41, 181) && NthPrime(42, 191) && NthPrime(43, 193)
  {
    hide NthPrime;
    NextPrime(39, 173, 179);
    NextPrime(40, 179, 181);
    NextPrime(41, 181, 191);
    NextPrime(42, 191, 193);
  }

  lemma Primes5High()
    requires NthPrime(43, 193)
    ensures NthPrime(44, 197) && NthPrime(45, 199)
  {
    hide NthPrime;
    NextPrime(43, 193, 197);
    NextPrime(44, 197, 199);
  }

  lemma Primes5Next()
    requires NthPrime(45, 199)
    ensures NthPrime(46, 211)
  {
    hide NthPrime;
    NextPrime(45, 199, 211);
  }

  lemma Primes5Last()
    requires NthPrime(46, 211)
    ensures NthPrime(47, 223)
  {
    hide NthPrime;
    NextPrime(46, 211, 223);
  }

  lemma Primes6()
    ensures PrimesFrom(48, [227, 229, 233, 239, 241, 251, 257, 263])
  {
    hide NthPrime;
    Primes5();
    Primes6Low();
    Primes6High();
    Primes6Last();
  }

  lemma Primes6Low()
    requires NthPrime(47, 223)
    ensures NthPrime(48, 227) && NthPrime(49, 229) && NthPrime(50, 233) && NthPrime(51, 239)
  {
    hide NthPrime;
    NextPrime(47, 223, 227);
    NextPrime(48, 227, 229);
    NextPrime(49, 229, 233);
    NextPrime(50, 233, 239);
  }

  lemma Primes6High()
    requires NthPrime(51, 239)
    ensures NthPrime(52, 241) && NthPrime(53, 251)
  {
    hide NthPrime;
    NextPrime(51, 239, 241);
    NextPrime(52, 241, 251);
  }

  lemma Primes6Last()
    requires NthPrime(53, 251)
    ensures NthPrime(54, 257) && NthPrime(55, 263)
  {
    hide NthPrime;
    NextPrime(53, 251, 257);
    NextPrime(54, 257, 263);
  }

  lemma Primes7()
    ensures PrimesFrom(56, [269, 271, 277, 281, 283, 293, 307, 311])
  {
    hide NthPrime;
    Primes6();
    Primes7Low();
    Primes7High();
    Primes7Last();
  }

  lemma Primes7Low()
    requires NthPrime(55, 263)
    ensures NthPrime(56, 269) && NthPrime(57, 271) && NthPrime(58, 277) && NthPrime(59, 281)
  {
    hide NthPrime;
    NextPrime(55, 263, 269);
    NextPrime(56, 269, 271);
    NextPrime(57, 271, 277);
    NextPrime(58, 277, 281);
  }

  lemma Primes7High()
    requires NthPrime(59, 281)
    ensures NthPrime(60, 283) && NthPrime(61, 293)
  {
    hide NthPrime;
    NextPrime(59, 281, 283);
    NextPrime(60, 283, 293);
  }

  lemma Primes7Last()
    requires NthPrime(61, 293)
    ensures NthPrime(62, 307) && NthPrime(63, 311)
  {
    hide NthPrime;
    NextPrime(61, 293, 307);
    NextPrime(62, 307, 311);
  }

  /** The table holds the leading bits at each of the eight places of a row. */
  predicate CubeRoots(p: seq<nat>, whole: seq<nat>, row: seq<Word>) {
    |p| == 8 && |whole| == 8 && |row| == 8 && forall i :: 0 <= i < 8 ==> CubeRoot(p[i], whole[i], row[i])
  }

  lemma Roots0()
    ensures CubeRoots([2, 3, 5, 7, 11, 13, 17, 19], [1, 1, 1, 1, 2, 2, 2, 2], ROW0)
  {
    hide CubeRoot;
    Root(2, 0x1_428a2f98, 1, ROW0[0]);
    Root(3, 0x1_71374491, 1, ROW0[1]);
    Root(5, 0x1_b5c0fbcf, 1, ROW0[2]);
    Root(7, 0x1_e9b5dba5, 1, ROW0[3]);
    Root(11, 0x2_3956c25b, 2, ROW0[4]);
    Root(13, 0x2_59f111f1, 2, ROW0[5]);
    Root(17, 0x2_923f82a4, 2, ROW0[6]);
    Root(19, 0x2_ab1c5ed5, 2, ROW0[7]);
  }

  lemma Roots1()
    ensures CubeRoots([23, 29, 31, 37, 41, 43, 47, 53], [2, 3, 3, 3, 3, 3, 3, 3], ROW1)
  {
    hide CubeRoot;
    Root(23, 0x2_d807aa98, 2, ROW1[0]);
    Root(29, 0x3_12835b01, 3, ROW1[1]);
    Root(31, 0x3_243185be, 3, ROW1[2]);
    Root(37, 0x3_550c7dc3, 3, ROW1[3]);
    Root(41, 0x3_72be5d74, 3, ROW1[4]);
    Root(43, 0x3_80deb1fe, 3, ROW1[5]);
    Root(47, 0x3_9bdc06a7, 3, ROW1[6]);
    Root(53, 0x3_c19bf174, 3, ROW1[7]);
  }

  lemma Roots2()
    ensures CubeRoots([59, 61, 67, 71, 73, 79, 83, 89], [3, 3, 4, 4, 4, 4, 4, 4], ROW2)
  {
    hide CubeRoot;
    Root(59, 0x3_e49b69c1, 3, ROW2[0]);
    Root(61, 0x3_efbe4786, 3, ROW2[1]);
    Root(67, 0x4_0fc19dc6, 4, ROW2[2]);
    Root(71, 0x4_240ca1cc, 4, ROW2[3]);
    Root(73, 0x4_2de92c6f, 4, ROW2[4]);
    Root(79, 0x4_4a7484aa, 4, ROW2[5]);
    Root(83, 0x4_5cb0a9dc, 4, ROW2[6]);
    Root(89, 0x4_76f988da, 4, ROW2[7]);
  }

  lemma Roots3()
    ensures CubeRoots([97, 101, 103, 107, 109, 113, 127, 131], [4, 4, 4, 4, 4, 4, 5, 5], ROW3)
  {
    hide CubeRoot;
    Root(97, 0x4_983e5152, 4, ROW3[0]);
    Root(101, 0x4_a831c66d, 4, ROW3[1]);
    Root(103, 0x4_b00327c8, 4, ROW3[2]);
    Root(107, 0x4_bf597fc7, 4, ROW3[3]);
    Root(109, 0x4_c6e00bf3, 4, ROW3[4]);
    Root(113, 0x4_d5a79147, 4, ROW3[5]);
    Root(127, 0x5_06ca6351, 5, ROW3[6]);
    Root(131, 0x5_14292967, 5, ROW3[7]);
  }

  lemma Roots4()
    ensures CubeRoots([137, 139, 149, 151, 157, 163, 167, 173], [5, 5, 5, 5, 5, 5, 5, 5], ROW4)
  {
    hide CubeRoot;
    Root(137, 0x5_27b70a85, 5, ROW4[0]);
    Root(139, 0x5_2e1b2138, 5, ROW4[1]);
    Root(149, 0x5_4d2c6dfc, 5, ROW4[2]);
    Root(151, 0x5_53380d13, 5, ROW4[3]);
    Root(157, 0x5_650a7354, 5, ROW4[4]);
    Root(163, 0x5_766a0abb, 5, ROW4[5]);
    Root(167, 0x5_81c2c92e, 5, ROW4[6]);
    Root(173, 0x5_92722c85, 5, ROW4[7]);
  }

  lemma Roots5()
    ensures CubeRoots([179, 181, 191, 193, 197, 199, 211, 223], [5, 5, 5, 5, 5, 5, 5, 6], ROW5)
  {
    hide CubeRoot;
    Root(179, 0x5_a2bfe8a1, 5, ROW5[0]);
    Root(181, 0x5_a81a664b, 5, ROW5[1]);
    Root(191, 0x5_c24b8b70, 5, ROW5[2]);
    Root(193, 0x5_c76c51a3, 5, ROW5[3]);
    Root(197, 0x5_d192e819, 5, ROW5[4]);
    Root(199, 0x5_d6990624, 5, ROW5[5]);
    Root(211, 0x5_f40e3585, 5, ROW5[6]);
    Root(223, 0x6_106aa070, 6, ROW5[7]);
  }

  lemma Roots6()
    ensures CubeRoots([227, 229, 233, 239, 241, 251, 257, 263], [6, 6, 6, 6, 6, 6, 6, 6], ROW6)
  {
    hide CubeRoot;
    Root(227, 0x6_19a4c116, 6, ROW6[0]);
    Root(229, 0x6_1e376c08, 6, ROW6[1]);
    Root(233, 0x6_2748774c, 6, ROW6[2]);
    Root(239, 0x6_34b0bcb5, 6, ROW6[3]);
    Root(241, 0x6_391c0cb3, 6, ROW6[4]);
    Root(251, 0x6_4ed8aa4a, 6, ROW6[5]);
    Root(257, 0x6_5b9cca4f, 6, ROW6[6]);
    Root(263, 0x6_682e6ff3, 6, ROW6[7]);
  }

  lemma Roots7()
    ensures CubeRoots([269, 271, 277, 281, 283, 293, 307, 311], [6, 6, 6, 6, 6, 6, 6, 6], ROW7)
  {
    hide CubeRoot;
    Root(269, 0x6_748f82ee, 6, ROW7[0]);
    Root(271, 0x6_78a5636f, 6, ROW7[1]);
    Root(277, 0x6_84c87814, 6, ROW7[2]);
    Root(281, 0x6_8cc70208, 6, ROW7[3]);
    Root(283, 0x6_90befffa, 6, ROW7[4]);
    Root(293, 0x6_a4506ceb, 6, ROW7[5]);
    Root(307, 0x6_bef9a3f7, 6, ROW7[6]);
    Root(311, 0x6_c67178f2, 6, ROW7[7]);
  }

  lemma Root(p: nat, n: nat, whole: nat, fraction: Word)
    requires n == whole * 0x1_0000_0000 + fraction as int
    requires n * n * n <= p * 0x1_0000_0000_0000_0000_0000_0000 < (n + 1) * (n + 1) * (n + 1)
    ensures CubeRoot(p, whole, fraction)
  {}

  /** Every round constant: the first 32 bits of the fractional part of the cube root of the prime of its index. */
  lemma RoundConstant(t: nat)
    requires t < 64
    ensures exists p: nat, whole: nat :: NthPrime(t, p) && CubeRoot(p, whole, K(t))
  {
    var p, whole := RowRoots(t / 8);
    hide NthPrime, CubeRoot, Row;
    var i := t % 8;
    assert t == 8 * (t / 8) + i;
    assert NthPrime(t, p[i]) && CubeRoot(p[i], whole[i], K(t));
  }

  lemma RowRoots(r: nat) returns (p: seq<nat>, whole: seq<nat>)
    requires r < 8
    ensures PrimesFrom(8 * r, p) && CubeRoots(p, whole, Row(r))
  {
    hide PrimesFrom, CubeRoots;
    if r == 0 {
      Primes0();
      Roots0();
      p, whole := [2, 3, 5, 7, 11, 13, 17, 19], [1, 1, 1, 1, 2, 2, 2, 2];
    } else if r == 1 {
      Primes1();
      Roots1();
      p, whole := [23, 29, 31, 37, 41, 43, 47, 53], [2, 3, 3, 3, 3, 3, 3, 3];
    } else if r == 2 {
      Primes2();
      Roots2();
      p, whole := [59, 61, 67, 71, 73, 79, 83, 89], [3, 3, 4, 4, 4, 4, 4, 4];
    } else if r == 3 {
      Primes3();
      Roots3();
      p, whole := [97, 101, 103, 107, 109, 113, 127, 131], [4, 4, 4, 4, 4, 4, 5, 5];
    } else if r == 4 {
      Primes4();
      Roots4();
      p, whole := [137, 139, 149, 151, 157, 163, 167, 173], [5, 5, 5, 5, 5, 5, 5, 5];
    } else if r == 5 {
      Primes5();
      Roots5();
      p, whole := [179, 181, 191, 193, 197, 199, 211, 223], [5, 5, 5, 5, 5, 5, 5, 6];
    } else if r == 6 {
      Primes6();
      Roots6();
      p, whole := [227, 229, 233, 239, 241, 251, 257, 263], [6, 6, 6, 6, 6, 6, 6, 6];
    } else {
      Primes7();
      Roots7();
      p, whole := [269, 271, 277, 281, 283, 293, 307, 311], [6, 6, 6, 6, 6, 6, 6, 6];
    }
  }

  /** The initial hash value: the same bits of the square roots of the first eight primes. */
  lemma InitialValue(i: nat)
    requires i < 8
    ensures exists p: nat, whole: nat :: NthPrime(i, p) && SquareRoot(p, whole, INITIAL[i])
  {
    Primes0();
    SquareRoots0();
    SquareRoots4();
    hide NthPrime, SquareRoot;
    var p, whole := [2, 3, 5, 7, 11, 13, 17, 19], [1, 1, 2, 2, 3, 3, 4, 4];
    assert NthPrime(i, p[i]) && SquareRoot(p[i], whole[i], INITIAL[i]);
  }

  lemma SquareRoots0()
    ensures SquareRoot(2, 1, INITIAL[0])
    ensures SquareRoot(3, 1, INITIAL[1])
    ensures SquareRoot(5, 2, INITIAL[2])
    ensures SquareRoot(7, 2, INITIAL[3])
  {}

  lemma SquareRoots4()
    ensures SquareRoot(11, 3, INITIAL[4])
    ensures SquareRoot(13, 3, INITIAL[5])
    ensures SquareRoot(17, 4, INITIAL[6])
    ensures SquareRoot(19, 4, INITIAL[7])
  {}
}
