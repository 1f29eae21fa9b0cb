/** Octets, and the sequence facts every byte-level part of the model shares. */
module Bytes {

  /** One octet of a buffer. */
  type Byte = x: int | 0 <= x < 0x100

  datatype Option<+T> = None | Some(value: T)

  function Min(a: int, b: int): int {
    if a < b then a else b
  }

  function Max(a: int, b: int): int {
    if a < b then b else a
  }

  /** The first `limit` elements of `s`, or all of them when it is shorter; none for a negative limit. */
  function Take<T>(limit: int, s: seq<T>): seq<T> {
    if limit <= 0 then [] else s[..Min(limit, |s|)]
  }

  /** The stream that a sequence of chunks spells. */
  function Flatten<T>(chunks: seq<seq<T>>): seq<T> {
    if chunks == [] then [] else chunks[0] + Flatten(chunks[1..])
  }

  lemma {:induction false} FlattenAppend<T>(a: seq<seq<T>>, b: seq<seq<T>>)
    ensures Flatten(a + b) == Flatten(a) + Flatten(b)
  {
    if a == [] {
      assert a + b == b;
    } else {
      FlattenAppend(a[1..], b);
      assert (a + b)[1..] == a[1..] + b;
    }
  }

  lemma FlattenSnoc<T>(a: seq<seq<T>>, c: seq<T>)
    ensures Flatten(a + [c]) == Flatten(a) + c
  {
    FlattenAppend(a, [c]);
    assert Flatten([c]) == c + Flatten([c][1..]);
  }

  /** The octets of text whose characters are all below U+0100. */
  function Octets(s: string): (r: seq<Byte>)
    requires forall i :: 0 <= i < |s| ==> s[i] as int < 0x100
    ensures |r| == |s| && forall i :: 0 <= i < |s| ==> r[i] == s[i] as int
  {
    seq(|s|, i requires 0 <= i < |s| && s[i] as int < 0x100 => s[i] as int as Byte)
  }

  /** One hexadecimal digit, as an octet. */
  function HexDigit(n: int, upper: bool): Byte
    requires 0 <= n < 16
  {
    if n < 10 then 48 + n else if upper then 55 + n else 87 + n
  }

  /** What a hexadecimal digit of either case stands for. */
  function HexValue(c: int): Option<int> {
    if 48 <= c <= 57 then Some(c - 48)
    else if 65 <= c <= 70 then Some(c - 55)
    else if 97 <= c <= 102 then Some(c - 87)
    else None
  }

  /** A number in decimal. */
  function Digits(n: nat): string {
    if n < 10 then [('0' as int + n) as char] else Digits(n / 10) + [('0' as int + n % 10) as char]
  }

  /** What a decimal text stands for. */
  function NumberOf(s: string): int {
    if s == "" then 0 else 10 * NumberOf(s[..|s| - 1]) + (s[|s| - 1] as int - 48)
  }

  /** Digits without a leading zero. */
  predicate Decimal(s: string) {
    s != "" && (forall i :: 0 <= i < |s| ==> '0' <= s[i] <= '9') && (s[0] == '0' ==> s == "0")
  }

  /** The decimal text of a number is the one that reads back as the number. */
  lemma {:induction false} DigitsBack(n: nat)
    ensures NumberOf(Digits(n)) == n && Decimal(Digits(n))
    ensures n > 0 ==> Digits(n)[0] != '0'
  {
    if n >= 10 {
      DigitsBack(n / 10);
      assert Digits(n)[..|Digits(n)| - 1] == Digits(n / 10);
    } else {
      assert Digits(n)[..0] == "";
    }
  }

  lemma {:induction false} NumberBack(s: string)
    requires Decimal(s)
    ensures NumberOf(s) >= 0 && Digits(NumberOf(s)) == s
    ensures s != "0" ==> NumberOf(s) > 0
  {
    var front := s[..|s| - 1];
    assert s == front + [s[|s| - 1]];
    if front != "" {
      NumberBack(front);
    }
  }

  /** `pat` stands in `s` at position `i`. */
  predicate At<T(==)>(s: seq<T>, pat: seq<T>, i: int) {
    0 <= i && i + |pat| <= |s| && s[i..i + |pat|] == pat
  }

  ghost predicate Occurs<T>(s: seq<T>, pat: seq<T>) {
    exists i :: At(s, pat, i)
  }
}
