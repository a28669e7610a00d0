/** Bytes, machine words, failure types and the arithmetic the wire formats share. */
module Bytes {

  type Byte = b: int | 0 <= b < 256
  type U64 = n: int | 0 <= n < U64_MODULUS

  const U64_MODULUS: int := 0x1_0000_0000_0000_0000
  const U128_MODULUS: int := U64_MODULUS * U64_MODULUS

  /** The longest allocation a Rust slice can describe: `isize::MAX` bytes. */
  const MAX_ALLOCATION: int := 0x7FFF_FFFF_FFFF_FFFF

  datatype Option<+T> = None | Some(value: T) {
    predicate IsFailure() { None? }
    function PropagateFailure<U>(): Option<U>
      requires None?
    { None }
    function Extract(): T
      requires Some?
    { value }
  }

  /** The error kinds of the transaction builders; message text is not modelled. */
  datatype Error =
    | InvalidField
    | BadAddress
    | Signing
    | UntrustedResponse
    | InsufficientFunds(available: nat, required: nat)

  datatype Result<+T> = Ok(value: T) | Err(error: Error) {
    predicate IsFailure() { Err? }
    function PropagateFailure<U>(): Result<U>
      requires Err?
    { Err(error) }
    function Extract(): T
      requires Ok?
    { value }
  }

  /** A value read off the front of a buffer, and the bytes after it. */
  datatype Taken<+T> = Taken(value: T, rest: seq<Byte>)

  function Pow(base: nat, e: nat): nat {
    if e == 0 then 1 else base * Pow(base, e - 1)
  }

  lemma {:induction false} PowPositive(base: nat, e: nat)
    requires base > 0
    ensures Pow(base, e) > 0
  {
    if e > 0 { PowPositive(base, e - 1); }
  }

  lemma {:induction false} PowAdd(base: nat, d: nat, e: nat)
    ensures Pow(base, d + e) == Pow(base, d) * Pow(base, e)
  {
    if d == 0 {
    } else {
      PowAdd(base, d - 1, e);
      assert Pow(base, d + e) == base * Pow(base, d - 1 + e);
      assert base * (Pow(base, d - 1) * Pow(base, e)) == base * Pow(base, d - 1) * Pow(base, e);
    }
  }

  /** Bitwise or of naturals, bit by bit. */
  function Or(a: nat, b: nat): nat {
    if a == 0 && b == 0 then 0
    else (if a % 2 == 1 || b % 2 == 1 then 1 else 0) + 2 * Or(a / 2, b / 2)
  }

  /** `value << shift` on a 64-bit word: bits pushed past the top are lost. */
  function ShiftLeft64(value: nat, shift: nat): nat {
    value * Pow(2, shift) % U64_MODULUS
  }

  lemma {:induction false} OrZero(b: nat)
    ensures Or(0, b) == b
  {
    if b > 0 { OrZero(b / 2); }
  }

  /** Or-ing a shifted word onto bits that lie below the shift is addition. */
  lemma {:induction false} OrAboveIsSum(low: nat, high: nat, shift: nat)
    requires low < Pow(2, shift)
    ensures Or(low, high * Pow(2, shift)) == low + high * Pow(2, shift)
  {
    if shift == 0 {
      OrZero(high);
    } else {
      var half := high * Pow(2, shift - 1);
      assert high * Pow(2, shift) == 2 * half by {
        assert high * (2 * Pow(2, shift - 1)) == 2 * (high * Pow(2, shift - 1));
      }
      OrAboveIsSum(low / 2, high, shift - 1);
    }
  }

  /** Big-endian value of a byte string. */
  function BigEndian(s: seq<Byte>): nat {
    if s == [] then 0 else BigEndian(s[..|s| - 1]) * 256 + s[|s| - 1]
  }

  /** `to_be_bytes` of an integer `width` bytes wide. */
  function ToBigEndian(n: nat, width: nat): (s: seq<Byte>)
    ensures |s| == width
  {
    if width == 0 then [] else ToBigEndian(n / 256, width - 1) + [n % 256]
  }

  lemma {:induction false} BigEndianRoundTrip(n: nat, width: nat)
    requires n < Pow(256, width)
    ensures BigEndian(ToBigEndian(n, width)) == n
  {
    if width > 0 {
      BigEndianRoundTrip(n / 256, width - 1);
      assert ToBigEndian(n, width)[..width - 1] == ToBigEndian(n / 256, width - 1);
    }
  }

  lemma {:induction false} BigEndianInverse(s: seq<Byte>)
    ensures BigEndian(s) < Pow(256, |s|)
    ensures ToBigEndian(BigEndian(s), |s|) == s
  {
    if s != [] {
      BigEndianInverse(s[..|s| - 1]);
      assert BigEndian(s) / 256 == BigEndian(s[..|s| - 1]);
      assert BigEndian(s) % 256 == s[|s| - 1];
      assert s == s[..|s| - 1] + [s[|s| - 1]];
    }
  }

  lemma {:induction false} BigEndianConcat(a: seq<Byte>, b: seq<Byte>)
    ensures BigEndian(a + b) == BigEndian(a) * Pow(256, |b|) + BigEndian(b)
  {
    if b == [] {
      assert a + b == a;
    } else {
      var init := b[..|b| - 1];
      assert (a + b)[..|a + b| - 1] == a + init;
      BigEndianConcat(a, init);
      Associates(BigEndian(a), Pow(256, |init|));
    }
  }

  lemma Associates(x: nat, p: nat)
    ensures x * p * 256 == x * (256 * p)
  {
  }

  /** `needle` occurs in `hay` starting at `at`. */
  predicate RunAt<T(==)>(hay: seq<T>, needle: seq<T>, at: int) {
    0 <= at && at + |needle| <= |hay| && hay[at..at + |needle|] == needle
  }

  predicate Contains<T(==)>(hay: seq<T>, needle: seq<T>) {
    exists at :: 0 <= at <= |hay| && RunAt(hay, needle, at)
  }

  lemma ContainsMiddle<T>(before: seq<T>, needle: seq<T>, after: seq<T>)
    ensures Contains(before + needle + after, needle)
  {
    assert RunAt(before + needle + after, needle, |before|);
  }

  lemma ContainsTransitive<T>(a: seq<T>, b: seq<T>, c: seq<T>)
    requires Contains(a, b) && Contains(b, c)
    ensures Contains(a, c)
  {
    var i :| 0 <= i <= |a| && RunAt(a, b, i);
    var j :| 0 <= j <= |b| && RunAt(b, c, j);
    forall t | 0 <= t < |c| ensures a[i + j + t] == c[t] {
      assert a[i..i + |b|][j + t] == b[j + t] == b[j..j + |c|][t];
    }
    assert RunAt(a, c, i + j);
  }
}
