/** Fixed-width machine integers and the little-endian byte encoding that the
    job wire format and the device command header are built from. */
module Bytes {

  const TWO64: int := 0x1_0000_0000_0000_0000

  /** An unsigned 8-bit value (`uint8_t`). */
  type byte = b: int | 0 <= b < 256

  /** An unsigned 64-bit value (`uint64_t`). */
  type u64 = x: int | 0 <= x < TWO64

  /** Unsigned 64-bit addition, wrapping modulo 2^64 as C++ does. */
  function Add64(x: u64, y: u64): (r: u64)
    ensures r == (x + y) % TWO64
  {
    if x + y < TWO64 then x + y else x + y - TWO64
  }

  /** Unsigned 64-bit subtraction, wrapping modulo 2^64 as C++ does. */
  function Sub64(x: u64, y: u64): (r: u64)
    ensures r == (x - y) % TWO64
  {
    if y <= x then x - y else x - y + TWO64
  }

  /** 256^n: the number of distinct values an n-byte string can hold. */
  function Pow256(n: nat): (p: nat)
    ensures p >= 1
  {
    if n == 0 then 1 else 256 * Pow256(n - 1)
  }

  /** The n least significant bytes of v, least significant first. */
  function LeBytes(v: nat, n: nat): (r: seq<byte>)
    ensures |r| == n
  {
    if n == 0 then [] else [(v % 256) as byte] + LeBytes(v / 256, n - 1)
  }

  /** The number a little-endian byte string denotes. */
  function LeValue(s: seq<byte>): (v: nat)
    ensures v < Pow256(|s|)
  {
    if |s| == 0 then 0 else s[0] + 256 * LeValue(s[1..])
  }

  /** Encoding a value that fits in n bytes and reading it back gives the value. */
  lemma {:induction false} LeValueOfLeBytes(v: nat, n: nat)
    requires v < Pow256(n)
    ensures LeValue(LeBytes(v, n)) == v
  {
    if n > 0 {
      var s := LeBytes(v, n);
      assert s[1..] == LeBytes(v / 256, n - 1);
      LeValueOfLeBytes(v / 256, n - 1);
    }
  }

  /** Reading a byte string and encoding the value again gives the same string. */
  lemma {:induction false} LeBytesOfLeValue(s: seq<byte>)
    ensures LeBytes(LeValue(s), |s|) == s
  {
    if |s| > 0 {
      var v := LeValue(s);
      assert v % 256 == s[0] && v / 256 == LeValue(s[1..]);
      LeBytesOfLeValue(s[1..]);
      assert LeBytes(v, |s|) == [s[0]] + s[1..];
    }
  }

  lemma Pow256Eight()
    ensures Pow256(8) == TWO64
  {
  }

  /** `uint64_t` stored little-endian: exactly eight bytes that denote v. */
  function Le64(v: u64): (r: seq<byte>)
    ensures |r| == 8
    ensures LeValue(r) == v
  {
    Pow256Eight();
    LeValueOfLeBytes(v, 8);
    LeBytes(v, 8)
  }

  /** Reads a little-endian `uint64_t` from eight bytes. */
  function DecodeLe64(s: seq<byte>): (v: u64)
    requires |s| == 8
    ensures Le64(v) == s
  {
    Pow256Eight();
    LeBytesOfLeValue(s);
    LeValue(s)
  }

  /** Decoding inverts encoding. */
  lemma DecodeLe64OfLe64(v: u64)
    ensures DecodeLe64(Le64(v)) == v
  {
  }

  /** The encoding is injective: distinct values have distinct byte images. */
  lemma Le64Injective(x: u64, y: u64)
    requires Le64(x) == Le64(y)
    ensures x == y
  {
  }
}

/** The two failure channels of the library: a missing key in an
    `unordered_map::at` lookup (an exception) and a call to `exit`. */
module Results {

  datatype Failure = KeyNotFound | ProcessExit(status: int)

  datatype Result<+T> = Ok(value: T) | Err(failure: Failure) {
    predicate IsFailure() {
      Err?
    }

    function PropagateFailure<U>(): Result<U>
      requires Err?
    {
      Err(failure)
    }

    function Extract(): T
      requires Ok?
    {
      value
    }
  }

  datatype Option<+T> = None | Some(value: T)
}
