/**
 * Shared vocabulary of the model: optional values, bytes, C-style string
 * truncation and decimal rendering/parsing of unsigned integers.
 *
 * C `char` data is modelled as `Bytes`; a C string is the byte sequence
 * before its terminating NUL, so `strlen(s)` is `|s|`.
 */
module Common {

  datatype Option<+T> = None | Some(value: T)

  type Byte = bv8
  type Bytes = seq<bv8>

  function Min(a: int, b: int): int { if a < b then a else b }

  function Max(a: int, b: int): int { if a < b then b else a }

  /** The first `n` elements of `s`, or all of `s` when it is shorter
      (what `strncpy`/`snprintf` keep of a string that does not fit). */
  function Take<T>(s: seq<T>, n: nat): (r: seq<T>)
    ensures |r| == Min(|s|, n)
    ensures r <= s
  {
    if |s| <= n then s else s[..n]
  }

  /** An ASCII literal as the bytes a C compiler stores for it. */
  function Str(s: string): (r: Bytes)
    ensures |r| == |s|
  {
    seq(|s|, i requires 0 <= i < |s| => ((s[i] as int) % 256) as bv8)
  }

  /** The C string stored in a buffer: everything before the first NUL. */
  function CStr(s: Bytes): (r: Bytes)
    ensures r <= s
    ensures forall i | 0 <= i < |r| :: r[i] != 0
    ensures |r| < |s| ==> s[|r|] == 0
  {
    if s == [] then []
    else if s[0] == 0 then []
    else [s[0]] + CStr(s[1..])
  }

  /** The C string in front of a terminator is recovered by `CStr`. */
  lemma {:induction false} CStrOfTerminated(c: Bytes, rest: Bytes)
    requires 0 !in c
    ensures CStr(c + [0] + rest) == c
  {
    if c != [] {
      assert (c + [0] + rest)[1..] == c[1..] + [0] + rest;
      CStrOfTerminated(c[1..], rest);
    }
  }

  /** A buffer that starts with a C string and its terminator holds that
      C string. */
  lemma TerminatedPrefix(c: Bytes, out: Bytes)
    requires 0 !in c && |c| < |out| && out[..|c| + 1] == c + [0]
    ensures CStr(out) == c
  {
    assert out == c + [0] + out[|c| + 1..];
    CStrOfTerminated(c, out[|c| + 1..]);
  }

  predicate IsDigit(c: char) { '0' <= c <= '9' }

  function DigitChar(d: nat): (c: char)
    requires d < 10
    ensures IsDigit(c)
  {
    ('0' as int + d) as char
  }

  /** `%u`: the decimal rendering of an unsigned integer, no leading zeros. */
  function Decimal(n: nat): (r: string)
    ensures 1 <= |r|
    ensures forall i | 0 <= i < |r| :: IsDigit(r[i])
    ensures |r| == 1 <==> n < 10
  {
    if n < 10 then [DigitChar(n)] else Decimal(n / 10) + [DigitChar(n % 10)]
  }

  /** The value of a string of decimal digits (the core of `atoi`/`%d`). */
  function DigitsValue(s: string): nat
    requires forall i | 0 <= i < |s| :: IsDigit(s[i])
  {
    if s == [] then 0
    else
      assert IsDigit(s[|s| - 1]);
      DigitsValue(s[..|s| - 1]) * 10 + (s[|s| - 1] as int - '0' as int)
  }

  /** Reading back a rendered number gives the number. */
  lemma {:induction false} DigitsValueOfDecimal(n: nat)
    ensures DigitsValue(Decimal(n)) == n
  {
    if n >= 10 {
      var s := Decimal(n);
      assert s[..|s| - 1] == Decimal(n / 10);
      DigitsValueOfDecimal(n / 10);
    }
  }

  /** Distinct numbers render differently, so `path.1`, `path.2`, ... are
      distinct file names. */
  lemma DecimalInjective(a: nat, b: nat)
    requires Decimal(a) == Decimal(b)
    ensures a == b
  {
    DigitsValueOfDecimal(a);
    DigitsValueOfDecimal(b);
  }

  /** The ASCII codes of '0' to '9'. */
  const DIGIT_BYTES: Bytes := [0x30, 0x31, 0x32, 0x33, 0x34, 0x35, 0x36, 0x37, 0x38, 0x39]

  /** `%u` as the ASCII bytes `snprintf` stores. */
  function DecimalBytes(n: nat): (r: Bytes)
    ensures 1 <= |r|
  {
    if n < 10 then [DIGIT_BYTES[n]]
    else DecimalBytes(n / 10) + [DIGIT_BYTES[n % 10]]
  }

  /** `%u` writes one byte per digit of `Decimal(n)`. */
  lemma {:induction false} DecimalBytesLength(n: nat)
    ensures |DecimalBytes(n)| == |Decimal(n)|
  {
    if n >= 10 {
      DecimalBytesLength(n / 10);
    }
  }

  function Pow10(k: nat): (r: nat)
    ensures r >= 1
  {
    if k == 0 then 1 else 10 * Pow10(k - 1)
  }

  /** A number below 10^k renders in at most k digits. */
  lemma {:induction false} DecimalBound(n: nat, k: nat)
    requires 1 <= k && n < Pow10(k)
    ensures |Decimal(n)| <= k
  {
    if n >= 10 {
      assert Pow10(1) == 10;
      DecimalBound(n / 10, k - 1);
    }
  }

  /** A `uint32_t` renders in at most ten digits. */
  lemma DecimalU32(n: nat)
    requires n < 0x1_0000_0000
    ensures |Decimal(n)| <= 10
  {
    assert Pow10(10) == 10_000_000_000;
    DecimalBound(n, 10);
  }

  /** `memcpy(buf + at, s, |s|)`. */
  method Put(buf: array<bv8>, at: nat, s: Bytes)
    requires at + |s| <= buf.Length
    modifies buf
    ensures buf[..] == old(buf[..at]) + s + old(buf[at + |s|..])
  {
    var i := 0;
    while i < |s|
      invariant 0 <= i <= |s|
      invariant buf[..at] == old(buf[..at])
      invariant buf[at..at + i] == s[..i]
      invariant buf[at + i..] == old(buf[at + i..])
    {
      buf[at + i] := s[i];
      i := i + 1;
    }
    assert buf[..] == buf[..at] + buf[at..at + |s|] + buf[at + |s|..];
  }
}
