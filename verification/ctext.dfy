/**
 * The C library's text routines the parsers rely on: `strchr`, `atoi`,
 * `sscanf`'s `%d` and `printf`'s `%d`, over byte strings. A C `int` is
 * 32 bits wide.
 */
module CText {
  import opened Common

  const INT_MIN: int := -0x8000_0000
  const INT_MAX: int := 0x7FFF_FFFF

  // ---------------------------------------------------------------- strchr

  /** `strchr(s + from, b)` as an index: the first `b` at or after `from`. */
  function IndexFrom(s: Bytes, from: nat, b: bv8): (r: Option<nat>)
    requires from <= |s|
    ensures r.Some? ==> from <= r.value < |s| && s[r.value] == b
    ensures r.Some? ==> forall j | from <= j < r.value :: s[j] != b
    ensures r.None? ==> forall j | from <= j < |s| :: s[j] != b
    decreases |s| - from
  {
    if from == |s| then None
    else if s[from] == b then Some(from)
    else IndexFrom(s, from + 1, b)
  }

  // ---------------------------------------------------------------- atoi

  /** `isspace` in the C locale. */
  predicate IsSpace(b: bv8)
  {
    b == 0x20 || b == 0x09 || b == 0x0A || b == 0x0B || b == 0x0C || b == 0x0D
  }

  predicate IsDigitByte(b: bv8)
  {
    b == 0x30 || b == 0x31 || b == 0x32 || b == 0x33 || b == 0x34
    || b == 0x35 || b == 0x36 || b == 0x37 || b == 0x38 || b == 0x39
  }

  /** The value of an ASCII digit. */
  function DigitOf(b: bv8): (d: nat)
    requires IsDigitByte(b)
    ensures d < 10
  {
    if b == 0x30 then 0 else if b == 0x31 then 1 else if b == 0x32 then 2
    else if b == 0x33 then 3 else if b == 0x34 then 4 else if b == 0x35 then 5
    else if b == 0x36 then 6 else if b == 0x37 then 7 else if b == 0x38 then 8
    else 9
  }

  function SkipSpaces(s: Bytes): (r: Bytes)
    ensures r == [] || !IsSpace(r[0])
    ensures |r| <= |s|
  {
    if s != [] && IsSpace(s[0]) then SkipSpaces(s[1..]) else s
  }

  /** The digits at the start of `t` read onto `acc`, as `strtol` reads
      them; reading stops at the first byte that is not a digit. */
  function ReadDigits(t: Bytes, acc: nat): nat
  {
    if t != [] && IsDigitByte(t[0]) then ReadDigits(t[1..], acc * 10 + DigitOf(t[0])) else acc
  }

  /** `strtol` saturates at the limits of a 32-bit `long`. */
  function Clamp(v: int): (r: int)
    ensures INT_MIN <= r <= INT_MAX
    ensures INT_MIN <= v <= INT_MAX ==> r == v
  {
    if v < INT_MIN then INT_MIN else if v > INT_MAX then INT_MAX else v
  }

  /** `atoi(s)`: skip white space, an optional sign, then as many digits as
      follow. The text after the digits, tabs included, is not looked at. */
  function Atoi(s: Bytes): (r: int)
    ensures INT_MIN <= r <= INT_MAX
    ensures r < 0 ==> SkipSpaces(s) != [] && SkipSpaces(s)[0] == 0x2D
  {
    var t := SkipSpaces(s);
    if t != [] && t[0] == 0x2D then Clamp(-(ReadDigits(t[1..], 0) as int))
    else if t != [] && t[0] == 0x2B then Clamp(ReadDigits(t[1..], 0))
    else Clamp(ReadDigits(t, 0))
  }

  /** `%d` of `n`. */
  function SignedDecimal(n: int): (r: Bytes)
    ensures r != []
  {
    if n < 0 then [0x2D] + DecimalBytes(-n) else DecimalBytes(n)
  }

  /** The digit table holds the ASCII digits in order. */
  lemma DigitTable(k: nat)
    requires k < 10
    ensures IsDigitByte(DIGIT_BYTES[k]) && DigitOf(DIGIT_BYTES[k]) == k
  {
  }

  lemma {:induction false} DecimalBytesDigits(n: nat)
    ensures forall i | 0 <= i < |DecimalBytes(n)| :: IsDigitByte(DecimalBytes(n)[i])
  {
    DigitTable(n % 10);
    if n >= 10 {
      DecimalBytesDigits(n / 10);
    }
  }

  /** Reading a run of digits and then what follows is reading the rest
      onto the value of the run. */
  lemma {:induction false} ReadDigitsSplit(d: Bytes, rest: Bytes, acc: nat)
    requires forall i | 0 <= i < |d| :: IsDigitByte(d[i])
    ensures ReadDigits(d + rest, acc) == ReadDigits(rest, ReadDigits(d, acc))
    decreases |d|
  {
    if d == [] {
      assert d + rest == rest;
    } else {
      assert (d + rest)[0] == d[0];
      assert (d + rest)[1..] == d[1..] + rest;
      ReadDigitsSplit(d[1..], rest, acc * 10 + DigitOf(d[0]));
    }
  }

  /** The digits `%u` prints read back as the number. */
  lemma {:induction false} ReadDecimalBytes(n: nat)
    ensures ReadDigits(DecimalBytes(n), 0) == n
  {
    var x := DIGIT_BYTES[n % 10];
    DigitTable(n % 10);
    assert [x][1..] == [];
    assert ReadDigits([x], n / 10) == n / 10 * 10 + n % 10;
    if n >= 10 {
      DecimalBytesDigits(n / 10);
      ReadDigitsSplit(DecimalBytes(n / 10), [x], 0);
      ReadDecimalBytes(n / 10);
    }
  }

  /** The digits of `n` followed by a non-digit read as `n`. */
  lemma DecimalThenStop(n: nat, tail: Bytes)
    requires tail == [] || !IsDigitByte(tail[0])
    ensures ReadDigits(DecimalBytes(n) + tail, 0) == n
    ensures IsDigitByte((DecimalBytes(n) + tail)[0])
  {
    DecimalBytesDigits(n);
    ReadDigitsSplit(DecimalBytes(n), tail, 0);
    ReadDecimalBytes(n);
  }

  /** `atoi` of a run of digits followed by a non-digit. */
  lemma AtoiUnsigned(n: nat, tail: Bytes)
    requires n <= INT_MAX
    requires tail == [] || !IsDigitByte(tail[0])
    ensures Atoi(DecimalBytes(n) + tail) == n
  {
    DecimalThenStop(n, tail);
    var t := DecimalBytes(n) + tail;
    assert !IsSpace(t[0]) && t[0] != 0x2D && t[0] != 0x2B;
    assert SkipSpaces(t) == t;
  }

  /** `atoi` of a minus sign, a run of digits and a non-digit. */
  lemma AtoiNegative(n: nat, tail: Bytes)
    requires 0 < n <= -INT_MIN
    requires tail == [] || !IsDigitByte(tail[0])
    ensures Atoi([0x2D] + (DecimalBytes(n) + tail)) == -(n as int)
  {
    DecimalThenStop(n, tail);
    var t := [0x2D] + (DecimalBytes(n) + tail);
    assert t[1..] == DecimalBytes(n) + tail;
    assert SkipSpaces(t) == t;
  }

  /** `atoi` reads back what `%d` prints, whatever follows a non-digit. */
  lemma AtoiReadsDecimal(n: int, tail: Bytes)
    requires INT_MIN <= n <= INT_MAX
    requires tail == [] || !IsDigitByte(tail[0])
    ensures Atoi(SignedDecimal(n) + tail) == n
  {
    if n < 0 {
      AtoiNegative(-n, tail);
      assert SignedDecimal(n) + tail == [0x2D] + (DecimalBytes(-n) + tail);
    } else {
      AtoiUnsigned(n, tail);
    }
  }


  // ---------------------------------------------------------------- sscanf %d

  /** The bytes after the digits at the start of `t`. */
  function DropDigits(t: Bytes): (r: Bytes)
    ensures r == [] || !IsDigitByte(r[0])
    ensures |r| <= |t|
  {
    if t != [] && IsDigitByte(t[0]) then DropDigits(t[1..]) else t
  }

  /** A `%d` conversion's value and the input after it. */
  datatype Scanned = Scanned(value: int, rest: Bytes)

  /** `sscanf`'s `%d`: white space, an optional sign, then at least one
      digit and every digit that follows; None is a matching failure. */
  function ScanInt(s: Bytes): (r: Option<Scanned>)
    ensures r.Some? ==> |r.value.rest| < |s|
  {
    var t := SkipSpaces(s);
    var u := if t != [] && (t[0] == 0x2D || t[0] == 0x2B) then t[1..] else t;
    if u == [] || !IsDigitByte(u[0]) then None
    else
      var n := ReadDigits(u, 0);
      Some(Scanned(if t[0] == 0x2D then -(n as int) else n, DropDigits(u)))
  }

  /** A literal byte of a `sscanf` format followed by `%d`: the next input
      byte must be that byte (no white space is skipped before it). */
  function ScanAfter(s: Bytes, c: bv8): (r: Option<Scanned>)
    ensures r.Some? ==> |r.value.rest| + 2 <= |s| && s[0] == c
  {
    if s != [] && s[0] == c then ScanInt(s[1..]) else None
  }

  // ---------------------------------------------------------------- printf %0<w>d

  function Zeros(n: nat): (r: Bytes)
    ensures |r| == n
    ensures forall i | 0 <= i < n :: r[i] == 0x30
  {
    if n == 0 then [] else [0x30] + Zeros(n - 1)
  }

  /** `%0<w>d` of `n`: the sign, then the digits, with zeros between them
      so that the whole is at least `w` bytes. */
  function PaddedDecimal(n: int, w: nat): (r: Bytes)
    ensures |r| >= w
  {
    var sign: Bytes := if n < 0 then [0x2D] else [];
    var digits := DecimalBytes(if n < 0 then -n else n);
    var pad := w - |sign| - |digits|;
    sign + (Zeros(if pad > 0 then pad else 0) + digits)
  }

  /** Leading zeros do not change the value of a run of digits. */
  lemma {:induction false} ReadZeros(k: nat, rest: Bytes)
    ensures ReadDigits(Zeros(k) + rest, 0) == ReadDigits(rest, 0)
    ensures forall i | 0 <= i < k :: IsDigitByte((Zeros(k) + rest)[i])
  {
    if k > 0 {
      var z := Zeros(k) + rest;
      assert z[0] == 0x30 && DigitOf(z[0]) == 0;
      assert z[1..] == Zeros(k - 1) + rest;
      assert ReadDigits(z, 0) == ReadDigits(Zeros(k - 1) + rest, 0);
      ReadZeros(k - 1, rest);
    } else {
      assert Zeros(k) + rest == rest;
    }
  }

  /** Dropping a run of digits and then more is dropping the more. */
  lemma {:induction false} DropDigitsSplit(d: Bytes, rest: Bytes)
    requires forall i | 0 <= i < |d| :: IsDigitByte(d[i])
    ensures DropDigits(d + rest) == DropDigits(rest)
    decreases |d|
  {
    if d == [] {
      assert d + rest == rest;
    } else {
      assert (d + rest)[0] == d[0];
      assert (d + rest)[1..] == d[1..] + rest;
      DropDigitsSplit(d[1..], rest);
    }
  }

  /** Zero padding and the digits of `n`, followed by a non-digit, scan as
      `n` and leave that non-digit. */
  lemma ScanUnsigned(k: nat, n: nat, tail: Bytes)
    requires tail == [] || !IsDigitByte(tail[0])
    ensures var u := Zeros(k) + (DecimalBytes(n) + tail);
      && u != [] && IsDigitByte(u[0]) && !IsSpace(u[0]) && u[0] != 0x2D && u[0] != 0x2B
      && ReadDigits(u, 0) == n && DropDigits(u) == tail
  {
    var d := DecimalBytes(n);
    DecimalThenStop(n, tail);
    DecimalBytesDigits(n);
    ReadZeros(k, d + tail);
    DropDigitsSplit(Zeros(k), d + tail);
    DropDigitsSplit(d, tail);
    if k > 0 {
      assert (Zeros(k) + (d + tail))[0] == 0x30;
    } else {
      assert Zeros(k) + (d + tail) == d + tail;
    }
  }

  /** `%d` on text that starts with a digit. */
  lemma ScanDigitFirst(u: Bytes)
    requires u != [] && IsDigitByte(u[0])
    ensures ScanInt(u) == Some(Scanned(ReadDigits(u, 0), DropDigits(u)))
  {
    assert SkipSpaces(u) == u;
  }

  /** `%d` on a minus sign and text that starts with a digit. */
  lemma ScanMinusFirst(u: Bytes)
    requires u != [] && IsDigitByte(u[0])
    ensures ScanInt([0x2D] + u) == Some(Scanned(-(ReadDigits(u, 0) as int), DropDigits(u)))
  {
    var t := [0x2D as bv8] + u;
    assert SkipSpaces(t) == t;
    assert t[1..] == u;
  }

  /** The zero padding `%0<w>d` puts in front of the digits of `m`. */
  function PadFor(w: int, m: nat): nat
  {
    var pad := w - |DecimalBytes(m)|;
    if pad > 0 then pad else 0
  }

  lemma ScanPaddedNegative(n: int, w: nat, tail: Bytes)
    requires n < 0
    requires tail == [] || !IsDigitByte(tail[0])
    ensures ScanInt(PaddedDecimal(n, w) + tail) == Some(Scanned(n, tail))
  {
    var k := PadFor(w - 1, -n);
    var z := Zeros(k) + DecimalBytes(-n);
    var u := Zeros(k) + (DecimalBytes(-n) + tail);
    ScanUnsigned(k, -n, tail);
    assert PaddedDecimal(n, w) == [0x2D] + z;
    assert ([0x2D] + z) + tail == [0x2D] + u;
    ScanMinusFirst(u);
  }

  lemma ScanPaddedNonNegative(n: nat, w: nat, tail: Bytes)
    requires tail == [] || !IsDigitByte(tail[0])
    ensures ScanInt(PaddedDecimal(n, w) + tail) == Some(Scanned(n, tail))
  {
    var k := PadFor(w, n);
    var z := Zeros(k) + DecimalBytes(n);
    var u := Zeros(k) + (DecimalBytes(n) + tail);
    ScanUnsigned(k, n, tail);
    assert PaddedDecimal(n, w) == z;
    assert z + tail == u;
    ScanDigitFirst(u);
  }

  /** `%d` reads back what `%0<w>d` prints, whatever non-digit follows. */
  lemma ScanPadded(n: int, w: nat, tail: Bytes)
    requires tail == [] || !IsDigitByte(tail[0])
    ensures ScanInt(PaddedDecimal(n, w) + tail) == Some(Scanned(n, tail))
  {
    if n < 0 {
      ScanPaddedNegative(n, w, tail);
    } else {
      ScanPaddedNonNegative(n, w, tail);
    }
  }

  // ---------------------------------------------------------------- C division

  /** C's `/` on `int`: the quotient truncated toward zero. */
  function CDiv(a: int, b: int): (q: int)
    requires b > 0
    ensures a >= 0 ==> q == a / b
  {
    if a >= 0 then a / b else -((-a) / b)
  }

  /** C's `%` on `int`: the remainder takes the sign of `a`. */
  function CMod(a: int, b: int): (r: int)
    requires b > 0
    ensures a >= 0 ==> r == a % b
    ensures -b < r < b && (a < 0 ==> r <= 0)
  {
    if a >= 0 then a % b else -((-a) % b)
  }
}
