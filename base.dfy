/** Byte-level building blocks shared by the header, the container codec and
    the pipeline: Option/Result wrappers, Rust's `u8` and `u32`,
    `u32::to_be_bytes` and `str::as_bytes` (UTF-8). */
module Base {

  datatype Option<+T> = None | Some(value: T)

  datatype Result<+T, +E> = Ok(value: T) | Err(error: E)

  /** Rust `u8`. */
  type byte = x: int | 0 <= x < 0x100

  /** Rust `u32`. */
  type u32 = x: int | 0 <= x < 0x1_0000_0000

  /** The byte `b'\n'`. */
  const NEWLINE: byte := 0x0A

  // ---------------------------------------------------------------------
  // Sequences
  // ---------------------------------------------------------------------

  /** Concatenation only depends on the joined middle part. */
  lemma RegroupMiddle<T>(x: seq<T>, m: seq<T>, k: seq<T>, m': seq<T>, k': seq<T>)
    requires m + k == m' + k'
    ensures x + m + k == x + m' + k'
  {
    assert x + m + k == x + (m + k);
    assert x + m' + k' == x + (m' + k');
  }

  /** Two concatenations with equally long right parts are equal part by part. */
  lemma SplitAtSameLength<T>(x: seq<T>, y: seq<T>, x': seq<T>, y': seq<T>)
    requires x + y == x' + y'
    requires |y| == |y'|
    ensures x == x' && y == y'
  {
    assert x == (x + y)[..|x|];
    assert x' == (x' + y')[..|x'|];
    assert y == (x + y)[|x|..];
    assert y' == (x' + y')[|x'|..];
  }

  // ---------------------------------------------------------------------
  // u32::to_be_bytes / u32::from_be_bytes
  // ---------------------------------------------------------------------

  /** The four bytes of `n`, most significant first. */
  function Be32(n: u32): (b: seq<byte>)
    ensures |b| == 4
  {
    var q1 := n / 0x100;
    var q2 := q1 / 0x100;
    [q2 / 0x100, q2 % 0x100, q1 % 0x100, n % 0x100]
  }

  /** Reads four big-endian bytes back into a `u32`. */
  function FromBe32(b: seq<byte>): (n: u32)
    requires |b| == 4
  {
    ((b[0] as int * 0x100 + b[1] as int) * 0x100 + b[2] as int) * 0x100 + b[3] as int
  }

  /** Quotient and remainder by 0x100 are determined by any decomposition
      with a remainder in byte range. */
  lemma ByteDivMod(n: int, q: int, r: int)
    requires 0 <= r < 0x100 && n == q * 0x100 + r
    ensures n / 0x100 == q && n % 0x100 == r
  {
  }

  /** Decoding the big-endian bytes of `n` gives `n` back. */
  lemma Be32RoundTrip(n: u32)
    ensures FromBe32(Be32(n)) == n
  {
    var q1 := n / 0x100;
    var q2 := q1 / 0x100;
    assert n == q1 * 0x100 + n % 0x100;
    assert q1 == q2 * 0x100 + q1 % 0x100;
    assert q2 == q2 / 0x100 * 0x100 + q2 % 0x100;
  }

  /** Every 4-byte sequence is the big-endian encoding of its value. */
  lemma FromBe32RoundTrip(b: seq<byte>)
    requires |b| == 4
    ensures Be32(FromBe32(b)) == b
  {
    var n := FromBe32(b);
    var q2 := b[0] as int * 0x100 + b[1] as int;
    var q1 := q2 * 0x100 + b[2] as int;
    ByteDivMod(n, q1, b[3]);
    ByteDivMod(q1, q2, b[2]);
    ByteDivMod(q2, b[0], b[1]);
  }

  /** Distinct `u32` values have distinct big-endian encodings. */
  lemma Be32Injective(m: u32, n: u32)
    ensures Be32(m) == Be32(n) ==> m == n
  {
    Be32RoundTrip(m);
    Be32RoundTrip(n);
  }

  // ---------------------------------------------------------------------
  // str::as_bytes (UTF-8)
  // ---------------------------------------------------------------------

  /** The UTF-8 encoding of one Unicode scalar value. */
  function Utf8Char(c: char): (r: seq<byte>)
    ensures 1 <= |r| <= 4
    ensures c as int < 0x80 <==> |r| == 1
    ensures |r| == 1 ==> r[0] == c as int
    ensures |r| > 1 ==> forall i :: 0 <= i < |r| ==> r[i] >= 0x80
  {
    var n := c as int;
    if n < 0x80 then [n]
    else if n < 0x800 then [0xC0 + n / 0x40, 0x80 + n % 0x40]
    else if n < 0x1_0000 then [0xE0 + n / 0x1000, 0x80 + n / 0x40 % 0x40, 0x80 + n % 0x40]
    else [0xF0 + n / 0x4_0000, 0x80 + n / 0x1000 % 0x40, 0x80 + n / 0x40 % 0x40, 0x80 + n % 0x40]
  }

  /** `s.as_bytes()`: the UTF-8 encoding of a string. */
  function Utf8(s: string): (b: seq<byte>)
    ensures |s| <= |b| <= 4 * |s|
  {
    if s == [] then [] else Utf8Char(s[0]) + Utf8(s[1..])
  }

  /** UTF-8 encoding distributes over concatenation. */
  lemma {:induction false} Utf8Append(s: string, t: string)
    ensures Utf8(s + t) == Utf8(s) + Utf8(t)
  {
    if s == [] {
      assert s + t == t;
    } else {
      assert (s + t)[1..] == s[1..] + t;
      Utf8Append(s[1..], t);
    }
  }

  /** Moving a character across the boundary between two strings leaves
      their concatenated UTF-8 bytes unchanged. */
  lemma Utf8MoveBoundary(s: string, c: char, t: string)
    ensures Utf8(s + [c]) + Utf8(t) == Utf8(s) + Utf8([c] + t)
  {
    Utf8Append(s, [c]);
    Utf8Append([c], t);
  }

  /** A string has a newline character exactly when its UTF-8 bytes have the
      newline byte: every byte of a multi-byte sequence is at least 0x80. */
  lemma {:induction false} Utf8Newline(s: string)
    ensures NEWLINE in Utf8(s) <==> '\n' in s
  {
    if s != [] {
      Utf8Newline(s[1..]);
      assert s == [s[0]] + s[1..];
      assert NEWLINE in Utf8Char(s[0]) <==> s[0] == '\n';
    }
  }

  // ---------------------------------------------------------------------
  // str::to_lowercase, str::strip_suffix
  // ---------------------------------------------------------------------

  /** `to_lowercase` restricted to ASCII letters; every other character is kept. */
  function Lower(s: string): (r: string)
    ensures |r| == |s|
    ensures forall i :: 0 <= i < |s| ==> r[i] == (if 'A' <= s[i] <= 'Z' then (s[i] as int + 32) as char else s[i])
  {
    if s == [] then []
    else [if 'A' <= s[0] <= 'Z' then (s[0] as int + 32) as char else s[0]] + Lower(s[1..])
  }

  predicate HasSuffix(s: string, suffix: string) {
    |suffix| <= |s| && s[|s| - |suffix|..] == suffix
  }

  /** `s.strip_suffix(suffix).unwrap_or(s)`. */
  function StripSuffix(s: string, suffix: string): (r: string)
    ensures HasSuffix(s, suffix) ==> r + suffix == s
    ensures !HasSuffix(s, suffix) ==> r == s
  {
    if HasSuffix(s, suffix) then s[..|s| - |suffix|] else s
  }

  /** Stripping a suffix that was just appended gives back the original. */
  lemma StripAppendedSuffix(s: string, suffix: string)
    ensures StripSuffix(s + suffix, suffix) == s
  {
    assert (s + suffix)[|s|..] == suffix;
    assert (s + suffix)[..|s|] == s;
  }
}
