/**
  Text as the key layer sees it: decimal rendering of numbers (Rust's `{}`
  formatting of an unsigned integer) and the UTF-8 bytes of a `str`
  (`str::as_bytes`).
 */
module Text {
  import opened Bytes
  import opened Outcome

  predicate IsDigit(c: char) {
    '0' <= c <= '9'
  }

  function DigitChar(d: nat): (c: char)
    requires d < 10
    ensures IsDigit(c)
  {
    ('0' as int + d) as char
  }

  function DigitValue(c: char): (d: nat)
    requires IsDigit(c)
    ensures d < 10 && DigitChar(d) == c
  {
    c as int - '0' as int
  }

  predicate AllDigits(s: string) {
    forall i :: 0 <= i < |s| ==> IsDigit(s[i])
  }

  /** `format!("{}", n)` for an unsigned integer: at least one digit, no leading zero. */
  function Decimal(n: nat): (r: string)
    ensures |r| > 0 && AllDigits(r)
    ensures r[0] == '0' ==> r == "0"
  {
    if n < 10 then [DigitChar(n)] else Decimal(n / 10) + [DigitChar(n % 10)]
  }

  /** The value of a run of decimal digits. */
  function ParseDecimal(s: string): (n: nat)
    requires AllDigits(s)
  {
    if s == [] then 0 else ParseDecimal(s[..|s| - 1]) * 10 + DigitValue(s[|s| - 1])
  }

  lemma {:induction false} ParseDecimalOfDecimal(n: nat)
    ensures ParseDecimal(Decimal(n)) == n
  {
    if n >= 10 {
      var r := Decimal(n);
      assert r[..|r| - 1] == Decimal(n / 10);
      ParseDecimalOfDecimal(n / 10);
    }
  }

  lemma DecimalInjective(a: nat, b: nat)
    ensures Decimal(a) == Decimal(b) <==> a == b
  {
    ParseDecimalOfDecimal(a);
    ParseDecimalOfDecimal(b);
  }

  /** Code points Rust's `char` can hold. */
  predicate IsScalar(cp: int) {
    0 <= cp < 0xD800 || 0xE000 <= cp < 0x11_0000
  }

  predicate IsContinuation(b: Byte) {
    0x80 <= b < 0xC0
  }

  /** The UTF-8 encoding of one `char`: one to four bytes, by code point range. */
  function EncodeChar(c: char): (r: Bytes)
    ensures 1 <= |r| <= 4
  {
    var cp := c as int;
    if cp < 0x80 then [cp as Byte]
    else if cp < 0x800 then [(0xC0 + cp / 64) as Byte, (0x80 + cp % 64) as Byte]
    else if cp < 0x1_0000 then
      [(0xE0 + cp / 4096) as Byte, (0x80 + cp / 64 % 64) as Byte, (0x80 + cp % 64) as Byte]
    else
      [(0xF0 + cp / 262144) as Byte, (0x80 + cp / 4096 % 64) as Byte,
       (0x80 + cp / 64 % 64) as Byte, (0x80 + cp % 64) as Byte]
  }

  /** `s.as_bytes()`: the concatenated UTF-8 encodings of the characters. */
  function Utf8(s: string): (r: Bytes)
    ensures |r| >= |s|
  {
    if s == [] then [] else EncodeChar(s[0]) + Utf8(s[1..])
  }

  /** Reads one character off the front of well-formed UTF-8, with its length in bytes. */
  function DecodeChar(b: Bytes): (r: Option<(char, nat)>)
    ensures r.Some? ==> 1 <= r.value.1 <= |b|
  {
    if b == [] then None
    else if b[0] < 0x80 then Some((b[0] as int as char, 1))
    else if 0xC0 <= b[0] < 0xE0 && |b| >= 2 && IsContinuation(b[1]) then
      var cp := (b[0] as int - 0xC0) * 64 + (b[1] as int - 0x80);
      if 0x80 <= cp then Some((cp as char, 2)) else None
    else if 0xE0 <= b[0] < 0xF0 && |b| >= 3 && IsContinuation(b[1]) && IsContinuation(b[2]) then
      var cp := (b[0] as int - 0xE0) * 4096 + (b[1] as int - 0x80) * 64 + (b[2] as int - 0x80);
      if 0x800 <= cp && IsScalar(cp) then Some((cp as char, 3)) else None
    else if 0xF0 <= b[0] < 0xF8 && |b| >= 4
         && IsContinuation(b[1]) && IsContinuation(b[2]) && IsContinuation(b[3]) then
      var cp := (b[0] as int - 0xF0) * 262144 + (b[1] as int - 0x80) * 4096
              + (b[2] as int - 0x80) * 64 + (b[3] as int - 0x80);
      if 0x1_0000 <= cp && IsScalar(cp) then Some((cp as char, 4)) else None
    else None
  }

  /** `std::str::from_utf8`, reduced to whether the bytes decode and to what. */
  function DecodeUtf8(b: Bytes): (r: Option<string>)
    decreases |b|
  {
    if b == [] then Some([])
    else match DecodeChar(b)
      case None => None
      case Some((c, n)) =>
        match DecodeUtf8(b[n..])
        case None => None
        case Some(rest) => Some([c] + rest)
  }

  lemma DecodeTwoBytes(c: char, tail: Bytes)
    requires 0x80 <= c as int < 0x800
    ensures DecodeChar(EncodeChar(c) + tail) == Some((c, 2))
  {
    var cp := c as int;
    var b := EncodeChar(c) + tail;
    var hi, lo := cp / 64, cp % 64;
    assert b[0] as int == 0xC0 + hi && b[1] as int == 0x80 + lo;
    assert (b[0] as int - 0xC0) * 64 + (b[1] as int - 0x80) == cp;
  }

  lemma DecodeThreeBytes(c: char, tail: Bytes)
    requires 0x800 <= c as int < 0x1_0000
    ensures DecodeChar(EncodeChar(c) + tail) == Some((c, 3))
  {
    var cp := c as int;
    var b := EncodeChar(c) + tail;
    var x, y, z := cp / 4096, cp / 64 % 64, cp % 64;
    assert cp / 64 == x * 64 + y;
    assert cp == x * 4096 + y * 64 + z;
    assert b[0] as int == 0xE0 + x && b[1] as int == 0x80 + y && b[2] as int == 0x80 + z;
  }

  lemma DecodeFourBytes(c: char, tail: Bytes)
    requires 0x1_0000 <= c as int
    ensures DecodeChar(EncodeChar(c) + tail) == Some((c, 4))
  {
    var cp := c as int;
    var b := EncodeChar(c) + tail;
    var w, x, y, z := cp / 262144, cp / 4096 % 64, cp / 64 % 64, cp % 64;
    assert cp / 4096 == w * 64 + x;
    assert cp / 64 == cp / 4096 * 64 + y;
    assert cp == w * 262144 + x * 4096 + y * 64 + z;
    assert b[0] as int == 0xF0 + w && b[1] as int == 0x80 + x;
    assert b[2] as int == 0x80 + y && b[3] as int == 0x80 + z;
  }

  lemma DecodeEncodeChar(c: char, tail: Bytes)
    ensures DecodeChar(EncodeChar(c) + tail) == Some((c, |EncodeChar(c)|))
  {
    var cp := c as int;
    if cp < 0x80 {
    } else if cp < 0x800 {
      DecodeTwoBytes(c, tail);
    } else if cp < 0x1_0000 {
      DecodeThreeBytes(c, tail);
    } else {
      DecodeFourBytes(c, tail);
    }
  }

  /** Decoding the UTF-8 bytes of a string gives the string back. */
  lemma {:induction false} DecodeUtf8OfUtf8(s: string)
    ensures DecodeUtf8(Utf8(s)) == Some(s)
  {
    if s != [] {
      DecodeUtf8Cons(s[0], Utf8(s[1..]));
      DecodeUtf8OfUtf8(s[1..]);
      assert s == [s[0]] + s[1..];
    }
  }

  /** Decoding a character's encoding followed by more bytes reads the character, then the rest. */
  lemma DecodeUtf8Cons(c: char, tail: Bytes)
    ensures DecodeUtf8(EncodeChar(c) + tail)
         == if DecodeUtf8(tail).Some? then Some([c] + DecodeUtf8(tail).value) else None
  {
    var b := EncodeChar(c) + tail;
    DecodeEncodeChar(c, tail);
    assert b[|EncodeChar(c)|..] == tail;
  }

  lemma Utf8Injective(a: string, b: string)
    ensures Utf8(a) == Utf8(b) <==> a == b
  {
    DecodeUtf8OfUtf8(a);
    DecodeUtf8OfUtf8(b);
  }

  /** Encoding distributes over concatenation, so a string prefix is a byte prefix. */
  lemma {:induction false} Utf8Append(a: string, b: string)
    ensures Utf8(a + b) == Utf8(a) + Utf8(b)
  {
    if a != [] {
      assert (a + b)[0] == a[0] && (a + b)[1..] == a[1..] + b;
      Utf8Append(a[1..], b);
    } else {
      assert a + b == b;
    }
  }
}
