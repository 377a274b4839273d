/**
 UTF-8 as `core::str::from_utf8` accepts it: well-formed sequences only, no surrogates, no
 overlong forms. A Dafny `char` is a Unicode scalar value, as a Rust `char` is.
 */
module Utf8 {
  import opened Rust

  function Encode(c: char): (bytes: seq<u8>)
    ensures 1 <= |bytes| <= 4
  {
    var n := c as int;
    if n < 0x80 then [n]
    else if n < 0x800 then [0xC0 + n / 64, 0x80 + n % 64]
    else if n < 0x10000 then [0xE0 + n / 4096, 0x80 + n / 64 % 64, 0x80 + n % 64]
    else [0xF0 + n / 262144, 0x80 + n / 4096 % 64, 0x80 + n / 64 % 64, 0x80 + n % 64]
  }

  function EncodeString(s: string): (bytes: seq<u8>)
    ensures |s| <= |bytes|
  {
    if s == "" then [] else Encode(s[0]) + EncodeString(s[1..])
  }

  predicate Continues(b: u8) {
    0x80 <= b < 0xC0
  }

  /** The payload of a byte, below its marker bits. */
  function Low(b: u8, marker: u8): int {
    b as int - marker as int
  }

  datatype Scalar = Scalar(value: char, length: nat)

  /** The scalar value that a byte sequence starts with. */
  function First(b: seq<u8>): (r: Option<Scalar>)
    requires b != []
    ensures r.Some? ==> 1 <= r.value.length <= |b|
  {
    var b0 := b[0];
    if b0 < 0x80 then
      Some(Scalar(b0 as char, 1))
    else if 0xC2 <= b0 <= 0xDF && |b| >= 2 && Continues(b[1]) then
      Some(Scalar((Low(b0, 0xC0) * 64 + Low(b[1], 0x80)) as char, 2))
    else if && 0xE0 <= b0 <= 0xEF && |b| >= 3 && Continues(b[1]) && Continues(b[2])
            && (b0 == 0xE0 ==> 0xA0 <= b[1]) && (b0 == 0xED ==> b[1] <= 0x9F) then
      Some(Scalar((Low(b0, 0xE0) * 4096 + Low(b[1], 0x80) * 64 + Low(b[2], 0x80)) as char, 3))
    else if && 0xF0 <= b0 <= 0xF4 && |b| >= 4 && Continues(b[1]) && Continues(b[2]) && Continues(b[3])
            && (b0 == 0xF0 ==> 0x90 <= b[1]) && (b0 == 0xF4 ==> b[1] <= 0x8F) then
      Some(Scalar((Low(b0, 0xF0) * 262144 + Low(b[1], 0x80) * 4096 + Low(b[2], 0x80) * 64 + Low(b[3], 0x80)) as char, 4))
    else
      None
  }

  /** `core::str::from_utf8`. */
  function FromUtf8(b: seq<u8>): Option<string> {
    if b == [] then Some("")
    else
      match First(b)
      case None => None
      case Some(c) =>
        match FromUtf8(b[c.length..])
        case None => None
        case Some(rest) => Some([c.value] + rest)
  }

  /** The digits of a number to the base 64, the last three of them and what is before. */
  lemma Base64Digits(n: nat)
    ensures n == n / 64 * 64 + n % 64
    ensures n / 64 == n / 4096 * 64 + n / 64 % 64
    ensures n / 4096 == n / 262144 * 64 + n / 4096 % 64
  {
    assert n / 4096 == n / 64 / 64;
    assert n / 262144 == n / 4096 / 64;
  }

  lemma FirstOfEncoded2(c: char, rest: seq<u8>)
    requires 0x80 <= c as int < 0x800
    ensures First(Encode(c) + rest) == Some(Scalar(c, 2))
  {
    Base64Digits(c as int);
  }

  lemma FirstOfEncoded3(c: char, rest: seq<u8>)
    requires 0x800 <= c as int < 0x10000
    ensures First(Encode(c) + rest) == Some(Scalar(c, 3))
  {
    Base64Digits(c as int);
  }

  lemma FirstOfEncoded4(c: char, rest: seq<u8>)
    requires 0x10000 <= c as int
    ensures First(Encode(c) + rest) == Some(Scalar(c, 4))
  {
    Base64Digits(c as int);
  }

  lemma FirstOfEncoded(c: char, rest: seq<u8>)
    ensures First(Encode(c) + rest) == Some(Scalar(c, |Encode(c)|))
  {
    var n := c as int;
    if 0x80 <= n < 0x800 {
      FirstOfEncoded2(c, rest);
    } else if 0x800 <= n < 0x10000 {
      FirstOfEncoded3(c, rest);
    } else if 0x10000 <= n {
      FirstOfEncoded4(c, rest);
    }
  }

  lemma Horner(x: nat, d: nat)
    requires d < 64
    ensures (x * 64 + d) / 64 == x && (x * 64 + d) % 64 == d
  {
  }

  /** A number has only one sequence of digits. */
  lemma DigitsUnique(n: nat, d3: nat, d2: nat, d1: nat, d0: nat)
    requires d2 < 64 && d1 < 64 && d0 < 64
    requires n == d3 * 262144 + d2 * 4096 + d1 * 64 + d0
    ensures n % 64 == d0 && n / 64 % 64 == d1 && n / 4096 % 64 == d2 && n / 262144 == d3
    ensures n / 64 == d3 * 4096 + d2 * 64 + d1 && n / 4096 == d3 * 64 + d2
  {
    Horner(d3, d2);
    Horner(d3 * 64 + d2, d1);
    Horner(d3 * 4096 + d2 * 64 + d1, d0);
    assert n / 4096 == n / 64 / 64;
    assert n / 262144 == n / 4096 / 64;
  }

  lemma EncodedFirst2(b: seq<u8>)
    requires b != [] && First(b).Some? && First(b).value.length == 2
    ensures Encode(First(b).value.value) == b[..2]
  {
    DigitsUnique(First(b).value.value as int, 0, 0, Low(b[0], 0xC0), Low(b[1], 0x80));
  }

  lemma EncodedFirst3(b: seq<u8>)
    requires b != [] && First(b).Some? && First(b).value.length == 3
    ensures Encode(First(b).value.value) == b[..3]
  {
    DigitsUnique(First(b).value.value as int, 0, Low(b[0], 0xE0), Low(b[1], 0x80), Low(b[2], 0x80));
  }

  lemma EncodedFirst4(b: seq<u8>)
    requires b != [] && First(b).Some? && First(b).value.length == 4
    ensures Encode(First(b).value.value) == b[..4]
  {
    DigitsUnique(First(b).value.value as int, Low(b[0], 0xF0), Low(b[1], 0x80), Low(b[2], 0x80), Low(b[3], 0x80));
  }

  lemma EncodedFirst(b: seq<u8>)
    requires b != [] && First(b).Some?
    ensures var c := First(b).value; Encode(c.value) == b[..c.length]
  {
    var k := First(b).value.length;
    if k == 2 {
      EncodedFirst2(b);
    } else if k == 3 {
      EncodedFirst3(b);
    } else if k == 4 {
      EncodedFirst4(b);
    }
  }

  /** Whatever text is encoded, decoding gives it back. */
  lemma {:induction false} DecodeEncode(s: string)
    ensures FromUtf8(EncodeString(s)) == Some(s)
  {
    hide First, Encode;
    if s == "" {
    } else {
      var rest := EncodeString(s[1..]);
      FirstOfEncoded(s[0], rest);
      assert (Encode(s[0]) + rest)[|Encode(s[0])|..] == rest;
      DecodeEncode(s[1..]);
      assert [s[0]] + s[1..] == s;
    }
  }

  /** Whatever bytes are accepted, they are the encoding of the text they are read as. */
  lemma {:induction false} EncodeDecode(b: seq<u8>)
    requires FromUtf8(b).Some?
    ensures EncodeString(FromUtf8(b).value) == b
  {
    hide First, Encode;
    if b == [] {
    } else {
      EncodedFirst(b);
      var c := First(b).value;
      EncodeDecode(b[c.length..]);
      assert b == b[..c.length] + b[c.length..];
    }
  }

  lemma {:induction false} EncodeConcat(s: string, t: string)
    ensures EncodeString(s + t) == EncodeString(s) + EncodeString(t)
  {
    if s == "" {
      assert s + t == t;
    } else {
      assert (s + t)[1..] == s[1..] + t;
      EncodeConcat(s[1..], t);
    }
  }

  predicate Ascii(s: string) {
    forall i :: 0 <= i < |s| ==> s[i] as int < 0x80
  }

  lemma {:induction false} EncodeAscii(s: string)
    requires Ascii(s)
    ensures |EncodeString(s)| == |s|
    ensures forall i :: 0 <= i < |s| ==> EncodeString(s)[i] == s[i] as int
  {
    if s == "" {
    } else {
      EncodeAscii(s[1..]);
    }
  }
}
