// UTF-8 (RFC 3629), the encoding of the command line inside the image.
module Utf8 {

  type Byte = b: int | 0 <= b < 256

  type Bytes = seq<Byte>

  function EncodeChar(c: char): (r: Bytes)
    ensures 1 <= |r| <= 4
    ensures 0 in r <==> c as int == 0
  {
    var n := c as int;
    if n < 0x80 then [n]
    else if n < 0x800 then [0xC0 + n / 64, 0x80 + n % 64]
    else if n < 0x10000 then [0xE0 + n / 4096, 0x80 + n / 64 % 64, 0x80 + n % 64]
    else [0xF0 + n / 262144, 0x80 + n / 4096 % 64, 0x80 + n / 64 % 64, 0x80 + n % 64]
  }

  // str.encode()
  function Encode(s: string): Bytes {
    if s == [] then [] else EncodeChar(s[0]) + Encode(s[1..])
  }

  predicate Scalar(n: int) {
    0 <= n < 0xD800 || 0xE000 <= n < 0x11_0000
  }

  function Low(b: Byte): int {
    b as int - 0x80
  }

  // The number the first character stands for and how many bytes it takes.
  function First(s: Bytes): (r: (int, nat))
    requires s != []
    ensures 1 <= r.1 <= |s|
  {
    var b := s[0] as int;
    if b >= 0xF0 && |s| >= 4 then
      ((b - 0xF0) * 262144 + Low(s[1]) * 4096 + Low(s[2]) * 64 + Low(s[3]), 4)
    else if 0xE0 <= b < 0xF0 && |s| >= 3 then ((b - 0xE0) * 4096 + Low(s[1]) * 64 + Low(s[2]), 3)
    else if 0xC0 <= b < 0xE0 && |s| >= 2 then ((b - 0xC0) * 64 + Low(s[1]), 2)
    else (b, 1)
  }

  // Malformed text decodes to replacement characters.
  function Decode(s: Bytes): string {
    if s == [] then []
    else
      var (n, k) := First(s);
      [if Scalar(n) then n as char else 0xFFFD as char] + Decode(s[k..])
  }

  lemma FirstOfChar(c: char, rest: Bytes)
    ensures First(EncodeChar(c) + rest) == (c as int, |EncodeChar(c)|)
  {
    var n := c as int;
    assert n < 0x11_0000;
    assert n == n / 64 * 64 + n % 64;
    assert n / 64 == n / 4096 * 64 + n / 64 % 64;
    assert n / 4096 == n / 262144 * 64 + n / 4096 % 64;
  }

  lemma {:induction false} DecodeEncode(s: string)
    ensures Decode(Encode(s)) == s
    decreases |s|
  {
    if s != [] {
      var head, rest := EncodeChar(s[0]), Encode(s[1..]);
      FirstOfChar(s[0], rest);
      assert (head + rest)[|head|..] == rest;
      DecodeEncode(s[1..]);
    }
  }

  lemma {:induction false} EncodeAppend(a: string, b: string)
    ensures Encode(a + b) == Encode(a) + Encode(b)
    decreases |a|
  {
    if a == [] {
      assert a + b == b;
    } else {
      assert (a + b)[1..] == a[1..] + b;
      EncodeAppend(a[1..], b);
    }
  }

  // A NUL byte is a NUL character.
  lemma {:induction false} NulEncoded(s: string)
    ensures 0 in Encode(s) <==> exists i :: 0 <= i < |s| && s[i] == 0 as char
    decreases |s|
  {
    if s != [] {
      NulEncoded(s[1..]);
      assert s == [s[0]] + s[1..];
    }
  }

  // ASCII is encoded as itself.
  lemma {:induction false} AsciiEncoded(s: string)
    requires forall i :: 0 <= i < |s| ==> (s[i] as int) < 0x80
    ensures |Encode(s)| == |s| && forall i :: 0 <= i < |s| ==> Encode(s)[i] == s[i] as int
    decreases |s|
  {
    if s != [] {
      AsciiEncoded(s[1..]);
      assert forall i :: 0 < i < |s| ==> s[i] == s[1..][i - 1];
    }
  }

  // One character of each longer form: e acute, the euro sign, a smiling face.
  lemma LongerForms()
    ensures EncodeChar(0xE9 as char) == [0xC3, 0xA9]
    ensures EncodeChar(0x20AC as char) == [0xE2, 0x82, 0xAC]
    ensures EncodeChar(0x1F600 as char) == [0xF0, 0x9F, 0x98, 0x80]
  {
  }
}
