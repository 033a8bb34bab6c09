/** UTF-8 as `String::from_utf8` checks it: the well-formed byte sequences of
    Table 3-7 of the Unicode Standard (section 3.9), and nothing else — no
    overlong forms, no surrogates, nothing above U+10FFFF. */
module Utf8 {
  import opened Wrappers

  type byte = x: int | 0 <= x < 256

  /** The encoding of one character: one to four bytes. */
  function EncodeChar(c: char): (bs: seq<byte>)
    ensures 1 <= |bs| <= 4
  {
    var n := c as int;
    if n < 0x80 then [n]
    else if n < 0x800 then [0xC0 + n / 64, 0x80 + n % 64]
    else if n < 0x1_0000 then [0xE0 + n / 4096, 0x80 + (n / 64) % 64, 0x80 + n % 64]
    else [0xF0 + n / 262144, 0x80 + (n / 4096) % 64, 0x80 + (n / 64) % 64, 0x80 + n % 64]
  }

  /** The encoding of a string. */
  function Encode(s: string): seq<byte> {
    if s == [] then [] else EncodeChar(s[0]) + Encode(s[1..])
  }

  /** A continuation byte within `lo..hi`. */
  predicate InRange(bs: seq<byte>, i: nat, lo: int, hi: int) {
    i < |bs| && lo <= bs[i] <= hi
  }

  /** The six payload bits of a continuation byte. */
  function Low(b: byte): int {
    b - 0x80
  }

  /** The character at the front of `bs` and the number of bytes it takes,
      when the front is a well-formed sequence. */
  function DecodeChar(bs: seq<byte>): (r: Option<(char, nat)>)
    ensures r.Some? ==> 1 <= r.value.1 <= |bs|
  {
    if bs == [] then None
    else
      var b0 := bs[0];
      if b0 < 0x80 then Some((b0 as char, 1))
      else if 0xC2 <= b0 <= 0xDF then
        if InRange(bs, 1, 0x80, 0xBF) then Some((((b0 - 0xC0) * 64 + Low(bs[1])) as char, 2))
        else None
      else if 0xE0 <= b0 <= 0xEF then
        var lo := if b0 == 0xE0 then 0xA0 else 0x80;
        var hi := if b0 == 0xED then 0x9F else 0xBF;
        if InRange(bs, 1, lo, hi) && InRange(bs, 2, 0x80, 0xBF) then
          Some((((b0 - 0xE0) * 4096 + Low(bs[1]) * 64 + Low(bs[2])) as char, 3))
        else None
      else if 0xF0 <= b0 <= 0xF4 then
        var lo := if b0 == 0xF0 then 0x90 else 0x80;
        var hi := if b0 == 0xF4 then 0x8F else 0xBF;
        if InRange(bs, 1, lo, hi) && InRange(bs, 2, 0x80, 0xBF) && InRange(bs, 3, 0x80, 0xBF) then
          Some((((b0 - 0xF0) * 262144 + Low(bs[1]) * 4096 + Low(bs[2]) * 64 + Low(bs[3])) as char, 4))
        else None
      else None
  }

  /** `String::from_utf8`: the string, when all of `bs` is well-formed. */
  function Decode(bs: seq<byte>): Option<string>
    decreases |bs|
  {
    if bs == [] then Some([])
    else
      match DecodeChar(bs)
      case None => None
      case Some((c, n)) =>
        match Decode(bs[n..])
        case None => None
        case Some(s) => Some([c] + s)
  }

  /** Division by 64 of a number given by its quotient and remainder. */
  lemma Split64(n: int, q: int, r: int)
    requires 0 <= r < 64 && n == q * 64 + r
    ensures n / 64 == q && n % 64 == r
  {
  }

  /** Division by 4096 of a number given by its quotient and remainder. */
  lemma Split4096(n: int, q: int, r: int)
    requires 0 <= r < 4096 && n == q * 4096 + r
    ensures n / 4096 == q
  {
  }

  /** Division by 262144 of a number given by its quotient and remainder. */
  lemma Split262144(n: int, q: int, r: int)
    requires 0 <= r < 262144 && n == q * 262144 + r
    ensures n / 262144 == q
  {
  }

  /** Two-byte characters: the lead byte carries the top five bits. */
  lemma DecodeEncodeChar2(c: char, rest: seq<byte>)
    requires 0x80 <= c as int < 0x800
    ensures DecodeChar(EncodeChar(c) + rest) == Some((c, 2))
  {
    var n := c as int;
    var q, r := n / 64, n % 64;
    assert q * 64 + r == n && 2 <= q < 32 && 0 <= r < 64;
    var bs := EncodeChar(c) + rest;
    assert bs[0] == 0xC0 + q && bs[1] == 0x80 + r;
    assert (bs[0] - 0xC0) * 64 + Low(bs[1]) == n;
  }

  /** Three-byte characters, which exclude the surrogates U+D800..U+DFFF. */
  lemma DecodeEncodeChar3(c: char, rest: seq<byte>)
    requires 0x800 <= c as int < 0x1_0000
    ensures DecodeChar(EncodeChar(c) + rest) == Some((c, 3))
  {
    var n := c as int;
    var n1 := n / 64;
    var a, m, r := n1 / 64, n1 % 64, n % 64;
    Split4096(n, a, m * 64 + r);
    assert a * 4096 + m * 64 + r == n && 0 <= a < 16 && 0 <= m < 64 && 0 <= r < 64;
    assert a == 0 ==> 0x20 <= m;
    assert a == 0xD ==> m < 0x20;
    var bs := EncodeChar(c) + rest;
    assert bs[0] == 0xE0 + a && bs[1] == 0x80 + m && bs[2] == 0x80 + r;
    assert (bs[0] - 0xE0) * 4096 + Low(bs[1]) * 64 + Low(bs[2]) == n;
  }

  /** Four-byte characters, U+10000..U+10FFFF. */
  lemma DecodeEncodeChar4(c: char, rest: seq<byte>)
    requires 0x1_0000 <= c as int
    ensures DecodeChar(EncodeChar(c) + rest) == Some((c, 4))
  {
    var n := c as int;
    assert n < 0x11_0000;
    var n1 := n / 64;
    var n2 := n1 / 64;
    var a, h, m, r := n2 / 64, n2 % 64, n1 % 64, n % 64;
    Split4096(n, n2, m * 64 + r);
    Split262144(n, a, h * 4096 + m * 64 + r);
    assert a * 262144 + h * 4096 + m * 64 + r == n;
    assert 0 <= a <= 4 && 0 <= h < 64 && 0 <= m < 64 && 0 <= r < 64;
    assert a == 0 ==> 0x10 <= h;
    assert a == 4 ==> h < 0x10;
    var bs := EncodeChar(c) + rest;
    assert bs[0] == 0xF0 + a && bs[1] == 0x80 + h && bs[2] == 0x80 + m && bs[3] == 0x80 + r;
    assert (bs[0] - 0xF0) * 262144 + Low(bs[1]) * 4096 + Low(bs[2]) * 64 + Low(bs[3]) == n;
  }

  /** The encoding of a character decodes back to it, whatever follows. */
  lemma DecodeEncodeChar(c: char, rest: seq<byte>)
    ensures DecodeChar(EncodeChar(c) + rest) == Some((c, |EncodeChar(c)|))
  {
    var n := c as int;
    if n < 0x80 {
      assert (EncodeChar(c) + rest)[0] == n;
    } else if n < 0x800 {
      DecodeEncodeChar2(c, rest);
    } else if n < 0x1_0000 {
      DecodeEncodeChar3(c, rest);
    } else {
      DecodeEncodeChar4(c, rest);
    }
  }

  /** Every string is valid UTF-8 once encoded, and decodes back to itself. */
  lemma {:induction false} DecodeEncode(s: string)
    ensures Decode(Encode(s)) == Some(s)
  {
    if s != [] {
      var e := EncodeChar(s[0]);
      DecodeEncodeChar(s[0], Encode(s[1..]));
      assert Encode(s) == e + Encode(s[1..]);
      assert (e + Encode(s[1..]))[|e|..] == Encode(s[1..]);
      DecodeEncode(s[1..]);
      assert s == [s[0]] + s[1..];
    }
  }

  /** A well-formed two-byte sequence is the encoding of what it decodes to. */
  lemma EncodeDecodeChar2(bs: seq<byte>)
    requires |bs| >= 2 && 0xC2 <= bs[0] <= 0xDF && 0x80 <= bs[1] <= 0xBF
    ensures DecodeChar(bs).Some? && EncodeChar(DecodeChar(bs).value.0) == bs[..2]
  {
    var q: int, r: int := bs[0] - 0xC0, bs[1] - 0x80;
    var n := q * 64 + r;
    assert n / 64 == q && n % 64 == r;
    assert DecodeChar(bs) == Some((n as char, 2));
  }

  /** A well-formed three-byte sequence is the encoding of what it decodes to. */
  lemma EncodeDecodeChar3(bs: seq<byte>)
    requires |bs| >= 3 && 0xE0 <= bs[0] <= 0xEF
    requires InRange(bs, 1, if bs[0] == 0xE0 then 0xA0 else 0x80, if bs[0] == 0xED then 0x9F else 0xBF)
    requires InRange(bs, 2, 0x80, 0xBF)
    ensures DecodeChar(bs).Some? && EncodeChar(DecodeChar(bs).value.0) == bs[..3]
  {
    var a: int, m: int, r: int := bs[0] - 0xE0, bs[1] - 0x80, bs[2] - 0x80;
    var n1 := a * 64 + m;
    var n := n1 * 64 + r;
    assert n == a * 4096 + m * 64 + r;
    Split64(n, n1, r);
    Split64(n1, a, m);
    Split4096(n, a, m * 64 + r);
    assert 0x800 <= n < 0x1_0000 && (n < 0xD800 || 0xE000 <= n);
    assert DecodeChar(bs) == Some((n as char, 3));
  }

  /** A well-formed four-byte sequence is the encoding of what it decodes to. */
  lemma EncodeDecodeChar4(bs: seq<byte>)
    requires |bs| >= 4 && 0xF0 <= bs[0] <= 0xF4
    requires InRange(bs, 1, if bs[0] == 0xF0 then 0x90 else 0x80, if bs[0] == 0xF4 then 0x8F else 0xBF)
    requires InRange(bs, 2, 0x80, 0xBF) && InRange(bs, 3, 0x80, 0xBF)
    ensures DecodeChar(bs).Some? && EncodeChar(DecodeChar(bs).value.0) == bs[..4]
  {
    var a: int, h: int, m: int, r: int := bs[0] - 0xF0, bs[1] - 0x80, bs[2] - 0x80, bs[3] - 0x80;
    var n1 := a * 64 + h;
    var n2 := n1 * 64 + m;
    var n := n2 * 64 + r;
    assert n == a * 262144 + h * 4096 + m * 64 + r;
    Split64(n, n2, r);
    Split64(n2, n1, m);
    Split64(n1, a, h);
    Split4096(n, n1, m * 64 + r);
    Split262144(n, a, h * 4096 + m * 64 + r);
    assert 0x1_0000 <= n < 0x11_0000;
    assert DecodeChar(bs) == Some((n as char, 4));
  }

  /** Whatever decodes is the encoding of its character: the decoder accepts
      only the one encoding of each character. */
  lemma EncodeDecodeChar(bs: seq<byte>)
    requires DecodeChar(bs).Some?
    ensures EncodeChar(DecodeChar(bs).value.0) == bs[..DecodeChar(bs).value.1]
  {
    var b0 := bs[0];
    if b0 < 0x80 {
    } else if 0xC2 <= b0 <= 0xDF {
      EncodeDecodeChar2(bs);
    } else if 0xE0 <= b0 <= 0xEF {
      EncodeDecodeChar3(bs);
    } else {
      EncodeDecodeChar4(bs);
    }
  }

  /** Encoding a string character by character. */
  lemma EncodeCons(c: char, s: string)
    ensures Encode([c] + s) == EncodeChar(c) + Encode(s)
  {
    assert ([c] + s)[1..] == s;
  }

  /** A non-empty sequence decodes as its first character followed by the
      decoding of the rest. */
  lemma DecodeStep(bs: seq<byte>)
    requires bs != [] && Decode(bs).Some?
    ensures DecodeChar(bs).Some?
    ensures var n := DecodeChar(bs).value.1;
      Decode(bs[n..]).Some? && Decode(bs).value == [DecodeChar(bs).value.0] + Decode(bs[n..]).value
  {
  }

  /** Decoding and encoding are inverse: what decodes re-encodes to the same
      bytes. */
  lemma {:induction false} EncodeDecode(bs: seq<byte>)
    requires Decode(bs).Some?
    ensures Encode(Decode(bs).value) == bs
    decreases |bs|
  {
    if bs != [] {
      DecodeStep(bs);
      var (c, n) := DecodeChar(bs).value;
      var rest := Decode(bs[n..]).value;
      assert EncodeChar(c) == bs[..n] by {
        EncodeDecodeChar(bs);
      }
      assert Encode(rest) == bs[n..] by {
        EncodeDecode(bs[n..]);
      }
      assert Encode(Decode(bs).value) == EncodeChar(c) + Encode(rest) by {
        EncodeCons(c, rest);
      }
      assert bs == bs[..n] + bs[n..];
    }
  }
}
