/** The `hexencode` template filter: every character of the input becomes `%` followed
    by the lowercase hexadecimal of its UTF-8 bytes. */
module HexencodeTags {

  newtype byte = x: int | 0 <= x < 256

  predicate IsContinuation(b: byte)
  {
    0x80 <= b as int < 0xC0
  }

  /** `force_bytes(c)`: the UTF-8 encoding of one character (a Unicode scalar value).
      The lead byte gives the length, every later byte is a continuation byte carrying
      six bits, and the bits read back, most significant first, as the code point. */
  function Utf8Char(c: char): (bs: seq<byte>)
    ensures 1 <= |bs| <= 4
    ensures |bs| == 1 <==> c as int < 0x80
    ensures |bs| == 2 <==> 0x80 <= c as int < 0x800
    ensures |bs| == 3 <==> 0x800 <= c as int < 0x10000
    ensures forall i :: 1 <= i < |bs| ==> IsContinuation(bs[i])
    ensures |bs| == 1 ==> bs[0] as int == c as int
    ensures |bs| == 2 ==>
      0xC0 <= bs[0] as int < 0xE0
      && (bs[0] as int - 0xC0) * 64 + (bs[1] as int - 0x80) == c as int
    ensures |bs| == 3 ==>
      0xE0 <= bs[0] as int < 0xF0
      && (bs[0] as int - 0xE0) * 4096 + (bs[1] as int - 0x80) * 64 + (bs[2] as int - 0x80) == c as int
    ensures |bs| == 4 ==>
      0xF0 <= bs[0] as int < 0xF8
      && (bs[0] as int - 0xF0) * 262144 + (bs[1] as int - 0x80) * 4096
         + (bs[2] as int - 0x80) * 64 + (bs[3] as int - 0x80) == c as int
  {
    var n := c as int;
    if n < 0x80 then [n as byte]
    else if n < 0x800 then Utf8Two(n)
    else if n < 0x10000 then Utf8Three(n)
    else Utf8Four(n)
  }

  function Utf8Two(n: int): (bs: seq<byte>)
    requires 0x80 <= n < 0x800
    ensures |bs| == 2 && IsContinuation(bs[1])
    ensures 0xC0 <= bs[0] as int < 0xE0 && (bs[0] as int - 0xC0) * 64 + (bs[1] as int - 0x80) == n
  {
    [(0xC0 + n / 64) as byte, (0x80 + n % 64) as byte]
  }

  function Utf8Three(n: int): (bs: seq<byte>)
    requires 0x800 <= n < 0x10000
    ensures |bs| == 3 && IsContinuation(bs[1]) && IsContinuation(bs[2])
    ensures 0xE0 <= bs[0] as int < 0xF0
      && (bs[0] as int - 0xE0) * 4096 + (bs[1] as int - 0x80) * 64 + (bs[2] as int - 0x80) == n
  {
    var lo := n % 64;
    var mid := (n / 64) % 64;
    assert n == (n / 4096) * 4096 + mid * 64 + lo;
    [(0xE0 + n / 4096) as byte, (0x80 + mid) as byte, (0x80 + lo) as byte]
  }

  function Utf8Four(n: int): (bs: seq<byte>)
    requires 0x10000 <= n < 0x110000
    ensures |bs| == 4 && IsContinuation(bs[1]) && IsContinuation(bs[2]) && IsContinuation(bs[3])
    ensures 0xF0 <= bs[0] as int < 0xF8
      && (bs[0] as int - 0xF0) * 262144 + (bs[1] as int - 0x80) * 4096
         + (bs[2] as int - 0x80) * 64 + (bs[3] as int - 0x80) == n
  {
    var lo := n % 64;
    var mid := (n / 64) % 64;
    var high := (n / 4096) % 64;
    assert n == (n / 262144) * 262144 + high * 4096 + mid * 64 + lo;
    [(0xF0 + n / 262144) as byte, (0x80 + high) as byte, (0x80 + mid) as byte, (0x80 + lo) as byte]
  }

  /** The UTF-8 encoding of a string. */
  function Utf8(s: string): seq<byte>
  {
    if s == [] then [] else Utf8Char(s[0]) + Utf8(s[1..])
  }

  predicate IsAscii(s: string)
  {
    forall i :: 0 <= i < |s| ==> s[i] as int < 0x80
  }

  predicate IsHexDigit(c: char)
  {
    '0' <= c <= '9' || 'a' <= c <= 'f' || 'A' <= c <= 'F'
  }

  /** The lowercase hexadecimal digit of `d`, as `binascii.hexlify` writes it. */
  function HexDigit(d: nat): (c: char)
    requires d < 16
    ensures IsHexDigit(c) && !('A' <= c <= 'F')
  {
    if d < 10 then ('0' as int + d) as char else ('a' as int + d - 10) as char
  }

  /** The value of a hexadecimal digit in either case. */
  function HexValue(c: char): (d: nat)
    requires IsHexDigit(c)
    ensures d < 16
  {
    if '0' <= c <= '9' then c as int - '0' as int
    else if 'a' <= c <= 'f' then c as int - 'a' as int + 10
    else c as int - 'A' as int + 10
  }

  lemma HexValueOfDigit(d: nat)
    requires d < 16
    ensures HexValue(HexDigit(d)) == d
  {
  }

  /** `binascii.hexlify`: two lowercase hexadecimal digits per byte, the high half of
      the byte first. */
  function Hexlify(bs: seq<byte>): (h: string)
    ensures |h| == 2 * |bs|
    ensures forall i :: 0 <= i < |h| ==> IsHexDigit(h[i]) && !('A' <= h[i] <= 'F')
    ensures forall i :: 0 <= i < |bs| ==>
      h[2 * i] == HexDigit(bs[i] as nat / 16) && h[2 * i + 1] == HexDigit(bs[i] as nat % 16)
  {
    if bs == [] then []
    else
      var t := Hexlify(bs[1..]);
      var h := [HexDigit(bs[0] as nat / 16), HexDigit(bs[0] as nat % 16)] + t;
      HexlifyPairs(bs, t, h);
      PairsAreLowerHex(bs, h);
      h
  }

  lemma HexlifyPairs(bs: seq<byte>, t: string, h: string)
    requires bs != [] && |t| == 2 * (|bs| - 1)
    requires forall j :: 0 <= j < |bs| - 1 ==>
      t[2 * j] == HexDigit(bs[1..][j] as nat / 16) && t[2 * j + 1] == HexDigit(bs[1..][j] as nat % 16)
    requires h == [HexDigit(bs[0] as nat / 16), HexDigit(bs[0] as nat % 16)] + t
    ensures forall i :: 0 <= i < |bs| ==>
      h[2 * i] == HexDigit(bs[i] as nat / 16) && h[2 * i + 1] == HexDigit(bs[i] as nat % 16)
  {
    forall i | 0 <= i < |bs|
      ensures h[2 * i] == HexDigit(bs[i] as nat / 16) && h[2 * i + 1] == HexDigit(bs[i] as nat % 16)
    {
      if i > 0 {
        var j := i - 1;
        assert bs[1..][j] == bs[i];
        assert h[2 * i] == t[2 * j] && h[2 * i + 1] == t[2 * j + 1];
      }
    }
  }

  lemma PairsAreLowerHex(bs: seq<byte>, h: string)
    requires |h| == 2 * |bs|
    requires forall i :: 0 <= i < |bs| ==>
      h[2 * i] == HexDigit(bs[i] as nat / 16) && h[2 * i + 1] == HexDigit(bs[i] as nat % 16)
    ensures forall i :: 0 <= i < |h| ==> IsHexDigit(h[i]) && !('A' <= h[i] <= 'F')
  {
    forall i | 0 <= i < |h| ensures IsHexDigit(h[i]) && !('A' <= h[i] <= 'F') {
      var j := i / 2;
      if i % 2 == 0 {
        assert h[i] == h[2 * j];
      } else {
        assert h[i] == h[2 * j + 1];
      }
    }
  }

  /** One character's block: a single `%` and then, for each of the character's UTF-8
      bytes in order, the two lowercase hexadecimal digits of that byte. */
  function HexEncodeChar(c: char): (r: string)
    ensures |r| == 1 + 2 * |Utf8Char(c)|
    ensures r[0] == '%'
    ensures forall i :: 1 <= i < |r| ==> IsHexDigit(r[i]) && !('A' <= r[i] <= 'F')
    ensures forall i :: 0 <= i < |Utf8Char(c)| ==>
      r[1 + 2 * i] == HexDigit(Utf8Char(c)[i] as nat / 16)
      && r[2 + 2 * i] == HexDigit(Utf8Char(c)[i] as nat % 16)
  {
    var bs := Utf8Char(c);
    var h := Hexlify(bs);
    var r := "%" + h;
    forall i | 1 <= i < |r| ensures r[i] == h[i - 1] { }
    forall i | 0 <= i < |bs| ensures r[1 + 2 * i] == h[2 * i] && r[2 + 2 * i] == h[2 * i + 1] { }
    r
  }

  /** `hexencode`: the blocks of the characters, in order. */
  function HexEncode(s: string): (r: string)
    ensures s == [] ==> r == []
  {
    if s == [] then [] else HexEncodeChar(s[0]) + HexEncode(s[1..])
  }

  lemma {:induction false} HexEncodeConcat(a: string, b: string)
    ensures HexEncode(a + b) == HexEncode(a) + HexEncode(b)
  {
    if a == [] {
      assert a + b == b;
    } else {
      SplitHead(a, b);
      HexEncodeCons(a[0], a[1..] + b);
      HexEncodeCons(a[0], a[1..]);
      HexEncodeConcat(a[1..], b);
      Assoc(HexEncodeChar(a[0]), HexEncode(a[1..]), HexEncode(b));
    }
  }

  /** The output for a character followed by more text: that character's block, then the
      output for the rest. */
  lemma HexEncodeCons(c: char, t: string)
    ensures HexEncode([c] + t) == HexEncodeChar(c) + HexEncode(t)
  {
    assert ([c] + t)[1..] == t;
  }

  lemma SplitHead(a: string, b: string)
    requires a != []
    ensures a == [a[0]] + a[1..]
    ensures a + b == [a[0]] + (a[1..] + b)
  {
  }

  lemma Assoc(x: string, y: string, z: string)
    ensures x + (y + z) == (x + y) + z
  {
  }

  /** For ASCII input of length n the output has length 3n: at every third position a
      `%` and then the two lowercase digits of the character's code. */
  lemma {:induction false} HexEncodeAscii(s: string)
    requires IsAscii(s)
    ensures |HexEncode(s)| == 3 * |s|
    ensures forall i :: 0 <= i < |s| ==>
      HexEncode(s)[3 * i] == '%'
      && HexEncode(s)[3 * i + 1] == HexDigit(s[i] as int / 16)
      && HexEncode(s)[3 * i + 2] == HexDigit(s[i] as int % 16)
  {
    if s != [] {
      assert IsAscii(s[1..]) by {
        assert forall j :: 0 <= j < |s| - 1 ==> s[1..][j] == s[j + 1];
      }
      HexEncodeAscii(s[1..]);
      AsciiBlock(s[0]);
      ConsBlocks(s, HexEncode(s), HexEncode(s[1..]));
    }
  }

  lemma ConsBlocks(s: string, r: string, tail: string)
    requires s != [] && IsAscii(s)
    requires r == ['%', HexDigit(s[0] as int / 16), HexDigit(s[0] as int % 16)] + tail
    requires |tail| == 3 * (|s| - 1)
    requires forall j :: 0 <= j < |s| - 1 ==>
      tail[3 * j] == '%' && tail[3 * j + 1] == HexDigit(s[1..][j] as int / 16)
      && tail[3 * j + 2] == HexDigit(s[1..][j] as int % 16)
    ensures |r| == 3 * |s|
    ensures forall i :: 0 <= i < |s| ==>
      r[3 * i] == '%' && r[3 * i + 1] == HexDigit(s[i] as int / 16)
      && r[3 * i + 2] == HexDigit(s[i] as int % 16)
  {
    forall i | 0 <= i < |s|
      ensures r[3 * i] == '%' && r[3 * i + 1] == HexDigit(s[i] as int / 16)
        && r[3 * i + 2] == HexDigit(s[i] as int % 16)
    {
      if i > 0 {
        var j := i - 1;
        assert s[1..][j] == s[i];
        assert r[3 * i] == tail[3 * j] && r[3 * i + 1] == tail[3 * j + 1] && r[3 * i + 2] == tail[3 * j + 2];
      }
    }
  }

  /** An ASCII character's block is `%` and the two digits of its code. */
  lemma AsciiBlock(c: char)
    requires c as int < 0x80
    ensures HexEncodeChar(c) == ['%', HexDigit(c as int / 16), HexDigit(c as int % 16)]
  {
    assert Utf8Char(c)[0] as int == c as int;
  }

  /** A character outside ASCII with k UTF-8 bytes gives a single `%` and 2k digits. */
  lemma NonAsciiBlock(c: char)
    requires c as int >= 0x80
    ensures var r := HexEncode([c]);
      |r| == 1 + 2 * |Utf8Char(c)| && |Utf8Char(c)| >= 2
      && r[0] == '%' && forall i :: 1 <= i < |r| ==> IsHexDigit(r[i]) && r[i] != '%'
  {
    assert HexEncode([c]) == HexEncodeChar(c) + HexEncode([]);
  }

  /** `urllib.parse.unquote_to_bytes`: `%` and two hexadecimal digits give that byte;
      every other character stands for its own UTF-8 bytes. */
  function PercentDecode(t: string): seq<byte>
  {
    if t == [] then []
    else if |t| >= 3 && t[0] == '%' && IsHexDigit(t[1]) && IsHexDigit(t[2]) then
      [(HexValue(t[1]) * 16 + HexValue(t[2])) as byte] + PercentDecode(t[3..])
    else Utf8Char(t[0]) + PercentDecode(t[1..])
  }

  /** For ASCII input, percent-decoding the output gives back the input's bytes, one per
      character and equal to its code. */
  lemma {:induction false} AsciiRoundTrip(s: string)
    requires IsAscii(s)
    ensures PercentDecode(HexEncode(s)) == Utf8(s)
    ensures |Utf8(s)| == |s| && forall i :: 0 <= i < |s| ==> Utf8(s)[i] as int == s[i] as int
  {
    if s != [] {
      var c := s[0];
      assert IsAscii(s[1..]) by {
        assert forall j :: 0 <= j < |s| - 1 ==> s[1..][j] == s[j + 1];
      }
      AsciiRoundTrip(s[1..]);
      AsciiBlock(c);
      DecodeBlock(c as int, HexEncode(s[1..]));
      assert Utf8Char(c) == [c as int as byte];
      AsciiUtf8Cons(s, Utf8(s[1..]));
    }
  }

  /** `%` and the two digits of a byte decode to that byte. */
  lemma DecodeBlock(b: nat, rest: string)
    requires b < 256
    ensures PercentDecode(['%', HexDigit(b / 16), HexDigit(b % 16)] + rest) == [b as byte] + PercentDecode(rest)
  {
    var t := ['%', HexDigit(b / 16), HexDigit(b % 16)] + rest;
    HexValueOfDigit(b / 16);
    HexValueOfDigit(b % 16);
    assert t[3..] == rest;
  }

  lemma AsciiUtf8Cons(s: string, tail: seq<byte>)
    requires s != [] && s[0] as int < 0x80
    requires |tail| == |s| - 1 && forall j :: 0 <= j < |s| - 1 ==> tail[j] as int == s[1..][j] as int
    ensures var u := [s[0] as int as byte] + tail;
      |u| == |s| && forall i :: 0 <= i < |s| ==> u[i] as int == s[i] as int
  {
    var u := [s[0] as int as byte] + tail;
    forall i | 0 < i < |s| ensures u[i] as int == s[i] as int {
      assert u[i] == tail[i - 1] && s[1..][i - 1] == s[i];
    }
  }

  /** The bytes percent-encoded one by one. */
  function PercentBytes(bs: seq<byte>): (r: string)
    ensures |r| == 3 * |bs|
  {
    if bs == [] then [] else "%" + Hexlify([bs[0]]) + PercentBytes(bs[1..])
  }

  lemma {:induction false} PercentBytesRoundTrip(bs: seq<byte>)
    ensures PercentDecode(PercentBytes(bs)) == bs
  {
    if bs != [] {
      var b := bs[0] as nat;
      HexValueOfDigit(b / 16);
      HexValueOfDigit(b % 16);
      var t := PercentBytes(bs);
      assert Hexlify([bs[0]]) == [HexDigit(b / 16), HexDigit(b % 16)];
      assert t[0] == '%' && t[1] == HexDigit(b / 16) && t[2] == HexDigit(b % 16);
      assert t[3..] == PercentBytes(bs[1..]);
      PercentBytesRoundTrip(bs[1..]);
    }
  }

  /** The encoder with one `%` per byte, which percent-decoding undoes for every input. */
  function HexEncodeBytes(s: string): (r: string)
    ensures PercentDecode(r) == Utf8(s)
    ensures IsAscii(s) ==> r == HexEncode(s)
  {
    PercentBytesRoundTrip(Utf8(s));
    if IsAscii(s) then AsciiAgree(s); PercentBytes(Utf8(s)) else PercentBytes(Utf8(s))
  }

  /** On ASCII input the two encoders agree. */
  lemma {:induction false} AsciiAgree(s: string)
    requires IsAscii(s)
    ensures PercentBytes(Utf8(s)) == HexEncode(s)
  {
    if s != [] {
      var b := Utf8Char(s[0]);
      assert |b| == 1;
      assert Utf8(s) == b + Utf8(s[1..]);
      assert (b + Utf8(s[1..]))[1..] == Utf8(s[1..]);
      AsciiAgree(s[1..]);
    }
  }

  /** Text without `%` is decoded one character at a time; ASCII characters give one
      byte each. */
  lemma {:induction false} PercentDecodePlain(t: string)
    requires forall i :: 0 <= i < |t| ==> t[i] != '%' && t[i] as int < 0x80
    ensures |PercentDecode(t)| == |t|
  {
    if t != [] {
      assert |Utf8Char(t[0])| == 1;
      PercentDecodePlain(t[1..]);
    }
  }

  /** For every character outside ASCII, with k >= 2 UTF-8 bytes, percent-decoding its
      block gives back the lead byte and then one byte per remaining hex digit: 2k - 1
      bytes in place of the character's k. */
  lemma NonAsciiNeverDecodes(c: char)
    requires c as int >= 0x80
    ensures PercentDecode(HexEncode([c]))[0] == Utf8Char(c)[0]
    ensures |PercentDecode(HexEncode([c]))| == 2 * |Utf8Char(c)| - 1 > |Utf8Char(c)|
    ensures PercentDecode(HexEncode([c])) != Utf8Char(c)
  {
    var bs := Utf8Char(c);
    var r := HexEncodeChar(c);
    assert HexEncode([c]) == r + HexEncode([]);
    assert HexEncode([c]) == r;
    var b := bs[0] as nat;
    HexValueOfDigit(b / 16);
    HexValueOfDigit(b % 16);
    assert r[1] == HexDigit(b / 16) && r[2] == HexDigit(b % 16);
    PercentDecodePlain(r[3..]);
  }

  /** `é` (U+00E9, bytes C3 A9) is written `%c3a9`, which decodes to C3 `a` `9`. */
  lemma NonAsciiNotDecodable()
    ensures var s := [0xE9 as char];
      Utf8(s) == [0xC3, 0xA9] && HexEncode(s) == "%c3a9"
      && PercentDecode(HexEncode(s)) == [0xC3, 0x61, 0x39]
      && PercentDecode(HexEncodeBytes(s)) == Utf8(s)
  {
    var s := [0xE9 as char];
    assert Utf8Char(s[0]) == [0xC3, 0xA9];
    assert Utf8(s) == [0xC3, 0xA9];
    assert Hexlify([0xC3, 0xA9]) == "c3a9";
    assert HexEncode(s) == "%c3a9";
    var t := "%c3a9";
    assert t[3..] == "a9" && "a9"[1..] == "9";
    assert PercentDecode("9") == [0x39];
    assert PercentDecode("a9") == [0x61, 0x39];
  }
}
