/** UTF-8, as Python's `str.encode("utf-8")` and `bytes.decode("utf-8")`
    perform it.  The strict decoder is the one `lab1` uses on requests (an
    invalid byte raises); the lenient one is `errors="ignore"`, used by the
    `lab2` server and by the client, which drops every byte that does not
    start a well-formed sequence. */
module Utf8 {
  import opened Text

  /** A continuation byte `10xxxxxx`. */
  predicate IsCont(b: byte) {
    0x80 <= b < 0xC0
  }

  /** The bytes of one scalar value: one byte below U+0080, otherwise two to
      four bytes none of which is ASCII.  `m`, `p` and `q` are the value
      shifted right by 6, 12 and 18 bits. */
  function EncodeChar(c: char): (bs: seq<byte>)
    ensures 1 <= |bs| <= 4
    ensures |bs| == 1 <==> c as int < 0x80
    ensures |bs| == 1 ==> bs[0] == c as int
    ensures forall i :: 0 < i < |bs| ==> IsCont(bs[i])
    ensures |bs| > 1 ==> bs[0] >= 0xC2
  {
    var n := c as int;
    var m := n / 64;
    var p := m / 64;
    var q := p / 64;
    if n < 0x80 then [n]
    else if n < 0x800 then [0xC0 + m, 0x80 + n % 64]
    else if n < 0x10000 then [0xE0 + p, 0x80 + m % 64, 0x80 + n % 64]
    else [0xF0 + q, 0x80 + p % 64, 0x80 + m % 64, 0x80 + n % 64]
  }

  /** `s.encode("utf-8")`. */
  function Encode(s: string): (bs: seq<byte>)
    ensures |bs| >= |s|
    ensures (forall i :: 0 <= i < |s| ==> s[i] as int < 0x80) ==> |bs| == |s|
  {
    if |s| == 0 then [] else EncodeChar(s[0]) + Encode(s[1..])
  }

  lemma {:induction false} EncodeAppend(a: string, b: string)
    ensures Encode(a + b) == Encode(a) + Encode(b)
    decreases |a|
  {
    if |a| == 0 {
      assert a + b == b;
    } else {
      assert (a + b)[1..] == a[1..] + b;
      EncodeAppend(a[1..], b);
    }
  }

  /** A character that is not a carriage return is never encoded into a
      byte 13, so header framing survives encoding. */
  lemma {:induction false} EncodeKeepsCr(s: string)
    ensures (13 in Encode(s)) <==> ('\r' in s)
    decreases |s|
  {
    if |s| > 0 {
      EncodeKeepsCr(s[1..]);
      assert s == [s[0]] + s[1..];
      var e := EncodeChar(s[0]);
      assert Encode(s) == e + Encode(s[1..]);
      assert (13 in e) <==> s[0] == '\r' by {
        if |e| > 1 {
          assert forall i :: 0 <= i < |e| ==> e[i] >= 0x80;
        }
      }
    }
  }

  /** The well-formed sequence at the start of `bs`, as the Unicode standard's
      table of well-formed byte sequences defines it (no overlong forms, no
      surrogates, nothing above U+10FFFF): the character and its length. */
  function DecodeOne(bs: seq<byte>): (r: Option<(char, nat)>)
    requires |bs| > 0
    ensures r.Some? ==> 1 <= r.value.1 <= |bs|
  {
    var b0 := bs[0] as int;
    if b0 < 0x80 then Some((b0 as char, 1))
    else if 0xC2 <= b0 <= 0xDF then
      if |bs| >= 2 && IsCont(bs[1]) then
        Some((((b0 - 0xC0) * 64 + (bs[1] as int - 0x80)) as char, 2))
      else None
    else if 0xE0 <= b0 <= 0xEF then
      var lo := if b0 == 0xE0 then 0xA0 else 0x80;
      var hi := if b0 == 0xED then 0x9F else 0xBF;
      if |bs| >= 3 && lo <= bs[1] <= hi && IsCont(bs[2]) then
        Some((((b0 - 0xE0) * 4096 + (bs[1] as int - 0x80) * 64 + (bs[2] as int - 0x80)) as char, 3))
      else None
    else if 0xF0 <= b0 <= 0xF4 then
      var lo := if b0 == 0xF0 then 0x90 else 0x80;
      var hi := if b0 == 0xF4 then 0x8F else 0xBF;
      if |bs| >= 4 && lo <= bs[1] <= hi && IsCont(bs[2]) && IsCont(bs[3]) then
        Some((((b0 - 0xF0) * 262144 + (bs[1] as int - 0x80) * 4096
               + (bs[2] as int - 0x80) * 64 + (bs[3] as int - 0x80)) as char, 4))
      else None
    else None
  }

  /** `bs.decode("utf-8")`: `None` where Python raises `UnicodeDecodeError`. */
  function DecodeStrict(bs: seq<byte>): (r: Option<string>)
    ensures r.Some? ==> |r.value| <= |bs|
    decreases |bs|
  {
    if |bs| == 0 then Some([])
    else match DecodeOne(bs)
      case None => None
      case Some((c, k)) =>
        match DecodeStrict(bs[k..])
        case None => None
        case Some(t) => Some([c] + t)
  }

  /** `bs.decode("utf-8", errors="ignore")`: a well-formed sequence yields
      its character, any other byte is skipped on its own. */
  function DecodeIgnore(bs: seq<byte>): (s: string)
    ensures |s| <= |bs|
    decreases |bs|
  {
    if |bs| == 0 then []
    else match DecodeOne(bs)
      case None => DecodeIgnore(bs[1..])
      case Some((c, k)) => [c] + DecodeIgnore(bs[k..])
  }

  lemma DecodeOneTwo(c: char, rest: seq<byte>)
    requires 0x80 <= c as int < 0x800
    ensures DecodeOne(EncodeChar(c) + rest) == Some((c, 2))
  {
    var n := c as int;
    var m := n / 64;
    assert n == m * 64 + n % 64;
    var bs := EncodeChar(c) + rest;
    assert bs[0] == 0xC0 + m && bs[1] == 0x80 + n % 64;
  }

  lemma DecodeOneThree(c: char, rest: seq<byte>)
    requires 0x800 <= c as int < 0x10000
    ensures DecodeOne(EncodeChar(c) + rest) == Some((c, 3))
  {
    var n := c as int;
    var m := n / 64;
    var p := m / 64;
    assert n == m * 64 + n % 64;
    assert m == p * 64 + m % 64;
    var bs := EncodeChar(c) + rest;
    assert bs[0] == 0xE0 + p && bs[1] == 0x80 + m % 64 && bs[2] == 0x80 + n % 64;
    assert p == 0 ==> m % 64 >= 32;
    assert p == 13 ==> m % 64 < 32;
  }

  lemma DecodeOneFour(c: char, rest: seq<byte>)
    requires 0x10000 <= c as int
    ensures DecodeOne(EncodeChar(c) + rest) == Some((c, 4))
  {
    var n := c as int;
    var m := n / 64;
    var p := m / 64;
    var q := p / 64;
    assert n == m * 64 + n % 64;
    assert m == p * 64 + m % 64;
    assert p == q * 64 + p % 64;
    var bs := EncodeChar(c) + rest;
    assert bs[0] == 0xF0 + q && bs[1] == 0x80 + p % 64 && bs[2] == 0x80 + m % 64 && bs[3] == 0x80 + n % 64;
    assert q == 0 ==> p % 64 >= 16;
    assert q == 4 ==> p % 64 < 16;
  }

  lemma DecodeOneEncodeChar(c: char, rest: seq<byte>)
    ensures DecodeOne(EncodeChar(c) + rest) == Some((c, |EncodeChar(c)|))
  {
    var n := c as int;
    if n < 0x80 {
    } else if n < 0x800 {
      DecodeOneTwo(c, rest);
    } else if n < 0x10000 {
      DecodeOneThree(c, rest);
    } else {
      DecodeOneFour(c, rest);
    }
  }

  lemma EncodeTwo(bs: seq<byte>)
    requires |bs| >= 2 && 0xC2 <= bs[0] <= 0xDF && IsCont(bs[1])
    ensures DecodeOne(bs).Some? && EncodeChar(DecodeOne(bs).value.0) == bs[..2]
  {
    var x := bs[1] as int - 0x80;
    var n := (bs[0] - 0xC0) * 64 + x;
    assert n / 64 == bs[0] - 0xC0 && n % 64 == x;
  }

  lemma EncodeThree(bs: seq<byte>)
    requires |bs| >= 3 && 0xE0 <= bs[0] <= 0xEF && DecodeOne(bs).Some?
    ensures EncodeChar(DecodeOne(bs).value.0) == bs[..3]
  {
    var x, y := bs[1] as int - 0x80, bs[2] as int - 0x80;
    var m := (bs[0] - 0xE0) * 64 + x;
    var n := m * 64 + y;
    assert n / 64 == m && n % 64 == y;
    assert m / 64 == bs[0] - 0xE0 && m % 64 == x;
  }

  lemma EncodeFour(bs: seq<byte>)
    requires |bs| >= 4 && 0xF0 <= bs[0] <= 0xF4 && DecodeOne(bs).Some?
    ensures EncodeChar(DecodeOne(bs).value.0) == bs[..4]
  {
    var x, y, z := bs[1] as int - 0x80, bs[2] as int - 0x80, bs[3] as int - 0x80;
    var p := (bs[0] - 0xF0) * 64 + x;
    var m := p * 64 + y;
    var n := m * 64 + z;
    assert n / 64 == m && n % 64 == z;
    assert m / 64 == p && m % 64 == y;
    assert p / 64 == bs[0] - 0xF0 && p % 64 == x;
  }

  /** Decoding a valid sequence and re-encoding the character gives back the
      same bytes: UTF-8 has one encoding per character. */
  lemma EncodeCharDecodeOne(bs: seq<byte>)
    requires |bs| > 0 && DecodeOne(bs).Some?
    ensures EncodeChar(DecodeOne(bs).value.0) == bs[..DecodeOne(bs).value.1]
  {
    if bs[0] < 0x80 {
    } else if bs[0] <= 0xDF {
      EncodeTwo(bs);
    } else if bs[0] <= 0xEF {
      EncodeThree(bs);
    } else {
      EncodeFour(bs);
    }
  }

  /** One lenient decoding step over bytes that start with an encoded
      character. */
  lemma IgnoreStep(c: char, rest: seq<byte>)
    ensures DecodeIgnore(EncodeChar(c) + rest) == [c] + DecodeIgnore(rest)
  {
    var e := EncodeChar(c);
    DecodeOneEncodeChar(c, rest);
    assert (e + rest)[|e|..] == rest;
  }

  /** One strict decoding step over bytes that start with an encoded
      character. */
  lemma StrictStep(c: char, rest: seq<byte>)
    ensures DecodeStrict(rest).None? ==> DecodeStrict(EncodeChar(c) + rest).None?
    ensures DecodeStrict(rest).Some? ==> DecodeStrict(EncodeChar(c) + rest) == Some([c] + DecodeStrict(rest).value)
  {
    var e := EncodeChar(c);
    DecodeOneEncodeChar(c, rest);
    assert (e + rest)[|e|..] == rest;
  }

  /** The encoding of a non-empty string, followed by more bytes, starts
      with the encoding of its first character. */
  lemma EncodeCons(s: string, rest: seq<byte>)
    requires |s| > 0
    ensures Encode(s) + rest == EncodeChar(s[0]) + (Encode(s[1..]) + rest)
  {
  }

  /** Encoded text decodes back to itself, and lenient decoding resumes
      exactly at the first byte after it. */
  lemma {:induction false} DecodeIgnoreEncode(s: string, rest: seq<byte>)
    ensures DecodeIgnore(Encode(s) + rest) == s + DecodeIgnore(rest)
    decreases |s|
  {
    if |s| == 0 {
      assert Encode(s) + rest == rest;
    } else {
      var tail := Encode(s[1..]) + rest;
      EncodeCons(s, rest);
      IgnoreStep(s[0], tail);
      DecodeIgnoreEncode(s[1..], rest);
      ConsAppend(s, DecodeIgnore(rest));
    }
  }

  /** The same for the strict decoder: encoded text never raises, and the
      result depends on what follows only through its own decoding. */
  lemma {:induction false} DecodeStrictEncode(s: string, rest: seq<byte>)
    ensures DecodeStrict(rest).None? ==> DecodeStrict(Encode(s) + rest).None?
    ensures DecodeStrict(rest).Some? ==> DecodeStrict(Encode(s) + rest) == Some(s + DecodeStrict(rest).value)
    decreases |s|
  {
    if |s| == 0 {
      assert Encode(s) + rest == rest;
      if DecodeStrict(rest).Some? {
        EmptyAppend(s, DecodeStrict(rest).value);
      }
    } else {
      var tail := Encode(s[1..]) + rest;
      EncodeCons(s, rest);
      StrictStep(s[0], tail);
      DecodeStrictEncode(s[1..], rest);
      if DecodeStrict(rest).Some? {
        ConsAppend(s, DecodeStrict(rest).value);
      }
    }
  }

  /** `s.encode("utf-8").decode("utf-8") == s`, strictly and leniently. */
  lemma DecodeOfEncode(s: string)
    ensures DecodeStrict(Encode(s)) == Some(s)
    ensures DecodeIgnore(Encode(s)) == s
  {
    DecodeIgnoreEncode(s, []);
    DecodeStrictEncode(s, []);
    assert Encode(s) + [] == Encode(s);
    assert s + [] == s;
  }

  /** Bytes the strict decoder accepts are exactly the encoding of what it
      returns, and the lenient decoder reads the same text from them. */
  lemma {:induction false} EncodeOfDecode(bs: seq<byte>)
    requires DecodeStrict(bs).Some?
    ensures Encode(DecodeStrict(bs).value) == bs
    ensures DecodeIgnore(bs) == DecodeStrict(bs).value
    decreases |bs|
  {
    if |bs| > 0 {
      var c := DecodeOne(bs).value.0;
      var k := DecodeOne(bs).value.1;
      EncodeCharDecodeOne(bs);
      assert bs == EncodeChar(c) + bs[k..];
      IgnoreStep(c, bs[k..]);
      EncodeOfDecode(bs[k..]);
    }
  }
}
