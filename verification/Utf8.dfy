/** UTF-8 as Rust strings use it: encoding a string, and decoding bytes that must be valid. */
module Utf8 {
  import opened Wrappers

  type Byte = x: int | 0 <= x < 256

  function EncodeChar(c: char): (r: seq<Byte>)
    ensures 1 <= |r| <= 4
  {
    var u := c as int;
    var v := u / 64;
    var w := v / 64;
    if u < 0x80 then [u]
    else if u < 0x800 then [0xC0 + v, 0x80 + u % 64]
    else if u < 0x1_0000 then [0xE0 + w, 0x80 + v % 64, 0x80 + u % 64]
    else [0xF0 + w / 64, 0x80 + w % 64, 0x80 + v % 64, 0x80 + u % 64]
  }

  function Encode(s: string): seq<Byte> {
    if s == "" then [] else EncodeChar(s[0]) + Encode(s[1..])
  }

  predicate IsContinuation(b: Byte) {
    0x80 <= b < 0xC0
  }

  predicate IsScalar(u: int) {
    0 <= u < 0xD800 || 0xE000 <= u < 0x11_0000
  }

  /** The number of bytes a lead byte announces. */
  function Announced(lead: Byte): nat {
    if lead < 0x80 then 1
    else if 0xC0 <= lead < 0xE0 then 2
    else if 0xE0 <= lead < 0xF0 then 3
    else if 0xF0 <= lead < 0xF8 then 4
    else 0
  }

  function Low(b: Byte): int {
    b as int - 0x80
  }

  /** The value the bytes of one character spell. */
  function Value(b: seq<Byte>): int
    requires b != [] && |b| == Announced(b[0])
  {
    var lead, n: int := b[0] as int, |b|;
    if n == 1 then lead
    else if n == 2 then (lead - 0xC0) * 64 + Low(b[1])
    else if n == 3 then ((lead - 0xE0) * 64 + Low(b[1])) * 64 + Low(b[2])
    else (((lead - 0xF0) * 64 + Low(b[1])) * 64 + Low(b[2])) * 64 + Low(b[3])
  }

  predicate IsShortest(u: int, n: nat) {
    (n == 2 ==> u >= 0x80) && (n == 3 ==> u >= 0x800) && (n == 4 ==> u >= 0x1_0000)
  }

  /** The first character and its length; overlong forms, surrogates and stray bytes are refused. */
  function DecodeChar(b: seq<Byte>): (r: Option<(char, nat)>)
    ensures r.Some? ==> 1 <= r.value.1 <= |b|
  {
    if b == [] then None
    else
      var n := Announced(b[0]);
      if n == 0 || n > |b| || (exists i :: 1 <= i < n && !IsContinuation(b[i])) then None
      else
        var u := Value(b[..n]);
        if IsScalar(u) && IsShortest(u, n) then Some((u as char, n)) else None
  }

  function Decode(b: seq<Byte>): Option<string>
    decreases |b|
  {
    if b == [] then Some("")
    else
      var (c, n) :- DecodeChar(b);
      var rest :- Decode(b[n..]);
      Some([c] + rest)
  }

  lemma EncodedChar(c: char)
    ensures var b := EncodeChar(c);
            && |b| == Announced(b[0]) && Value(b) == c as int && IsShortest(c as int, |b|)
            && forall i :: 1 <= i < |b| ==> IsContinuation(b[i])
  {
  }

  lemma DecodeEncodedChar(c: char, rest: seq<Byte>)
    ensures DecodeChar(EncodeChar(c) + rest) == Some((c, |EncodeChar(c)|))
  {
    var b := EncodeChar(c);
    EncodedChar(c);
    assert (b + rest)[..|b|] == b;
  }

  /** Decoding inverts encoding. */
  lemma {:induction false} DecodeEncoded(s: string)
    ensures Decode(Encode(s)) == Some(s)
  {
    if s != "" {
      var b, rest := EncodeChar(s[0]), Encode(s[1..]);
      DecodeEncodedChar(s[0], rest);
      DecodeEncoded(s[1..]);
      assert (b + rest)[|b|..] == rest;
      assert s == [s[0]] + s[1..];
    }
  }

  /** Bytes of ASCII characters occur only for those characters. */
  lemma {:induction false} AsciiBytes(s: string, c: char)
    requires c as int < 0x80 && c !in s
    ensures c as int !in Encode(s)
  {
    if s != "" {
      AsciiBytes(s[1..], c);
      assert s[0] != c;
      EncodedChar(s[0]);
    }
  }

  lemma DecodedChar(b: seq<Byte>, n: nat)
    requires b != [] && |b| == n == Announced(b[0]) && forall i :: 1 <= i < n ==> IsContinuation(b[i])
    requires IsScalar(Value(b)) && IsShortest(Value(b), n)
    ensures EncodeChar(Value(b) as char) == b
  {
    var u := Value(b);
    var v := u / 64;
    if n == 2 {
      assert v == b[0] - 0xC0 && u % 64 == Low(b[1]);
    } else if n == 3 {
      assert v == (b[0] - 0xE0) * 64 + Low(b[1]) && u % 64 == Low(b[2]);
      assert v / 64 == b[0] - 0xE0 && v % 64 == Low(b[1]);
    } else if n == 4 {
      assert v == ((b[0] - 0xF0) * 64 + Low(b[1])) * 64 + Low(b[2]) && u % 64 == Low(b[3]);
      var w := v / 64;
      assert w == (b[0] - 0xF0) * 64 + Low(b[1]) && v % 64 == Low(b[2]);
      assert w / 64 == b[0] - 0xF0 && w % 64 == Low(b[1]);
    }
  }

  lemma DecodedFirst(b: seq<Byte>, c: char, n: nat)
    requires DecodeChar(b) == Some((c, n))
    ensures EncodeChar(c) == b[..n]
  {
    DecodedChar(b[..n], n);
  }

  lemma EncodeCons(c: char, rest: string, first: seq<Byte>, others: seq<Byte>)
    requires EncodeChar(c) == first && Encode(rest) == others
    ensures Encode([c] + rest) == first + others
  {
    assert ([c] + rest)[1..] == rest;
  }

  lemma DecodeUnfolds(b: seq<Byte>, s: string) returns (c: char, n: nat, rest: string)
    requires b != [] && Decode(b) == Some(s)
    ensures 1 <= n <= |b| && EncodeChar(c) == b[..n] && Decode(b[n..]) == Some(rest) && s == [c] + rest
  {
    c, n := DecodeChar(b).value.0, DecodeChar(b).value.1;
    rest := Decode(b[n..]).value;
    DecodedFirst(b, c, n);
  }

  /** Only the encoding of a text decodes to it. */
  lemma {:induction false} EncodeDecoded(b: seq<Byte>, s: string)
    requires Decode(b) == Some(s)
    ensures Encode(s) == b
    decreases |b|
  {
    if b != [] {
      var c, n, rest := DecodeUnfolds(b, s);
      EncodeDecoded(b[n..], rest);
      EncodeCons(c, rest, b[..n], b[n..]);
      assert b == b[..n] + b[n..];
    }
  }
}
