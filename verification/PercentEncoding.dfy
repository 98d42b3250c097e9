/** The percent-decoder used on package URLs. */
module PercentEncoding {
  import opened Wrappers
  import opened Utf8

  const PERCENT: Byte := 0x25
  const PLUS: Byte := 0x2B

  function HexDigit(b: Byte): Option<nat> {
    if 0x30 <= b <= 0x39 then Some(b - 0x30)
    else if 0x41 <= b <= 0x46 then Some(b - 0x41 + 10)
    else if 0x61 <= b <= 0x66 then Some(b - 0x61 + 10)
    else None
  }

  /** `u8::from_str_radix` on two characters: two hex digits, or a plus sign and one. */
  function TwoDigits(hi: Byte, lo: Byte): Option<Byte> {
    if hi == PLUS then HexDigit(lo)
    else
      var h :- HexDigit(hi);
      var l :- HexDigit(lo);
      Some(h * 16 + l)
  }

  const LOWER := "0123456789abcdef"
  const UPPER := "0123456789ABCDEF"

  /** The byte is the hexadecimal digit with this value, in either case. */
  predicate IsDigitOf(b: Byte, v: nat) {
    v < 16 && (b == LOWER[v] as int || b == UPPER[v] as int)
  }

  lemma DigitExact(b: Byte, v: nat)
    ensures HexDigit(b) == Some(v) <==> IsDigitOf(b, v)
  {
    assert forall k :: 0 <= k < 10 ==> LOWER[k] as int == 0x30 + k && UPPER[k] as int == 0x30 + k;
    assert forall k :: 10 <= k < 16 ==> LOWER[k] as int == 0x61 + k - 10 && UPPER[k] as int == 0x41 + k - 10;
  }

  /** An escape reads as 16 times its first digit plus its second, or, behind a plus sign, as its one digit. */
  lemma EscapeExact(hi: Byte, lo: Byte, value: Byte)
    ensures TwoDigits(hi, lo) == Some(value) <==>
              || (hi == PLUS && IsDigitOf(lo, value))
              || exists h: nat, l: nat :: IsDigitOf(hi, h) && IsDigitOf(lo, l) && value == 16 * h + l
  {
    forall v: nat ensures (HexDigit(hi) == Some(v) <==> IsDigitOf(hi, v)) && (HexDigit(lo) == Some(v) <==> IsDigitOf(lo, v)) {
      DigitExact(hi, v);
      DigitExact(lo, v);
    }
    if hi == PLUS {
      assert HexDigit(hi) == None;
    } else if TwoDigits(hi, lo) == Some(value) {
      var h, l := HexDigit(hi).value, HexDigit(lo).value;
      assert IsDigitOf(hi, h) && IsDigitOf(lo, l) && value == 16 * h + l;
    }
  }

  function DecodeBytes(b: seq<Byte>): Option<seq<Byte>>
    decreases |b|
  {
    if b == [] then Some([])
    else if b[0] == PERCENT then
      if |b| < 3 then None
      else
        var value :- TwoDigits(b[1], b[2]);
        var rest :- DecodeBytes(b[3..]);
        Some([value] + rest)
    else
      var rest :- DecodeBytes(b[1..]);
      Some([b[0]] + rest)
  }

  function PercentDecode(s: string): Option<string> {
    var bytes :- DecodeBytes(Encode(s));
    Decode(bytes)
  }

  function Prefixed(done: seq<Byte>, rest: Option<seq<Byte>>): Option<seq<Byte>> {
    if rest.Some? then Some(done + rest.value) else None
  }

  lemma PrefixedStep(done: seq<Byte>, value: Byte, rest: Option<seq<Byte>>)
    ensures Prefixed(done, Prefixed([value], rest)) == Prefixed(done + [value], rest)
  {
    if rest.Some? { assert done + ([value] + rest.value) == done + [value] + rest.value; }
  }

  method PercentDecodeBytes(b: seq<Byte>) returns (r: Option<seq<Byte>>)
    ensures r == DecodeBytes(b)
  {
    var decoded: seq<Byte> := [];
    var index := 0;
    assert b[0..] == b && DecodeBytes(b).Some? ==> decoded + DecodeBytes(b).value == DecodeBytes(b).value;
    while index < |b|
      invariant 0 <= index <= |b|
      invariant Prefixed(decoded, DecodeBytes(b[index..])) == DecodeBytes(b)
    {
      ghost var rest := b[index..];
      if b[index] == PERCENT {
        if index + 2 >= |b| { return None; }
        var value := TwoDigits(b[index + 1], b[index + 2]);
        if value.None? { return None; }
        assert rest[1] == b[index + 1] && rest[2] == b[index + 2] && rest[3..] == b[index + 3..];
        PrefixedStep(decoded, value.value, DecodeBytes(rest[3..]));
        decoded := decoded + [value.value];
        index := index + 3;
      } else {
        assert rest[1..] == b[index + 1..];
        PrefixedStep(decoded, b[index], DecodeBytes(rest[1..]));
        decoded := decoded + [b[index]];
        index := index + 1;
      }
    }
    assert b[index..] == [] && decoded + [] == decoded;
    return Some(decoded);
  }

  // --------------------------------------------------------------------- inversion

  /** One byte written as itself (never the percent sign) or as an escape that reads back to it. */
  predicate Step(enc: seq<Byte>, b: Byte, n: nat, strict: bool) {
    || (n == 1 && enc != [] && enc[0] == b && b != PERCENT)
    || (n == 3 && |enc| >= 3 && enc[0] == PERCENT && TwoDigits(enc[1], enc[2]) == Some(b) && (strict ==> enc[1] != PLUS))
  }

  /** `enc` is some percent-encoding of `raw`: at least `%` is escaped, others may be, in either case of hex. */
  ghost predicate Encodes(enc: seq<Byte>, raw: seq<Byte>, strict: bool)
    decreases |raw|
  {
    if raw == [] then enc == []
    else exists n: nat :: n <= |enc| && Step(enc, raw[0], n, strict) && Encodes(enc[n..], raw[1..], strict)
  }

  /** The decoder inverts exactly the percent-encodings, those with a plus sign in an escape included. */
  lemma {:induction false} DecodeExact(enc: seq<Byte>, raw: seq<Byte>)
    ensures DecodeBytes(enc) == Some(raw) <==> Encodes(enc, raw, false)
    decreases |enc|
  {
    if enc == [] {
      assert raw != [] ==> !Encodes(enc, raw, false);
    } else {
      var n: nat := if enc[0] == PERCENT then 3 else 1;
      if raw != [] && n <= |enc| { DecodeExact(enc[n..], raw[1..]); }
      if DecodeBytes(enc) == Some(raw) {
        assert raw != [] && n <= |enc| && Step(enc, raw[0], n, false);
        assert DecodeBytes(enc[n..]) == Some(raw[1..]);
      }
      if Encodes(enc, raw, false) {
        var k: nat :| k <= |enc| && Step(enc, raw[0], k, false) && Encodes(enc[k..], raw[1..], false);
        assert k == n && raw == [raw[0]] + raw[1..];
      }
    }
  }

  lemma {:induction false} StrictIsLoose(enc: seq<Byte>, raw: seq<Byte>)
    requires Encodes(enc, raw, true)
    ensures Encodes(enc, raw, false)
    decreases |raw|
  {
    if raw != [] {
      var n: nat :| n <= |enc| && Step(enc, raw[0], n, true) && Encodes(enc[n..], raw[1..], true);
      StrictIsLoose(enc[n..], raw[1..]);
      assert Step(enc, raw[0], n, false);
    }
  }

  /** Some percent sign is directly followed by a plus sign. */
  predicate PlusEscape(enc: seq<Byte>) {
    exists i :: 0 <= i < |enc| - 1 && enc[i] == PERCENT && enc[i + 1] == PLUS
  }

  lemma PlusBehind(enc: seq<Byte>, n: nat)
    requires n <= |enc| && (n == 1 || n == 3) && (n == 1 ==> enc[0] != PERCENT)
    requires n == 3 ==> enc[1] != PERCENT && enc[2] != PERCENT
    ensures PlusEscape(enc) <==> PlusEscape(enc[n..]) || (n == 3 && enc[0] == PERCENT && enc[1] == PLUS)
  {
    if PlusEscape(enc) {
      var i :| 0 <= i < |enc| - 1 && enc[i] == PERCENT && enc[i + 1] == PLUS;
      if i >= n { assert enc[n..][i - n] == PERCENT && enc[n..][i - n + 1] == PLUS; }
    }
    if PlusEscape(enc[n..]) {
      var i :| 0 <= i < |enc[n..]| - 1 && enc[n..][i] == PERCENT && enc[n..][i + 1] == PLUS;
      assert enc[i + n] == PERCENT && enc[i + n + 1] == PLUS;
    }
  }

  /** The percent-encodings of the standard are what the decoder accepts without a plus sign behind a percent sign. */
  lemma {:induction false} StandardExact(enc: seq<Byte>, raw: seq<Byte>)
    ensures Encodes(enc, raw, true) <==> DecodeBytes(enc) == Some(raw) && !PlusEscape(enc)
    decreases |raw|
  {
    if raw == [] {
      assert enc != [] && DecodeBytes(enc).Some? ==> DecodeBytes(enc).value != [];
    } else {
      if Encodes(enc, raw, true) {
        StrictIsLoose(enc, raw);
        DecodeExact(enc, raw);
        var n: nat :| n <= |enc| && Step(enc, raw[0], n, true) && Encodes(enc[n..], raw[1..], true);
        StandardExact(enc[n..], raw[1..]);
        PlusBehind(enc, n);
      }
      if DecodeBytes(enc) == Some(raw) && !PlusEscape(enc) {
        DecodeExact(enc, raw);
        var n: nat :| n <= |enc| && Step(enc, raw[0], n, false) && Encodes(enc[n..], raw[1..], false);
        DecodeExact(enc[n..], raw[1..]);
        PlusBehind(enc, n);
        StandardExact(enc[n..], raw[1..]);
        assert Step(enc, raw[0], n, true);
      }
    }
  }

  /** Decoding returns the text of which its input is a percent-encoding. */
  lemma PercentDecodeInverts(enc: string, raw: string)
    requires Encodes(Encode(enc), Encode(raw), true)
    ensures PercentDecode(enc) == Some(raw)
  {
    StrictIsLoose(Encode(enc), Encode(raw));
    DecodeExact(Encode(enc), Encode(raw));
    DecodeEncoded(raw);
  }

  /** A text decodes to another iff it is a percent-encoding of it, plus signs in escapes included. */
  lemma PercentDecodeExact(enc: string, raw: string)
    ensures PercentDecode(enc) == Some(raw) <==> Encodes(Encode(enc), Encode(raw), false)
  {
    DecodeExact(Encode(enc), Encode(raw));
    DecodeEncoded(raw);
    if PercentDecode(enc) == Some(raw) { EncodeDecoded(DecodeBytes(Encode(enc)).value, raw); }
  }

  /** The escape `%+f` is no percent-encoding, yet it is decoded. */
  lemma PlusIsAccepted()
    ensures DecodeBytes([0x25, 0x2B, 0x66]) == Some([15])
    ensures !exists raw :: Encodes([0x25, 0x2B, 0x66], raw, true)
  {
    var enc: seq<Byte> := [PERCENT, PLUS, 0x66];
    assert enc[3..] == [] && DecodeBytes(enc[3..]) == Some([]);
    assert TwoDigits(enc[1], enc[2]) == Some(15);
    var fifteen: seq<Byte> := [15];
    assert fifteen + [] == fifteen;
    assert DecodeBytes(enc) == Some(fifteen);
    forall raw ensures !Encodes(enc, raw, true) {
      if raw != [] {
        forall n: nat | n <= |enc| ensures !Step(enc, raw[0], n, true) {}
      }
    }
  }

  lemma {:induction false} PlainBytes(b: seq<Byte>)
    requires PERCENT !in b
    ensures DecodeBytes(b) == Some(b)
  {
    if b != [] {
      PlainBytes(b[1..]);
      assert b == [b[0]] + b[1..];
    }
  }

  /** Text without percent signs decodes to itself. */
  lemma PlainText(s: string)
    requires '%' !in s
    ensures PercentDecode(s) == Some(s)
  {
    AsciiBytes(s, '%');
    PlainBytes(Encode(s));
    DecodeEncoded(s);
  }
}
