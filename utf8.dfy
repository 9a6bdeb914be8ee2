/** UTF-8 as Rust's standard library checks and repairs it: `str::from_utf8`
    (behind `Path::to_str` and `CStr::to_str`) accepts exactly the
    well-formed byte sequences of table 3-7 of the Unicode Standard, and
    `String::from_utf8_lossy` (behind `CStr::to_string_lossy`) replaces each
    maximal ill-formed subpart with U+FFFD. */
module Utf8 {
  import opened Common

  const Replacement: char := '�'

  predicate IsCont(b: u8) { 0x80 <= b <= 0xBF }

  /** Length of the sequence a lead byte announces; 0 when the byte cannot
      start a sequence (a continuation byte, C0, C1, F5..FF). */
  function SeqLen(lead: u8): nat {
    if lead < 0x80 then 1
    else if 0xC2 <= lead <= 0xDF then 2
    else if 0xE0 <= lead <= 0xEF then 3
    else if 0xF0 <= lead <= 0xF4 then 4
    else 0
  }

  /** Bounds on the byte after a lead byte; they exclude overlong forms,
      surrogates and code points above U+10FFFF. */
  function SecondLo(lead: u8): u8 {
    if lead == 0xE0 then 0xA0 else if lead == 0xF0 then 0x90 else 0x80
  }

  function SecondHi(lead: u8): u8 {
    if lead == 0xED then 0x9F else if lead == 0xF4 then 0x8F else 0xBF
  }

  /** What decoding sees at the front of a byte string: one scalar value
      and the bytes it took, or an ill-formed subpart and its length. */
  datatype Step = Scalar(c: char, len: nat) | Invalid(len: nat)

  function DecodeOne(b: Bytes): (st: Step)
    requires |b| > 0
    ensures 1 <= st.len <= |b| && st.len <= 4
    ensures st.Scalar? ==> st.len == SeqLen(b[0])
  {
    var n := SeqLen(b[0]);
    var b0 := b[0] as int;
    if n == 0 then Invalid(1)
    else if n == 1 then Scalar(b0 as char, 1)
    else if |b| < 2 || !(SecondLo(b[0]) <= b[1] <= SecondHi(b[0])) then Invalid(1)
    else if n == 2 then Scalar(((b0 - 0xC0) * 64 + (b[1] as int - 0x80)) as char, 2)
    else if |b| < 3 || !IsCont(b[2]) then Invalid(2)
    else if n == 3 then
      Scalar(((b0 - 0xE0) * 4096 + (b[1] as int - 0x80) * 64 + (b[2] as int - 0x80)) as char, 3)
    else if |b| < 4 || !IsCont(b[3]) then Invalid(3)
    else
      Scalar(((b0 - 0xF0) * 262144 + (b[1] as int - 0x80) * 4096
              + (b[2] as int - 0x80) * 64 + (b[3] as int - 0x80)) as char, 4)
  }

  /** `str::from_utf8`: the text, or None when the bytes are not UTF-8. */
  function Decode(b: Bytes): (r: Option<string>)
    ensures r.Some? ==> |r.value| <= |b|
    decreases |b|
  {
    if b == [] then Some([])
    else match DecodeOne(b)
      case Invalid(_) => None
      case Scalar(c, n) =>
        match Decode(b[n..])
        case None => None
        case Some(s) => Some([c] + s)
  }

  /** `String::from_utf8_lossy`. */
  function Lossy(b: Bytes): (s: string)
    ensures |s| <= |b|
    decreases |b|
  {
    if b == [] then []
    else match DecodeOne(b)
      case Invalid(n) => [Replacement] + Lossy(b[n..])
      case Scalar(c, n) => [c] + Lossy(b[n..])
  }

  /** The UTF-8 bytes of one scalar value. */
  function EncodeChar(c: char): (b: Bytes)
    ensures 1 <= |b| <= 4
  {
    var v := c as int;
    if v < 0x80 then [v as u8]
    else if v < 0x800 then [(0xC0 + v / 64) as u8, (0x80 + v % 64) as u8]
    else if v < 0x10000 then
      [(0xE0 + v / 4096) as u8, (0x80 + v / 64 % 64) as u8, (0x80 + v % 64) as u8]
    else
      [(0xF0 + v / 262144) as u8, (0x80 + v / 4096 % 64) as u8,
       (0x80 + v / 64 % 64) as u8, (0x80 + v % 64) as u8]
  }

  /** The UTF-8 bytes of a Rust `String`. */
  function Encode(s: string): (b: Bytes)
  {
    if s == [] then [] else EncodeChar(s[0]) + Encode(s[1..])
  }

  lemma {:induction false} EncodeAppend(s: string, t: string)
    ensures Encode(s + t) == Encode(s) + Encode(t)
  {
    if s != [] {
      assert (s + t)[0] == s[0] && (s + t)[1..] == s[1..] + t;
      EncodeAppend(s[1..], t);
      calc {
        Encode(s + t);
        EncodeChar(s[0]) + Encode(s[1..] + t);
        EncodeChar(s[0]) + (Encode(s[1..]) + Encode(t));
        (EncodeChar(s[0]) + Encode(s[1..])) + Encode(t);
        Encode(s) + Encode(t);
      }
    } else {
      assert s + t == t;
    }
  }

  /** Decoding the encoding of a scalar value, whatever follows it, gives the
      scalar value back and consumes exactly its encoding. */
  lemma EncodeCharDecodes(c: char, rest: Bytes)
    ensures DecodeOne(EncodeChar(c) + rest) == Scalar(c, |EncodeChar(c)|)
  {
    var v := c as int;
    if v < 0x80 {
    } else if v < 0x800 {
      TwoBytesDecode(c, rest);
    } else if v < 0x10000 {
      ThreeBytesDecode(c, rest);
    } else {
      FourBytesDecode(c, rest);
    }
  }

  lemma TwoBytesDecode(c: char, rest: Bytes)
    requires 0x80 <= c as int < 0x800
    ensures DecodeOne(EncodeChar(c) + rest) == Scalar(c, 2)
  {
    var v := c as int;
    assert v == (v / 64) * 64 + v % 64;
  }

  lemma ThreeBytesDecode(c: char, rest: Bytes)
    requires 0x800 <= c as int < 0x10000
    ensures DecodeOne(EncodeChar(c) + rest) == Scalar(c, 3)
  {
    var v := c as int;
    assert v / 64 == (v / 4096) * 64 + v / 64 % 64;
    assert v == (v / 64) * 64 + v % 64;
    assert v < 0xD800 || 0xE000 <= v;
  }

  lemma FourBytesDecode(c: char, rest: Bytes)
    requires 0x10000 <= c as int
    ensures DecodeOne(EncodeChar(c) + rest) == Scalar(c, 4)
  {
    var v := c as int;
    assert v / 4096 == (v / 262144) * 64 + v / 4096 % 64;
    assert v / 64 == (v / 4096) * 64 + v / 64 % 64;
    assert v == (v / 64) * 64 + v % 64;
  }

  /** Every text survives encoding then decoding. */
  lemma {:induction false} DecodeEncode(s: string)
    ensures Decode(Encode(s)) == Some(s)
  {
    if s != [] {
      var e := EncodeChar(s[0]);
      var b := e + Encode(s[1..]);
      assert Encode(s) == b;
      EncodeCharDecodes(s[0], Encode(s[1..]));
      assert b[|e|..] == Encode(s[1..]);
      DecodeEncode(s[1..]);
      assert [s[0]] + s[1..] == s;
    }
  }

  /** A scalar value read from the front of some bytes is encoded by exactly
      the bytes it was read from: well-formed UTF-8 has one spelling. */
  lemma ScalarIsCanonical(b: Bytes)
    requires |b| > 0 && DecodeOne(b).Scalar?
    ensures EncodeChar(DecodeOne(b).c) == b[..DecodeOne(b).len]
  {
    var st := DecodeOne(b);
    if st.len == 2 {
      TwoBytesCanonical(b);
    } else if st.len == 3 {
      ThreeBytesCanonical(b);
    } else if st.len == 4 {
      FourBytesCanonical(b);
    }
  }

  lemma TwoBytesCanonical(b: Bytes)
    requires |b| > 0 && DecodeOne(b).Scalar? && DecodeOne(b).len == 2
    ensures EncodeChar(DecodeOne(b).c) == b[..2]
  {
    var v := DecodeOne(b).c as int;
    var b1 := b[1] as int - 0x80;
    assert v == (b[0] as int - 0xC0) * 64 + b1;
    assert v / 64 == b[0] as int - 0xC0 && v % 64 == b1;
  }

  lemma ThreeBytesCanonical(b: Bytes)
    requires |b| > 0 && DecodeOne(b).Scalar? && DecodeOne(b).len == 3
    ensures EncodeChar(DecodeOne(b).c) == b[..3]
  {
    var v := DecodeOne(b).c as int;
    var b1 := b[1] as int - 0x80;
    var b2 := b[2] as int - 0x80;
    var hi := (b[0] as int - 0xE0) * 64 + b1;
    assert v == hi * 64 + b2;
    assert v / 64 == hi && v % 64 == b2;
    assert hi / 64 == b[0] as int - 0xE0 && hi % 64 == b1;
    assert v / 4096 == hi / 64;
  }

  lemma FourBytesCanonical(b: Bytes)
    requires |b| > 0 && DecodeOne(b).Scalar? && DecodeOne(b).len == 4
    ensures EncodeChar(DecodeOne(b).c) == b[..4]
  {
    var v := DecodeOne(b).c as int;
    var b1 := b[1] as int - 0x80;
    var b2 := b[2] as int - 0x80;
    var b3 := b[3] as int - 0x80;
    var top := (b[0] as int - 0xF0) * 64 + b1;
    var hi := top * 64 + b2;
    assert v == hi * 64 + b3;
    assert v / 64 == hi && v % 64 == b3;
    assert hi / 64 == top && hi % 64 == b2;
    assert top / 64 == b[0] as int - 0xF0 && top % 64 == b1;
    assert v / 4096 == hi / 64;
    assert v / 262144 == top / 64;
  }

  /** Bytes that decode are the encoding of what they decode to. */
  lemma {:induction false} EncodeDecode(b: Bytes)
    requires Decode(b).Some?
    ensures Encode(Decode(b).value) == b
  {
    if b != [] {
      var c, n := DecodeStep(b);
      var rest := b[n..];
      var t := Decode(rest).value;
      EncodeDecode(rest);
      EncodeCons(c, t);
      assert b[..n] + rest == b;
    }
  }

  /** Well-formed bytes start with the encoding of one scalar value, and
      decode to it followed by what the rest decodes to. */
  lemma DecodeStep(b: Bytes) returns (c: char, n: nat)
    requires b != [] && Decode(b).Some?
    ensures 1 <= n <= |b| && Decode(b[n..]).Some?
    ensures Decode(b).value == [c] + Decode(b[n..]).value
    ensures EncodeChar(c) == b[..n]
  {
    var st := DecodeOne(b);
    ScalarIsCanonical(b);
    c, n := st.c, st.len;
  }

  lemma EncodeCons(c: char, t: string)
    ensures Encode([c] + t) == EncodeChar(c) + Encode(t)
  {
    var s := [c] + t;
    assert s[0] == c && s[1..] == t;
  }

  /** Lossy decoding changes nothing in well-formed input. */
  lemma {:induction false} LossyOfValid(b: Bytes)
    requires Decode(b).Some?
    ensures Lossy(b) == Decode(b).value
  {
    if b != [] {
      LossyOfValid(b[DecodeOne(b).len..]);
    }
  }

  /** Bytes below 0x80 decode one to one into the same code points. */
  lemma {:induction false} DecodeAscii(b: Bytes)
    requires forall i :: 0 <= i < |b| ==> b[i] < 0x80
    ensures Decode(b).Some? && |Decode(b).value| == |b|
    ensures forall i :: 0 <= i < |b| ==> Decode(b).value[i] as int == b[i] as int
  {
    if b != [] {
      DecodeAscii(b[1..]);
    }
  }

  /** An encoded text starts with the first byte of its first scalar value,
      which is no continuation byte. */
  lemma EncodeLead(s: string)
    requires s != []
    ensures |Encode(s)| > 0 && !IsCont(Encode(s)[0])
  {
    assert Encode(s) == EncodeChar(s[0]) + Encode(s[1..]);
    EncodeCharLead(s[0]);
  }

  /** The first byte of an encoded scalar value is never a continuation
      byte, so an encoding splits at every scalar value. */
  lemma EncodeCharLead(c: char)
    ensures !IsCont(EncodeChar(c)[0])
  {
    var v := c as int;
    if 0x800 <= v < 0x10000 {
      assert v / 4096 < 16;
    } else if 0x10000 <= v {
      assert v / 262144 < 5;
    }
  }
}
