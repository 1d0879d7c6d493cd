/** UTF-8 (RFC 3629): Unicode strings and their bytes. */
module Utf8 {
  import opened Prelude

  type Scalar = c: nat | c < 0xD800 || 0xE000 <= c < 0x11_0000

  predicate IsScalar(c: nat) {
    c < 0xD800 || 0xE000 <= c < 0x11_0000
  }

  function EncodeScalar(c: Scalar): (s: seq<byte>)
    ensures 1 <= |s| <= 4
  {
    if c < 0x80 then [c]
    else if c < 0x800 then [0xC0 + c / 0x40, 0x80 + c % 0x40]
    else if c < 0x1_0000 then [0xE0 + c / 0x40 / 0x40, 0x80 + c / 0x40 % 0x40, 0x80 + c % 0x40]
    else [0xF0 + c / 0x40 / 0x40 / 0x40, 0x80 + c / 0x40 / 0x40 % 0x40, 0x80 + c / 0x40 % 0x40, 0x80 + c % 0x40]
  }

  function Encode(text: seq<Scalar>): seq<byte> {
    if text == [] then [] else EncodeScalar(text[0]) + Encode(text[1..])
  }

  predicate Continues(b: byte) {
    0x80 <= b < 0xC0
  }

  function Tail(b: byte): nat
    requires Continues(b)
  {
    b - 0x80
  }

  function Join2(a: nat, b: byte): nat
    requires Continues(b)
  {
    a * 0x40 + Tail(b)
  }

  /** The first scalar of `s` and the number of bytes it takes, if `s` begins with a well-formed one. */
  function DecodeFirst(s: seq<byte>): (r: Option<(Scalar, nat)>)
    ensures r.Some? ==> 1 <= r.value.1 <= |s| && r.value.1 <= 4
  {
    if s == [] then None
    else
      var lead: nat := s[0];
      if lead < 0x80 then Some((lead, 1))
      else if 0xC2 <= lead < 0xE0 && |s| >= 2 && Continues(s[1]) then
        Some((Join2(lead - 0xC0, s[1]), 2))
      else if 0xE0 <= lead < 0xF0 && |s| >= 3 && Continues(s[1]) && Continues(s[2]) then
        var c := Join2(Join2(lead - 0xE0, s[1]), s[2]);
        if 0x800 <= c && IsScalar(c) then Some((c, 3)) else None
      else if 0xF0 <= lead < 0xF8 && |s| >= 4 && Continues(s[1]) && Continues(s[2]) && Continues(s[3]) then
        var c := Join2(Join2(Join2(lead - 0xF0, s[1]), s[2]), s[3]);
        if 0x1_0000 <= c && IsScalar(c) then Some((c, 4)) else None
      else None
  }

  function Decode(s: seq<byte>): Option<seq<Scalar>> {
    if s == [] then Some([])
    else
      var first := DecodeFirst(s);
      if first.None? then None
      else
        var rest := Decode(s[first.value.1..]);
        if rest.None? then None else Some([first.value.0] + rest.value)
  }

  predicate Valid(s: seq<byte>) {
    Decode(s).Some?
  }

  /** Splitting off six bits and joining them again. */
  lemma SplitJoin(c: nat)
    ensures Continues(0x80 + c % 0x40) && Join2(c / 0x40, 0x80 + c % 0x40) == c
  {
  }

  lemma JoinSplit(a: nat, b: byte)
    requires Continues(b)
    ensures Join2(a, b) / 0x40 == a && Join2(a, b) % 0x40 == Tail(b)
  {
  }

  lemma DecodeFirstEncoded(c: Scalar, rest: seq<byte>)
    ensures DecodeFirst(EncodeScalar(c) + rest) == Some((c, |EncodeScalar(c)|))
  {
    SplitJoin(c);
    SplitJoin(c / 0x40);
    SplitJoin(c / 0x40 / 0x40);
  }

  lemma Encoded3(a: nat, b1: byte, b2: byte)
    requires a < 0x10 && Continues(b1) && Continues(b2)
    requires var c := Join2(Join2(a, b1), b2); IsScalar(c) && 0x800 <= c
    ensures EncodeScalar(Join2(Join2(a, b1), b2)) == [0xE0 + a, b1, b2]
  {
    JoinSplit(a, b1);
    JoinSplit(Join2(a, b1), b2);
  }

  lemma Encoded4(a: nat, b1: byte, b2: byte, b3: byte)
    requires a < 0x8 && Continues(b1) && Continues(b2) && Continues(b3)
    requires var c := Join2(Join2(Join2(a, b1), b2), b3); IsScalar(c) && 0x1_0000 <= c
    ensures EncodeScalar(Join2(Join2(Join2(a, b1), b2), b3)) == [0xF0 + a, b1, b2, b3]
  {
    JoinSplit(a, b1);
    JoinSplit(Join2(a, b1), b2);
    JoinSplit(Join2(Join2(a, b1), b2), b3);
  }

  lemma EncodeDecodedFirst(s: seq<byte>)
    requires DecodeFirst(s).Some?
    ensures s[..DecodeFirst(s).value.1] == EncodeScalar(DecodeFirst(s).value.0)
  {
    var n := DecodeFirst(s).value.1;
    if n == 2 {
      JoinSplit(s[0] - 0xC0, s[1]);
    } else if n == 3 {
      hide EncodeScalar;
      Encoded3(s[0] - 0xE0, s[1], s[2]);
      assert s[..3] == [s[0], s[1], s[2]];
    } else if n == 4 {
      hide EncodeScalar;
      Encoded4(s[0] - 0xF0, s[1], s[2], s[3]);
      assert s[..4] == [s[0], s[1], s[2], s[3]];
    }
  }

  lemma {:induction false} DecodeEncoded(text: seq<Scalar>)
    ensures Decode(Encode(text)) == Some(text)
  {
    if text != [] {
      hide EncodeScalar, DecodeFirst;
      DecodeFirstEncoded(text[0], Encode(text[1..]));
      DecodeEncoded(text[1..]);
      assert Encode(text)[|EncodeScalar(text[0])|..] == Encode(text[1..]);
      assert text == [text[0]] + text[1..];
    }
  }

  lemma {:induction false} EncodeDecoded(s: seq<byte>)
    requires Valid(s)
    ensures Encode(Decode(s).value) == s
  {
    if s != [] {
      hide EncodeScalar, DecodeFirst;
      var (c, n) := DecodeFirst(s).value;
      assert s == s[..n] + s[n..];
      assert Valid(s[n..]) && Decode(s) == Some([c] + Decode(s[n..]).value);
      EncodeDecoded(s[n..]);
      hide Decode;
      var rest := Decode(s[n..]).value;
      assert ([c] + rest)[1..] == rest && Encode([c] + rest) == EncodeScalar(c) + Encode(rest);
      EncodeDecodedFirst(s);
    }
  }

  predicate IsAscii(s: seq<byte>) {
    forall i :: 0 <= i < |s| ==> s[i] < 0x80
  }

  lemma {:induction false} AsciiIsUtf8(s: seq<byte>)
    requires IsAscii(s)
    ensures Valid(s)
  {
    if s != [] {
      AsciiIsUtf8(s[1..]);
      assert DecodeFirst(s) == Some((s[0] as nat, 1));
    }
  }
}
