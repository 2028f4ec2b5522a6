/** Decoding and encoding of runes, as Go's unicode/utf8 does it. */
module Utf8 {

  type Byte = b: int | 0 <= b < 0x100 witness 0

  /** ASCII text. */
  function Bytes(s: string): seq<Byte>
    requires forall i | 0 <= i < |s| :: s[i] < 0x80 as char
  {
    seq(|s|, i requires 0 <= i < |s| => s[i] as int)
  }

  const BAD_RUNE := 0xFFFD
  const BAD: seq<Byte> := [0xEF, 0xBF, 0xBD]

  predicate Follows(s: seq<Byte>, i: nat, low: int, high: int) {
    i < |s| && low <= s[i] <= high
  }

  predicate Tail(s: seq<Byte>, i: nat) {
    Follows(s, i, 0x80, 0xBF)
  }

  function Low(s: seq<Byte>, i: nat): int
    requires i < |s|
  {
    var b: int := s[i];
    b - 0x80
  }

  /** The first rune and its width; the replacement rune of width 1 for a byte that starts none. */
  function Decode(s: seq<Byte>): (r: (int, nat))
    requires s != []
    ensures 1 <= r.1 <= |s| && r.1 <= 4
    ensures r.0 < 0x80 <==> s[0] < 0x80
    ensures 0 <= r.0 <= 0x10FFFF && !(0xD800 <= r.0 <= 0xDFFF)
  {
    var b: int := s[0];
    if b < 0x80 then (b, 1)
    else if 0xC2 <= b <= 0xDF && Tail(s, 1) then ((b - 0xC0) * 0x40 + Low(s, 1), 2)
    else if 0xE0 <= b <= 0xEF && Follows(s, 1, if b == 0xE0 then 0xA0 else 0x80, if b == 0xED then 0x9F else 0xBF) && Tail(s, 2) then
      ((b - 0xE0) * 0x1000 + Low(s, 1) * 0x40 + Low(s, 2), 3)
    else if 0xF0 <= b <= 0xF4 && Follows(s, 1, if b == 0xF0 then 0x90 else 0x80, if b == 0xF4 then 0x8F else 0xBF) && Tail(s, 2) && Tail(s, 3) then
      ((b - 0xF0) * 0x40000 + Low(s, 1) * 0x1000 + Low(s, 2) * 0x40 + Low(s, 3), 4)
    else (BAD_RUNE, 1)
  }

  /** The bytes of a rune; those of the replacement rune if there are none. */
  function Encode(r: int): seq<Byte> {
    if r < 0 || r > 0x10FFFF || 0xD800 <= r <= 0xDFFF then BAD
    else if r < 0x80 then [r]
    else if r < 0x800 then [0xC0 + r / 0x40, 0x80 + r % 0x40]
    else if r < 0x10000 then [0xE0 + r / 0x40 / 0x40, 0x80 + r / 0x40 % 0x40, 0x80 + r % 0x40]
    else [0xF0 + r / 0x40 / 0x40 / 0x40, 0x80 + r / 0x40 / 0x40 % 0x40, 0x80 + r / 0x40 % 0x40, 0x80 + r % 0x40]
  }

  predicate IsBad(s: seq<Byte>)
    requires s != []
  {
    Decode(s) == (BAD_RUNE, 1)
  }

  /** A rune is decoded from its own bytes, whatever follows. */
  lemma DecodeIsLocal(s: seq<Byte>, rest: seq<Byte>)
    requires s != [] && !IsBad(s)
    ensures Decode(s[..Decode(s).1] + rest) == Decode(s)
  {
    var x := s[..Decode(s).1] + rest;
    assert forall i | 0 <= i < Decode(s).1 :: x[i] == s[i];
  }

  /** Decoding undoes encoding. */
  lemma DecodeEncode(r: int, rest: seq<Byte>)
    requires 0 <= r <= 0x10FFFF && !(0xD800 <= r <= 0xDFFF)
    ensures Decode(Encode(r) + rest) == (r, |Encode(r)|)
  {
    if r >= 0x10000 {
      DecodeFour(r, rest);
    }
  }

  lemma DecodeFour(r: int, rest: seq<Byte>)
    requires 0x10000 <= r <= 0x10FFFF
    ensures Decode(Encode(r) + rest) == (r, 4)
  {
  }
}
