/** UTF-8 as `core::str::from_utf8` accepts it (RFC 3629). */
module Utf8 {
  import opened Options
  import opened Bytes

  function EncodeChar(c: char): (b: seq<Byte>)
    ensures 1 <= |b| <= 4
  {
    var n := c as int;
    if n < 0x80 then [n]
    else if n < 0x800 then [0xC0 + n / 0x40, 0x80 + n % 0x40]
    else if n < 0x1_0000 then [0xE0 + n / 0x1000, 0x80 + n / 0x40 % 0x40, 0x80 + n % 0x40]
    else [0xF0 + n / 0x4_0000, 0x80 + n / 0x1000 % 0x40, 0x80 + n / 0x40 % 0x40, 0x80 + n % 0x40]
  }

  function Encode(s: string): seq<Byte> {
    if s == [] then [] else EncodeChar(s[0]) + Encode(s[1..])
  }

  datatype First = First(c: char, len: nat)

  predicate Continues(b: Byte) { 0x80 <= b < 0xC0 }

  /** The first character and its length, rejecting overlong forms, surrogates and values past U+10FFFF. */
  function DecodeFirst(b: seq<Byte>): (r: Option<First>)
    requires b != []
    ensures r.Some? ==> 1 <= r.value.len <= |b|
  {
    if b[0] < 0x80 then Some(First(b[0] as char, 1))
    else if 0xC2 <= b[0] < 0xE0 && |b| >= 2 && Continues(b[1]) then
      Some(First(((b[0] - 0xC0) as int * 0x40 + (b[1] - 0x80) as int) as char, 2))
    else if 0xE0 <= b[0] < 0xF0 && |b| >= 3 && Continues(b[1]) && Continues(b[2]) then
      var n := ((b[0] - 0xE0) as int * 0x40 + (b[1] - 0x80) as int) * 0x40 + (b[2] - 0x80) as int;
      if 0x800 <= n && !(0xD800 <= n < 0xE000) then Some(First(n as char, 3)) else None
    else if 0xF0 <= b[0] < 0xF8 && |b| >= 4 && Continues(b[1]) && Continues(b[2]) && Continues(b[3]) then
      var n := (((b[0] - 0xF0) as int * 0x40 + (b[1] - 0x80) as int) * 0x40 + (b[2] - 0x80) as int) * 0x40
               + (b[3] - 0x80) as int;
      if 0x1_0000 <= n < 0x11_0000 then Some(First(n as char, 4)) else None
    else None
  }

  /** `from_utf8`. */
  function Decode(b: seq<Byte>): Option<string>
    decreases |b|
  {
    if b == [] then Some([])
    else match DecodeFirst(b)
      case None => None
      case Some(f) =>
        match Decode(b[f.len..])
        case None => None
        case Some(rest) => Some([f.c] + rest)
  }

  lemma DecodeFirstOfEncoded(c: char, rest: seq<Byte>)
    ensures DecodeFirst(EncodeChar(c) + rest) == Some(First(c, |EncodeChar(c)|))
  {
    var n := c as int;
    assert n == n / 0x40 * 0x40 + n % 0x40;
    assert n / 0x40 == n / 0x1000 * 0x40 + n / 0x40 % 0x40;
    assert n / 0x1000 == n / 0x4_0000 * 0x40 + n / 0x1000 % 0x40;
    if n < 0x80 {
      assert DecodeFirst([n] + rest) == Some(First(c, 1));
    } else if n < 0x800 {
      assert 2 <= n / 0x40 < 0x20;
    } else if n < 0x1_0000 {
      assert n / 0x1000 < 0x10;
    } else {
      assert n / 0x4_0000 < 8;
    }
  }

  /** Base-64 digits. */
  lemma Digits(x: nat, y: nat, z: nat, w: nat)
    requires y < 0x40 && z < 0x40 && w < 0x40
    ensures var n := x * 0x40 + y; n / 0x40 == x && n % 0x40 == y
    ensures var n := (x * 0x40 + y) * 0x40 + z; n / 0x1000 == x && n / 0x40 % 0x40 == y && n % 0x40 == z
    ensures var n := ((x * 0x40 + y) * 0x40 + z) * 0x40 + w;
            n / 0x4_0000 == x && n / 0x1000 % 0x40 == y && n / 0x40 % 0x40 == z && n % 0x40 == w
  {}

  lemma EncodesToTwo(x: nat, y: nat)
    requires 2 <= x < 0x20 && y < 0x40
    ensures EncodeChar((x * 0x40 + y) as char) == [0xC0 + x, 0x80 + y]
  {
    Digits(x, y, 0, 0);
  }

  lemma EncodesToThree(x: nat, y: nat, z: nat)
    requires x < 0x10 && y < 0x40 && z < 0x40
    requires var n := (x * 0x40 + y) * 0x40 + z; 0x800 <= n && !(0xD800 <= n < 0xE000)
    ensures EncodeChar(((x * 0x40 + y) * 0x40 + z) as char) == [0xE0 + x, 0x80 + y, 0x80 + z]
  {
    Digits(x, y, z, 0);
  }

  lemma EncodesToFour(x: nat, y: nat, z: nat, w: nat)
    requires x < 8 && y < 0x40 && z < 0x40 && w < 0x40
    requires 0x1_0000 <= ((x * 0x40 + y) * 0x40 + z) * 0x40 + w < 0x11_0000
    ensures EncodeChar((((x * 0x40 + y) * 0x40 + z) * 0x40 + w) as char) == [0xF0 + x, 0x80 + y, 0x80 + z, 0x80 + w]
  {
    Digits(x, y, z, w);
  }

  lemma DecodeFirstSound(b: seq<Byte>)
    requires b != [] && DecodeFirst(b).Some?
    ensures var f := DecodeFirst(b).value; EncodeChar(f.c) == b[..f.len]
  {
    var f := DecodeFirst(b).value;
    if b[0] < 0x80 {
      assert EncodeChar(f.c) == [b[0]];
    } else if b[0] < 0xE0 {
      hide EncodeChar;
      EncodesToTwo(b[0] - 0xC0, b[1] - 0x80);
    } else if b[0] < 0xF0 {
      hide EncodeChar;
      EncodesToThree(b[0] - 0xE0, b[1] - 0x80, b[2] - 0x80);
    } else {
      hide EncodeChar;
      EncodesToFour(b[0] - 0xF0, b[1] - 0x80, b[2] - 0x80, b[3] - 0x80);
    }
  }

  lemma DecodeParts(b: seq<Byte>)
    requires b != [] && Decode(b).Some?
    ensures DecodeFirst(b).Some? && Decode(b[DecodeFirst(b).value.len..]).Some?
    ensures var f := DecodeFirst(b).value; Decode(b).value == [f.c] + Decode(b[f.len..]).value
  {
    hide DecodeFirst;
  }

  lemma EncodeCons(c: char, s: string)
    ensures Encode([c] + s) == EncodeChar(c) + Encode(s)
  {
    hide EncodeChar;
    assert ([c] + s)[1..] == s;
  }

  /** Only the encoding of a text is accepted: nothing overlong, truncated or out of range. */
  lemma {:induction false} OnlyEncodings(b: seq<Byte>)
    ensures Decode(b).Some? ==> Encode(Decode(b).value) == b
    decreases |b|
  {
    if b != [] && Decode(b).Some? {
      hide DecodeFirst, EncodeChar, Decode, Encode;
      DecodeParts(b);
      DecodeFirstSound(b);
      var f := DecodeFirst(b).value;
      OnlyEncodings(b[f.len..]);
      EncodeCons(f.c, Decode(b[f.len..]).value);
      assert b == b[..f.len] + b[f.len..];
    }
  }

  /** Every text survives encoding and decoding. */
  lemma {:induction false} RoundTrip(s: string)
    ensures Decode(Encode(s)) == Some(s)
  {
    if s != [] {
      RoundTrip(s[1..]);
      DecodeFirstOfEncoded(s[0], Encode(s[1..]));
      hide DecodeFirst, EncodeChar;
      var b := Encode(s);
      assert b == EncodeChar(s[0]) + Encode(s[1..]);
      assert b[|EncodeChar(s[0])|..] == Encode(s[1..]);
      assert [s[0]] + s[1..] == s;
    }
  }
}
