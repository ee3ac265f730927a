/** Unicode text and its UTF-8 encoding (section 3 of RFC 3629), against which the byte ranges are checked. */
module Unicode {
  import opened Utf8

  predicate Scalar(cp: nat) {
    cp < 0xD800 || 0xE000 <= cp < 0x110000
  }

  function Byte(b: nat): char
    requires b < 256
  {
    b as char
  }

  function Encode(cp: nat): (s: string)
    requires Scalar(cp)
    ensures 1 <= |s| <= 4
  {
    if cp < 0x80 then [Byte(cp)]
    else if cp < 0x800 then [Byte(0xC0 + cp / 64), Byte(0x80 + cp % 64)]
    else if cp < 0x10000 then [Byte(0xE0 + cp / 4096), Byte(0x80 + cp / 64 % 64), Byte(0x80 + cp % 64)]
    else [Byte(0xF0 + cp / 262144), Byte(0x80 + cp / 4096 % 64), Byte(0x80 + cp / 64 % 64), Byte(0x80 + cp % 64)]
  }

  predicate Scalars(cps: seq<nat>) {
    forall i :: 0 <= i < |cps| ==> Scalar(cps[i])
  }

  function EncodeAll(cps: seq<nat>): string
    requires Scalars(cps)
  {
    if cps == [] then "" else Encode(cps[0]) + EncodeAll(cps[1..])
  }

  lemma EncodedTwo(cp: nat, rest: string)
    requires 0x80 <= cp < 0x800
    ensures CharLength(Encode(cp) + rest) == 2
  {
    var a := cp / 64;
    assert 2 <= a < 32 && cp == 64 * a + cp % 64;
    var s := Encode(cp) + rest;
    assert s[0] == Byte(0xC0 + a) && TailByte(s[1]);
  }

  lemma EncodedThree(cp: nat, rest: string)
    requires 0x800 <= cp < 0x10000 && Scalar(cp)
    ensures CharLength(Encode(cp) + rest) == 3
  {
    var a, b := cp / 4096, cp / 64 % 64;
    assert cp / 64 == 64 * a + b && cp == 64 * (cp / 64) + cp % 64;
    assert a < 16 && (a == 0 ==> b >= 32) && (a == 13 ==> b < 32);
    var s := Encode(cp) + rest;
    assert s[0] == Byte(0xE0 + a) && s[1] == Byte(0x80 + b) && TailByte(s[1]) && TailByte(s[2]);
    assert LeadsThree(s[0], s[1]);
  }

  lemma EncodedFour(cp: nat, rest: string)
    requires 0x10000 <= cp < 0x110000
    ensures CharLength(Encode(cp) + rest) == 4
  {
    var a, b := cp / 262144, cp / 4096 % 64;
    assert cp / 4096 == 64 * a + b && 16 <= cp / 4096 < 272;
    assert a < 5 && (a == 0 ==> b >= 16) && (a == 4 ==> b < 16);
    var s := Encode(cp) + rest;
    assert s[0] == Byte(0xF0 + a) && s[1] == Byte(0x80 + b);
    assert TailByte(s[1]) && TailByte(s[2]) && TailByte(s[3]) && LeadsFour(s[0], s[1]);
  }

  /** The first encoded character is recognised with its own length. */
  lemma EncodedLength(cp: nat, rest: string)
    requires Scalar(cp)
    ensures CharLength(Encode(cp) + rest) == |Encode(cp)|
  {
    if cp < 0x80 {
      assert (Encode(cp) + rest)[0] == Byte(cp);
    } else if cp < 0x800 {
      EncodedTwo(cp, rest);
    } else if cp < 0x10000 {
      EncodedThree(cp, rest);
    } else {
      EncodedFour(cp, rest);
    }
  }

  lemma Digits64(a: nat, b: nat, c: nat, d: nat)
    requires b < 64 && c < 64 && d < 64
    ensures var n := ((a * 64 + b) * 64 + c) * 64 + d;
      n / 262144 == a && n / 4096 % 64 == b && n / 64 % 64 == c && n % 64 == d && n / 4096 == a * 64 + b
  {
    var n := ((a * 64 + b) * 64 + c) * 64 + d;
    assert n / 64 == (a * 64 + b) * 64 + c;
    assert n / 4096 == a * 64 + b;
  }

  lemma TwoBytes(s: string) returns (cp: nat)
    requires CharLength(s) == 2
    ensures Scalar(cp) && s[..2] == Encode(cp)
  {
    var a, b := s[0] as int - 0xC0, s[1] as int - 0x80;
    cp := a * 64 + b;
    assert s[0] == Byte(0xC0 + a) && s[1] == Byte(0x80 + b);
    assert cp / 64 == a && cp % 64 == b;
  }

  lemma ThreeBytes(s: string) returns (cp: nat)
    requires CharLength(s) == 3
    ensures Scalar(cp) && s[..3] == Encode(cp)
  {
    var a, b, c := s[0] as int - 0xE0, s[1] as int - 0x80, s[2] as int - 0x80;
    cp := (a * 64 + b) * 64 + c;
    assert s[0] == Byte(0xE0 + a) && s[1] == Byte(0x80 + b) && s[2] == Byte(0x80 + c);
    Digits64(0, a, b, c);
    assert 0x800 <= cp < 0x10000 && Scalar(cp);
  }

  lemma FourBytes(s: string) returns (cp: nat)
    requires CharLength(s) == 4
    ensures Scalar(cp) && s[..4] == Encode(cp)
  {
    var a, b, c, d := s[0] as int - 0xF0, s[1] as int - 0x80, s[2] as int - 0x80, s[3] as int - 0x80;
    cp := ((a * 64 + b) * 64 + c) * 64 + d;
    assert s[0] == Byte(0xF0 + a) && s[1] == Byte(0x80 + b) && s[2] == Byte(0x80 + c) && s[3] == Byte(0x80 + d);
    Digits64(a, b, c, d);
    assert 0x10000 <= cp < 0x110000;
  }

  /** Whatever is recognised as a character encodes one scalar value. */
  lemma RecognisedDecodes(s: string) returns (cp: nat)
    requires CharLength(s) > 0
    ensures Scalar(cp) && s[..CharLength(s)] == Encode(cp)
  {
    match CharLength(s)
    case 1 => cp := s[0] as int;
    case 2 => cp := TwoBytes(s);
    case 3 => cp := ThreeBytes(s);
    case _ => cp := FourBytes(s);
  }

  lemma {:induction false} EncodedIsValid(cps: seq<nat>)
    requires Scalars(cps)
    ensures Valid(EncodeAll(cps))
  {
    hide CharLength, Encode;
    if cps != [] {
      EncodedIsValid(cps[1..]);
      EncodedLength(cps[0], EncodeAll(cps[1..]));
      assert EncodeAll(cps)[|Encode(cps[0])|..] == EncodeAll(cps[1..]);
    }
  }

  lemma {:induction false} ValidDecodes(s: string) returns (cps: seq<nat>)
    requires Valid(s)
    ensures Scalars(cps) && EncodeAll(cps) == s
  {
    hide CharLength, Encode;
    if s == [] {
      cps := [];
    } else {
      var n := CharLength(s);
      var cp := RecognisedDecodes(s);
      var rest := ValidDecodes(s[n..]);
      cps := [cp] + rest;
      assert cps[1..] == rest && s == s[..n] + s[n..];
    }
  }

  /** The byte ranges accept exactly the encodings of sequences of scalar values. */
  lemma ValidExactly(s: string)
    ensures Valid(s) <==> exists cps :: Scalars(cps) && EncodeAll(cps) == s
  {
    hide EncodeAll, Valid;
    if Valid(s) {
      var cps := ValidDecodes(s);
    }
    if cps :| Scalars(cps) && EncodeAll(cps) == s {
      EncodedIsValid(cps);
    }
  }
}
