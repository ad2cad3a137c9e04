/** UTF-8 as Rust's `String` requires it: Unicode 15.0, tables 3-6 and 3-7. */
module Utf8 {
  import opened Bytes

  predicate IsScalar(cp: nat) {
    cp < 0x11_0000 && !(0xD800 <= cp <= 0xDFFF)
  }

  function Encode(cp: nat): bytes
    requires IsScalar(cp)
  {
    if cp < 0x80 then [cp]
    else if cp < 0x800 then [0xC0 + cp / 64, 0x80 + cp % 64]
    else if cp < 0x1_0000 then [0xE0 + cp / 4096, 0x80 + cp / 64 % 64, 0x80 + cp % 64]
    else [0xF0 + cp / 26_2144, 0x80 + cp / 4096 % 64, 0x80 + cp / 64 % 64, 0x80 + cp % 64]
  }

  /** The examples of the four lengths: Unicode 15.0, table 3-5. */
  lemma Examples()
    ensures Encode(0x4D) == [0x4D] && Encode(0x430) == [0xD0, 0xB0]
    ensures Encode(0x4E8C) == [0xE4, 0xBA, 0x8C] && Encode(0x1_0302) == [0xF0, 0x90, 0x8C, 0x82]
  {
  }

  predicate IsContinuation(b: byte) {
    0x80 <= b <= 0xBF
  }

  /** The length of the well-formed character `s` begins with, or 0. */
  function CharLen(s: bytes): (n: nat)
    ensures n <= |s| && n <= 4
    ensures forall i | 1 <= i < n :: IsContinuation(s[i])
    ensures n > 0 ==> !IsContinuation(s[0])
  {
    if s == [] then 0
    else if s[0] < 0x80 then 1
    else if 0xC2 <= s[0] <= 0xDF then
      if |s| >= 2 && IsContinuation(s[1]) then 2 else 0
    else if 0xE0 <= s[0] <= 0xEF then
      if |s| >= 3 && IsContinuation(s[1]) && IsContinuation(s[2])
         && (s[0] == 0xE0 ==> s[1] >= 0xA0) && (s[0] == 0xED ==> s[1] <= 0x9F) then 3 else 0
    else if 0xF0 <= s[0] <= 0xF4 then
      if |s| >= 4 && IsContinuation(s[1]) && IsContinuation(s[2]) && IsContinuation(s[3])
         && (s[0] == 0xF0 ==> s[1] >= 0x90) && (s[0] == 0xF4 ==> s[1] <= 0x8F) then 4 else 0
    else 0
  }

  /** `String::from_utf8` succeeds. */
  predicate Valid(s: bytes) {
    s == [] || (CharLen(s) > 0 && Valid(s[CharLen(s)..]))
  }

  lemma CharLenOfEncode(cp: nat, k: bytes)
    requires IsScalar(cp)
    ensures CharLen(Encode(cp) + k) == |Encode(cp)|
    ensures (Encode(cp) + k)[|Encode(cp)|..] == k
  {
    EncodedHead(cp);
    var s := Encode(cp) + k;
    assert s[..|Encode(cp)|] == Encode(cp);
    CharLenLocal(s, |Encode(cp)|);
  }

  lemma EncodedHead(cp: nat)
    requires IsScalar(cp)
    ensures CharLen(Encode(cp)) == |Encode(cp)|
  {
  }

  lemma ValidAfterEncode(cp: nat, k: bytes)
    requires IsScalar(cp)
    ensures Valid(Encode(cp) + k) == Valid(k)
  {
    CharLenOfEncode(cp, k);
  }

  /** The scalar of the character `s` begins with. */
  function Decode(s: bytes): (cp: nat)
    requires CharLen(s) > 0
  {
    var a: int := s[0];
    if a < 0x80 then a
    else
      var b: int := s[1];
      if a <= 0xDF then (a - 0xC0) * 64 + (b - 0x80)
      else
        var c: int := s[2];
        if a <= 0xEF then (a - 0xE0) * 4096 + (b - 0x80) * 64 + (c - 0x80)
        else
          var d: int := s[3];
          (a - 0xF0) * 26_2144 + (b - 0x80) * 4096 + (c - 0x80) * 64 + (d - 0x80)
  }

  lemma Sextets(a: nat, b: nat, c: nat, d: nat)
    requires b < 64 && c < 64 && d < 64
    ensures var n := a * 26_2144 + b * 4096 + c * 64 + d;
            n / 26_2144 == a && n / 4096 == a * 64 + b && n / 64 == a * 4096 + b * 64 + c && n % 64 == d
  {
  }

  lemma SextetDigits(a: nat, b: nat)
    requires b < 64
    ensures (a * 64 + b) % 64 == b
  {
  }

  lemma EncodeOfDecode(s: bytes)
    requires CharLen(s) > 0
    ensures IsScalar(Decode(s)) && Encode(Decode(s)) == s[..CharLen(s)]
    ensures if CharLen(s) == 1 then Decode(s) == s[0] else Decode(s) >= 0x80
  {
    var n := CharLen(s);
    if n == 2 {
      EncodeOfDecode2(s);
    } else if n == 3 {
      EncodeOfDecode3(s);
    } else if n == 4 {
      EncodeOfDecode4(s);
    }
  }

  lemma EncodeOfDecode2(s: bytes)
    requires CharLen(s) == 2
    ensures IsScalar(Decode(s)) && Encode(Decode(s)) == s[..2]
  {
    Sextets(0, 0, s[0] - 0xC0, s[1] - 0x80);
  }

  lemma EncodeOfDecode3(s: bytes)
    requires CharLen(s) == 3
    ensures IsScalar(Decode(s)) && Encode(Decode(s)) == s[..3]
  {
    var a, b, c := s[0] - 0xE0, s[1] - 0x80, s[2] - 0x80;
    Sextets(0, a, b, c) by { assert a < 64; }
    SextetDigits(a, b);
  }

  lemma EncodeOfDecode4(s: bytes)
    requires CharLen(s) == 4
    ensures IsScalar(Decode(s)) && Encode(Decode(s)) == s[..4]
  {
    var a: int, b: int, c: int, d: int := s[0] - 0xF0, s[1] - 0x80, s[2] - 0x80, s[3] - 0x80;
    Sextets(a, b, c, d);
    SextetDigits(a, b);
    SextetDigits(a * 64 + b, c);
  }

  /** The first character is decided by its own bytes. */
  lemma CharLenLocal(s: bytes, n: nat)
    requires n <= |s|
    ensures CharLen(s[..n]) > 0 ==> CharLen(s) == CharLen(s[..n])
    ensures 0 < CharLen(s) <= n ==> CharLen(s[..n]) == CharLen(s)
  {
  }

  /** A well-formed prefix can be cut off. */
  lemma {:induction false} ValidTail(a: bytes, b: bytes)
    requires Valid(a) && Valid(a + b)
    ensures Valid(b)
    decreases |a|
  {
    if a == [] {
      assert a + b == b;
    } else {
      var n := CharLen(a);
      assert (a + b)[..|a|] == a;
      CharLenLocal(a + b, |a|);
      assert (a + b)[n..] == a[n..] + b;
      ValidTail(a[n..], b);
    }
  }

  /** So can a well-formed suffix: no character straddles its start. */
  /** A character that starts in `a` ends there when what follows is whole characters. */
  lemma CharStaysInside(a: bytes, b: bytes)
    requires a != [] && CharLen(a + b) > 0 && (b == [] || CharLen(b) > 0)
    ensures CharLen(a + b) <= |a|
  {
    assert b != [] ==> (a + b)[|a|] == b[0];
  }

  lemma {:induction false} ValidHead(a: bytes, b: bytes)
    requires Valid(a + b) && Valid(b)
    ensures Valid(a)
    decreases |a|
  {
    if a != [] {
      var n := CharLen(a + b);
      CharStaysInside(a, b);
      hide CharLen;
      assert (a + b)[..|a|] == a;
      CharLenLocal(a + b, |a|);
      assert (a + b)[n..] == a[n..] + b;
      ValidHead(a[n..], b);
    }
  }

  lemma {:induction false} AsciiIsValid(s: bytes)
    requires forall b | b in s :: b < 0x80
    ensures Valid(s)
  {
    if s != [] {
      assert s[0] in s && forall b | b in s[1..] :: b in s;
      AsciiIsValid(s[1..]);
    }
  }
}
