/**
  The legal ways to write a Unicode scalar inside a JSON string (RFC 8259,
  section 7): literally, as a short escape, as a `\u` escape, or as a surrogate
  pair. The decoder accepts exactly the strings built from them and returns the
  UTF-8 bytes of the scalars.
*/
module JsonSpelling {
  import opened Bytes
  import opened JsonText
  import opened JsonString
  import Utf8

  datatype Spelling =
    | Literal(cp: nat)
    | Short(cp: nat, c: byte)
    | Hex(cp: nat, h0: byte, h1: byte, h2: byte, h3: byte)
    | Pair(cp: nat, h0: byte, h1: byte, h2: byte, h3: byte, l0: byte, l1: byte, l2: byte, l3: byte)

  predicate Legal(sp: Spelling) {
    && Utf8.IsScalar(sp.cp)
    && match sp
       case Literal(cp) => cp >= 0x20 && cp != QUOTE && cp != BACKSLASH
       case Short(cp, c) => ShortEscape(c) == Some(cp)
       case Hex(cp, h0, h1, h2, h3) => Hex4(h0, h1, h2, h3) == Some(cp)
       case Pair(cp, h0, h1, h2, h3, l0, l1, l2, l3) =>
         var hi, lo := Hex4(h0, h1, h2, h3), Hex4(l0, l1, l2, l3);
         hi.Some? && lo.Some? && IsHigh(hi.value) && IsLow(lo.value)
         && cp == 0x1_0000 + (hi.value - 0xD800) * 1024 + (lo.value - 0xDC00)
  }

  ghost predicate AllLegal(sps: seq<Spelling>) {
    forall sp | sp in sps :: Legal(sp)
  }

  function PlainRun(s: bytes, rest: Units): Units {
    if s == [] then rest else Plain(s[0], PlainRun(s[1..], rest))
  }

  function SpellOne(sp: Spelling, rest: Units): Units
    requires Legal(sp)
  {
    match sp
    case Literal(cp) => PlainRun(Utf8.Encode(cp), rest)
    case Short(_, c) => Escape(c, rest)
    case Hex(_, h0, h1, h2, h3) => Unicode(h0, h1, h2, h3, rest)
    case Pair(_, h0, h1, h2, h3, l0, l1, l2, l3) => Unicode(h0, h1, h2, h3, Unicode(l0, l1, l2, l3, rest))
  }

  ghost function Spell(sps: seq<Spelling>): Units
    requires AllLegal(sps)
  {
    if sps == [] then Close else SpellOne(sps[0], Spell(sps[1..]))
  }

  /** The UTF-8 bytes of the scalars spelled. */
  ghost function Meaning(sps: seq<Spelling>): bytes
    requires AllLegal(sps)
  {
    if sps == [] then [] else assert Legal(sps[0]); Utf8.Encode(sps[0].cp) + Meaning(sps[1..])
  }

  lemma {:induction false} PlainRunDecodes(s: bytes, rest: Units)
    requires WfUnits(rest) && forall b | b in s :: !IsStringBoundary(b)
    ensures WfUnits(PlainRun(s, rest))
    ensures DecodeUnits(PlainRun(s, rest)) == Prepend(s, DecodeUnits(rest))
  {
    var d := DecodeUnits(rest);
    if s == [] {
      assert d.Some? ==> s + d.value == d.value;
    } else {
      assert s[0] in s;
      PlainRunDecodes(s[1..], rest);
      assert d.Some? ==> [s[0]] + (s[1..] + d.value) == s + d.value;
    }
  }

  lemma SpellOneDecodes(sp: Spelling, rest: Units)
    requires Legal(sp) && WfUnits(rest)
    ensures WfUnits(SpellOne(sp, rest))
    ensures DecodeUnits(SpellOne(sp, rest)) == Prepend(Utf8.Encode(sp.cp), DecodeUnits(rest))
  {
    match sp
    case Literal(cp) => PlainRunDecodes(Utf8.Encode(cp), rest);
    case Short(_, _) =>
    case Hex(_, _, _, _, _) =>
    case Pair(_, _, _, _, _, _, _, _, _) =>
  }

  /** Every legal spelling decodes to the UTF-8 bytes of its scalars. */
  lemma {:induction false} SpelledDecodes(sps: seq<Spelling>)
    requires AllLegal(sps)
    ensures WfUnits(Spell(sps)) && KeyOf(Spell(sps)) == Some(Meaning(sps))
    ensures DecodeUnits(Spell(sps)) == Some(Meaning(sps)) && Utf8.Valid(Meaning(sps))
  {
    if sps != [] {
      SpelledDecodes(sps[1..]);
      SpellOneDecodes(sps[0], Spell(sps[1..]));
      Utf8.ValidAfterEncode(sps[0].cp, Meaning(sps[1..]));
    }
  }

  /** Only a literal byte can decode to a continuation byte. */
  lemma ContinuationIsLiteral(u: Units, d: bytes)
    requires DecodeUnits(u) == Some(d) && d != [] && Utf8.IsContinuation(d[0])
    ensures u.Plain? && u.b == d[0] && DecodeUnits(u.rest) == Some(d[1..])
  {
    match u
    case Close =>
    case Plain(b, rest) => assert DecodeUnits(rest) == Some(d[1..]);
    case Escape(c, rest) =>
    case Unicode(_, _, _, _, _) =>
      UnicodeLead(u, d);
  }

  lemma UnicodeLead(u: Units, d: bytes)
    requires u.Unicode? && DecodeUnits(u) == Some(d) && d != []
    ensures !Utf8.IsContinuation(d[0])
  {
    var st := UnicodeStep(u).value;
    var cp: nat :| Utf8.IsScalar(cp) && st.text == Utf8.Encode(cp);
    assert d[0] == st.text[0];
  }

  lemma {:induction false} ContinuationsAreLiteral(u: Units, d: bytes, n: nat) returns (rest: Units)
    requires DecodeUnits(u) == Some(d) && n <= |d|
    requires forall i | 0 <= i < n :: Utf8.IsContinuation(d[i])
    ensures u == PlainRun(d[..n], rest) && DecodeUnits(rest) == Some(d[n..])
    ensures WfUnits(u) ==> WfUnits(rest)
    ensures rest == u || rest < u
    decreases n
  {
    if n == 0 {
      rest := u;
      assert d[0..] == d && d[..0] == [];
    } else {
      ContinuationIsLiteral(u, d);
      rest := ContinuationsAreLiteral(u.rest, d[1..], n - 1);
      assert d[..n][1..] == d[1..][..n - 1] && d[n..] == d[1..][n - 1..];
    }
  }

  lemma RunIsLiteral(u: Units, d: bytes, n: nat) returns (rest: Units)
    requires WfUnits(u) && u.Plain? && DecodeUnits(u) == Some(d) && 1 <= n <= |d|
    requires forall i | 1 <= i < n :: Utf8.IsContinuation(d[i])
    ensures u == PlainRun(d[..n], rest) && DecodeUnits(rest) == Some(d[n..]) && WfUnits(rest) && rest < u
  {
    var after := DecodeUnits(u.rest).value;
    assert d[1..] == after;
    rest := ContinuationsAreLiteral(u.rest, after, n - 1);
    assert after[n - 1..] == d[n..];
    assert d[..n][1..] == after[..n - 1];
  }

  lemma FirstLiteral(u: Units, d: bytes) returns (sp: Spelling, rest: Units)
    requires WfUnits(u) && u.Plain? && DecodeUnits(u) == Some(d) && Utf8.Valid(d)
    ensures Legal(sp) && WfUnits(rest) && u == SpellOne(sp, rest) && rest < u
    ensures DecodeUnits(rest).Some? && Utf8.Valid(DecodeUnits(rest).value)
    ensures d == Utf8.Encode(sp.cp) + DecodeUnits(rest).value
  {
    hide Utf8.CharLen, Utf8.Decode, Utf8.Encode;
    assert d != [] && d[0] == u.b by {
      assert d == [u.b] + DecodeUnits(u.rest).value;
    }
    var n := Utf8.CharLen(d);
    Utf8.EncodeOfDecode(d);
    sp := Literal(Utf8.Decode(d));
    rest := RunIsLiteral(u, d, n);
    assert d == d[..n] + d[n..];
  }

  /** One scalar's spelling at the front of a decodable string. */
  lemma FirstSpelling(u: Units, d: bytes) returns (sp: Spelling, rest: Units)
    requires WfUnits(u) && !u.Close? && DecodeUnits(u) == Some(d) && Utf8.Valid(d)
    ensures Legal(sp) && WfUnits(rest) && u == SpellOne(sp, rest) && rest < u
    ensures DecodeUnits(rest).Some? && Utf8.Valid(DecodeUnits(rest).value)
    ensures d == Utf8.Encode(sp.cp) + DecodeUnits(rest).value
  {
    match u
    case Close =>
    case Plain(_, _) =>
      sp, rest := FirstLiteral(u, d);
    case Escape(c, tail) =>
      sp, rest := Short(ShortEscape(c).value, c), tail;
      assert d[1..] == DecodeUnits(tail).value;
    case Unicode(h0, h1, h2, h3, tail) =>
      var hi := Hex4(h0, h1, h2, h3).value;
      rest := UnicodeStep(u).value.rest;
      if IsHigh(hi) {
        sp := Pair(FromPair(hi, Hex4(tail.h0, tail.h1, tail.h2, tail.h3).value), h0, h1, h2, h3, tail.h0, tail.h1,
                   tail.h2, tail.h3);
      } else {
        sp := Hex(hi, h0, h1, h2, h3);
      }
      Utf8.ValidAfterEncode(sp.cp, DecodeUnits(rest).value);
  }

  /** Whatever decodes was spelled legally, and decodes to what was spelled. */
  lemma {:induction false} DecodedIsSpelled(u: Units) returns (sps: seq<Spelling>)
    requires WfUnits(u) && KeyOf(u).Some?
    ensures AllLegal(sps) && u == Spell(sps) && KeyOf(u).value == Meaning(sps)
    decreases u
  {
    if u.Close? {
      sps := [];
    } else {
      var sp, rest := FirstSpelling(u, KeyOf(u).value);
      var tail := DecodedIsSpelled(rest);
      sps := [sp] + tail;
      assert sps[1..] == tail;
    }
  }

  /** The decoder returns a text exactly when the bytes spell it. */
  lemma StringDecodesIffSpelled(u: Units, text: bytes)
    requires WfUnits(u)
    ensures KeyOf(u) == Some(text) <==> exists sps :: AllLegal(sps) && u == Spell(sps) && text == Meaning(sps)
  {
    if KeyOf(u) == Some(text) {
      var sps := DecodedIsSpelled(u);
    }
    forall sps | AllLegal(sps) && u == Spell(sps) && text == Meaning(sps)
      ensures KeyOf(u) == Some(text)
    {
      SpelledDecodes(sps);
    }
  }
}
