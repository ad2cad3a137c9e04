/**
  The recursive-descent scanner itself: a cursor over the raw bytes that every
  production advances in place. Each method is proved against the function of
  `JsonScan`, `JsonString` or `JsonTop` that says what the production consumes.
*/
module JsonParser {
  import opened Bytes
  import opened JsonText
  import opened StringBoundary
  import opened JsonString
  import opened JsonTop
  import JsonPath
  import JsonScan
  import Utf8

  /** A run without boundaries is skipped, and decoded, as itself. */
  lemma {:induction false} RunSkipped(s: bytes, n: nat)
    requires n <= |s| && forall j | 0 <= j < n :: !IsStringBoundary(s[j])
    ensures JsonScan.SkipUnits(s) == JsonScan.SkipUnits(s[n..])
    ensures ReadBody(s) == PrependDecoded(s[..n], ReadBody(s[n..]))
  {
    hide JsonScan.SkipEscape, ReadEscape;
    if n == 0 {
      assert s[0..] == s;
      PrependNothing(ReadBody(s));
    } else {
      PlainByte(s);
      hide JsonScan.SkipUnits, ReadBody;
      RunSkipped(s[1..], n - 1);
      assert s[1..][n - 1..] == s[n..];
      assert [s[0]] + s[1..][..n - 1] == s[..n];
      PrependTwice([s[0]], s[1..][..n - 1], ReadBody(s[n..]));
    }
  }

  lemma PlainByte(s: bytes)
    requires s != [] && !IsStringBoundary(s[0])
    ensures JsonScan.SkipUnits(s) == JsonScan.SkipUnits(s[1..])
    ensures ReadBody(s) == PrependDecoded([s[0]], ReadBody(s[1..]))
  {
    hide JsonScan.SkipEscape, ReadEscape;
  }

  lemma PrependNothing(d: Option<Decoded>)
    ensures PrependDecoded([], d) == d
  {
    assert d.Some? ==> [] + d.value.text == d.value.text;
  }

  lemma PrependTwice(a: bytes, b: bytes, d: Option<Decoded>)
    ensures PrependDecoded(a, PrependDecoded(b, d)) == PrependDecoded(a + b, d)
  {
    assert d.Some? ==> a + (b + d.value.text) == (a + b) + d.value.text;
  }

  lemma NoBoundaryNoString(s: bytes)
    requires forall j | 0 <= j < |s| :: !IsStringBoundary(s[j])
    ensures JsonScan.SkipUnits(s) == None && ReadBody(s) == None
  {
    RunSkipped(s, |s|);
  }

  /** `out` decoded so far and `rest` to go account for the whole string `s`. */
  ghost predicate Decoding(s: bytes, out: bytes, rest: bytes) {
    ReadBody(s) == PrependDecoded(out, ReadBody(rest))
  }

  lemma DecodingStarts(s: bytes)
    ensures Decoding(s, [], s)
  {
    if ReadBody(s).Some? {
      assert [] + ReadBody(s).value.text == ReadBody(s).value.text;
    }
  }

  lemma DecodingAppends(s: bytes, out: bytes, rest: bytes, text: bytes, rest': bytes)
    requires Decoding(s, out, rest) && ReadBody(rest) == PrependDecoded(text, ReadBody(rest'))
    ensures Decoding(s, out + text, rest')
  {
    if ReadBody(rest').Some? {
      assert out + (text + ReadBody(rest').value.text) == (out + text) + ReadBody(rest').value.text;
    }
  }

  lemma DecodingCloses(s: bytes, out: bytes, rest: bytes)
    requires Decoding(s, out, rest) && rest != [] && rest[0] == QUOTE
    ensures ReadBody(s) == Some(Decoded(out, rest[1..]))
  {
    assert out + [] == out;
  }

  lemma DecodingEscape(s: bytes, out: bytes, rest: bytes)
    requires Decoding(s, out, rest) && rest != [] && rest[0] == BACKSLASH
    ensures match ReadEscape(rest[1..])
            case None => ReadBody(s) == None
            case Some(e) => Decoding(s, out + e.text, e.rest)
  {
    var e := ReadEscape(rest[1..]);
    if e.Some? {
      DecodingAppends(s, out, rest, e.value.text, e.value.rest);
    }
  }

  lemma DecodingStops(s: bytes, out: bytes, rest: bytes)
    requires Decoding(s, out, rest) && ReadBody(rest) == None
    ensures ReadBody(s) == None
  {
  }

  lemma DecodingControl(s: bytes, out: bytes, rest: bytes)
    requires Decoding(s, out, rest) && rest != [] && rest[0] < 0x20
    ensures ReadBody(s) == None
  {
  }

  class Parser {
    const b: bytes
    var i: nat

    ghost predicate Valid()
      reads this
    {
      i <= |b|
    }

    /** The bytes still ahead of the cursor. */
    ghost function Rest(): bytes
      reads this
      requires Valid()
    {
      b[i..]
    }

    constructor (b: bytes)
      ensures Valid() && this.b == b && Rest() == b
    {
      this.b := b;
      this.i := 0;
    }

    method Peek() returns (c: Option<byte>)
      requires Valid()
      ensures c == if Rest() == [] then None else Some(Rest()[0])
    {
      c := if i < |b| then Some(b[i]) else None;
    }

    method SkipWs()
      requires Valid()
      modifies this
      ensures Valid() && Rest() == JsonScan.SkipWs(old(Rest()))
    {
      while i < |b| && IsWs(b[i])
        invariant Valid()
        invariant JsonScan.SkipWs(Rest()) == JsonScan.SkipWs(old(Rest()))
      {
        assert Rest()[1..] == b[i + 1..];
        i := i + 1;
      }
    }

    method Expect(c: byte) returns (ok: bool)
      requires Valid()
      modifies this
      ensures Valid()
      ensures var r := JsonScan.Expect(old(Rest()), c); ok == r.Some? && (ok ==> Rest() == r.value)
    {
      ok := i < |b| && b[i] == c;
      if ok {
        i := i + 1;
      }
    }

    method Literal(w: Word) returns (ok: bool)
      requires Valid()
      modifies this
      ensures Valid()
      ensures var r := JsonScan.SkipWord(old(Rest()), w); ok == r.Some? && (ok ==> Rest() == r.value)
    {
      ok := WordText(w) <= b[i..];
      if ok {
        i := i + |WordText(w)|;
      }
    }

    method Digits()
      requires Valid()
      modifies this
      ensures Valid() && Rest() == JsonScan.Digits(old(Rest()))
    {
      while i < |b| && IsDigit(b[i])
        invariant Valid()
        invariant JsonScan.Digits(Rest()) == JsonScan.Digits(old(Rest()))
      {
        assert Rest()[1..] == b[i + 1..];
        i := i + 1;
      }
    }

    method OneOrMoreDigits() returns (ok: bool)
      requires Valid()
      modifies this
      ensures Valid()
      ensures var r := JsonScan.OneOrMoreDigits(old(Rest())); ok == r.Some? && (ok ==> Rest() == r.value)
    {
      ok := i < |b| && IsDigit(b[i]);
      if ok {
        Digits();
      }
    }

    /** Validates and skips a number: its sign and whole part, then `Fraction` and
        `Exponent`. */
    method Number() returns (ok: bool)
      requires Valid()
      modifies this
      ensures Valid()
      ensures var r := JsonScan.SkipNumber(old(Rest())); ok == r.Some? && (ok ==> Rest() == r.value)
    {
      if i < |b| && b[i] == MINUS {
        i := i + 1;
      }
      ghost var s := Rest();
      if i < |b| && b[i] == ZERO {
        i := i + 1;
      } else if i < |b| && IsDigit(b[i]) {
        Digits();
      } else {
        return false;
      }
      assert JsonScan.SkipWhole(s) == Some(Rest());
      ok := Fraction();
      if ok {
        ok := Exponent();
      }
    }

    method Fraction() returns (ok: bool)
      requires Valid()
      modifies this
      ensures Valid()
      ensures var r := JsonScan.SkipFrac(old(Rest())); ok == r.Some? && (ok ==> Rest() == r.value)
    {
      if i < |b| && b[i] == DOT {
        i := i + 1;
        ok := OneOrMoreDigits();
      } else {
        ok := true;
      }
    }

    method Exponent() returns (ok: bool)
      requires Valid()
      modifies this
      ensures Valid()
      ensures var r := JsonScan.SkipExp(old(Rest())); ok == r.Some? && (ok ==> Rest() == r.value)
    {
      if i < |b| && (b[i] == LOWER_E || b[i] == UPPER_E) {
        i := i + 1;
        if i < |b| && (b[i] == PLUS || b[i] == MINUS) {
          i := i + 1;
        }
        ok := OneOrMoreDigits();
      } else {
        ok := true;
      }
    }

    method HexDigit() returns (v: Option<nat>)
      requires Valid()
      modifies this
      ensures Valid()
      ensures v == if old(Rest()) == [] then None else HexVal(old(Rest())[0])
      ensures v.Some? ==> Rest() == old(Rest())[1..]
    {
      if i == |b| {
        return None;
      }
      v := HexVal(b[i]);
      if v.Some? {
        i := i + 1;
      }
    }

    /** Jumps over the ordinary run ahead in one go, to the boundary that ends it;
        `None` when the string never ends. */
    method Run() returns (run: Option<bytes>)
      requires Valid()
      modifies this
      ensures Valid()
      ensures run.None? ==> JsonScan.SkipUnits(old(Rest())) == None && ReadBody(old(Rest())) == None
      ensures run.Some? ==> Rest() != [] && IsStringBoundary(Rest()[0])
      ensures run.Some? ==> |Rest()| <= |old(Rest())|
      ensures run.Some? ==> JsonScan.SkipUnits(old(Rest())) == JsonScan.SkipUnits(Rest())
      ensures run.Some? ==> ReadBody(old(Rest())) == PrependDecoded(run.value, ReadBody(Rest()))
    {
      var off := NextStringBoundary(b[i..]);
      if off.None? {
        NoBoundaryNoString(Rest());
        return None;
      }
      RunSkipped(Rest(), off.value);
      assert Rest()[off.value..] == b[i + off.value..];
      run := Some(b[i..][..off.value]);
      i := i + off.value;
    }

    /** Skips a string without decoding it. */
    method SkipString() returns (ok: bool)
      requires Valid()
      modifies this
      ensures Valid()
      ensures var r := JsonScan.SkipString(old(Rest())); ok == r.Some? && (ok ==> Rest() == r.value)
    {
      hide JsonScan.SkipEscape;
      ok := Expect(QUOTE);
      if !ok {
        return;
      }
      ghost var s := Rest();
      while true
        invariant Valid()
        invariant JsonScan.SkipUnits(Rest()) == JsonScan.SkipUnits(s)
        decreases |Rest()|
      {
        var run := Run();
        if run.None? {
          return false;
        }
        var c := b[i];
        i := i + 1;
        if c == QUOTE {
          return true;
        } else if c == BACKSLASH {
          ok := SkipEscape();
          if !ok {
            return;
          }
        } else {
          return false;
        }
      }
    }

    /** Consumes the escaped byte; a `u` carries four more hexadecimal digits. */
    method SkipEscape() returns (ok: bool)
      requires Valid()
      modifies this
      ensures Valid()
      ensures var r := JsonScan.SkipEscape(old(Rest())); ok == r.Some? && (ok ==> Rest() == r.value)
    {
      if i == |b| {
        return false;
      }
      var esc := b[i];
      i := i + 1;
      ok := true;
      if esc == LOWER_U {
        ok := SkipHex4();
      }
    }

    method SkipHex4() returns (ok: bool)
      requires Valid()
      modifies this
      ensures Valid()
      ensures var r := JsonScan.SkipHex4(old(Rest())); ok == r.Some? && (ok ==> Rest() == r.value)
    {
      ghost var s := Rest();
      for n := 0 to 4
        invariant Valid() && n <= |s| && Rest() == s[n..]
        invariant forall j | 0 <= j < n :: HexVal(s[j]).Some?
      {
        var d := HexDigit();
        if d.None? {
          return false;
        }
      }
      return true;
    }

    method Hex4() returns (v: Option<nat>)
      requires Valid()
      modifies this
      ensures Valid()
      ensures v == ReadHex4(old(Rest()))
      ensures v.Some? ==> Rest() == old(Rest())[4..]
    {
      ghost var s := Rest();
      var d0 := HexDigit();
      if d0.None? { return None; }
      var d1 := HexDigit();
      if d1.None? { return None; }
      var d2 := HexDigit();
      if d2.None? { return None; }
      var d3 := HexDigit();
      if d3.None? { return None; }
      assert s[1..][1..][1..][1..] == s[4..];
      return Some(((d0.value * 16 + d1.value) * 16 + d2.value) * 16 + d3.value);
    }

    /** One `\u` escape, surrogates paired; `None` when it is malformed. */
    method DecodeUnicodeEscape() returns (text: Option<bytes>)
      requires Valid()
      modifies this
      ensures Valid()
      ensures var r := ReadUnicode(old(Rest()));
              text.Some? == r.Some? && (r.Some? ==> text.value == r.value.text && Rest() == r.value.rest)
    {
      var hi := Hex4();
      if hi.None? {
        return None;
      }
      if IsHigh(hi.value) {
        var ok := Expect(BACKSLASH);
        if !ok { return None; }
        ok := Expect(LOWER_U);
        if !ok { return None; }
        var lo := Hex4();
        if lo.None? || !IsLow(lo.value) {
          return None;
        }
        return Some(Utf8.Encode(FromPair(hi.value, lo.value)));
      }
      if IsLow(hi.value) {
        return None;
      }
      return Some(Utf8.Encode(hi.value));
    }

    method DecodeEscape() returns (text: Option<bytes>)
      requires Valid()
      modifies this
      ensures Valid()
      ensures var r := ReadEscape(old(Rest()));
              text.Some? == r.Some? && (r.Some? ==> text.value == r.value.text && Rest() == r.value.rest)
    {
      if i == |b| {
        return None;
      }
      var esc := b[i];
      i := i + 1;
      if esc == LOWER_U {
        text := DecodeUnicodeEscape();
      } else {
        var e := ShortEscape(esc);
        text := if e.Some? then Some([e.value]) else None;
      }
    }

    /** Decodes a string into an owned, UTF-8 checked text. */
    method StringDecode() returns (text: Option<bytes>)
      requires Valid()
      modifies this
      ensures Valid()
      ensures var r := ReadString(old(Rest()));
              text.Some? == r.Some? && (r.Some? ==> text.value == r.value.text && Rest() == r.value.rest)
    {
      hide ReadEscape, ReadBody, Utf8.Valid, Decoding, PrependDecoded;
      var ok := Expect(QUOTE);
      if !ok {
        return None;
      }
      ghost var s := Rest();
      var out := [];
      DecodingStarts(s);
      while true
        invariant Valid()
        invariant Decoding(s, out, Rest())
        decreases |Rest()|
      {
        ghost var before := Rest();
        var run := Run();
        if run.None? {
          DecodingStops(s, out, before);
          return None;
        }
        DecodingAppends(s, out, before, run.value, Rest());
        out := out + run.value;
        ghost var rest := Rest();
        var c := b[i];
        i := i + 1;
        if c == QUOTE {
          DecodingCloses(s, out, rest);
          return if Utf8.Valid(out) then Some(out) else None;
        } else if c == BACKSLASH {
          DecodingEscape(s, out, rest);
          var e := DecodeEscape();
          if e.None? {
            return None;
          }
          out := out + e.value;
        } else {
          DecodingControl(s, out, rest);
          return None;
        }
      }
    }

    /** Skips one complete value. */
    method SkipValue() returns (ok: bool)
      requires Valid()
      modifies this
      ensures Valid()
      ensures var r := JsonScan.SkipValue(old(Rest())); ok == r.Some? && (ok ==> Rest() == r.value)
      decreases |b| - i, 1
    {
      SkipWs();
      var c := Peek();
      if c.None? {
        return false;
      }
      var c0 := c.value;
      if c0 == LBRACE {
        ok := SkipObject();
      } else if c0 == LBRACKET {
        ok := SkipArray();
      } else if c0 == QUOTE {
        ok := SkipString();
      } else if c0 == 0x74 {
        ok := Literal(True);
      } else if c0 == 0x66 {
        ok := Literal(False);
      } else if c0 == 0x6E {
        ok := Literal(Null);
      } else if c0 == MINUS || IsDigit(c0) {
        ok := Number();
      } else {
        ok := false;
      }
    }

    /** One member, up to its delimiter. */
    method SkipMember() returns (ok: bool)
      requires Valid()
      modifies this
      ensures Valid()
      ensures var r := JsonScan.SkipMember(old(Rest())); ok == r.Some? && (ok ==> Rest() == r.value)
      decreases |b| - i, 0
    {
      hide JsonScan.SkipValue, JsonScan.SkipUnits, JsonScan.SkipWs;
      SkipWs();
      ok := SkipString();
      if !ok { return; }
      SkipWs();
      ok := Expect(COLON);
      if !ok { return; }
      ok := SkipValue();
      if !ok { return; }
      SkipWs();
    }

    method SkipObject() returns (ok: bool)
      requires Valid() && i < |b|
      modifies this
      ensures Valid()
      ensures var r := JsonScan.SkipObject(old(Rest())[1..]); ok == r.Some? && (ok ==> Rest() == r.value)
      decreases |b| - i, 0
    {
      hide JsonScan.SkipMember;
      i := i + 1;
      SkipWs();
      if i < |b| && b[i] == RBRACE {
        i := i + 1;
        return true;
      }
      ghost var s := Rest();
      while true
        invariant Valid() && |Rest()| < |old(Rest())|
        invariant JsonScan.SkipMembers(Rest()) == JsonScan.SkipMembers(s)
        decreases |b| - i
      {
        ok := SkipMember();
        if !ok { return; }
        if i < |b| && b[i] == COMMA {
          i := i + 1;
        } else if i < |b| && b[i] == RBRACE {
          i := i + 1;
          return true;
        } else {
          return false;
        }
      }
    }

    method SkipArray() returns (ok: bool)
      requires Valid() && i < |b|
      modifies this
      ensures Valid()
      ensures var r := JsonScan.SkipArray(old(Rest())[1..]); ok == r.Some? && (ok ==> Rest() == r.value)
      decreases |b| - i, 0
    {
      hide JsonScan.SkipValue;
      i := i + 1;
      SkipWs();
      if i < |b| && b[i] == RBRACKET {
        i := i + 1;
        return true;
      }
      ghost var s := Rest();
      while true
        invariant Valid() && |Rest()| < |old(Rest())|
        invariant JsonScan.SkipItems(Rest()) == JsonScan.SkipItems(s)
        decreases |b| - i
      {
        ok := SkipValue();
        if !ok { return; }
        SkipWs();
        if i < |b| && b[i] == COMMA {
          i := i + 1;
        } else if i < |b| && b[i] == RBRACKET {
          i := i + 1;
          return true;
        } else {
          return false;
        }
      }
    }

    /** One member, up to its delimiter: its decoded name. */
    method Member() returns (key: Option<bytes>)
      requires Valid()
      modifies this
      ensures Valid()
      ensures var r := ScanMember(old(Rest()));
              key.Some? == r.Some? && (r.Some? ==> key.value == r.value.text && Rest() == r.value.rest)
    {
      SkipWs();
      key := StringDecode();
      if key.None? { return; }
      SkipWs();
      var ok := Expect(COLON);
      if !ok { return None; }
      ok := SkipValue();
      if !ok { return None; }
      SkipWs();
    }

    /** Moves to the value of the first member named `key`. */
    method EnterField(key: bytes) returns (found: bool)
      requires Valid()
      modifies this
      ensures Valid()
      ensures var r := JsonPath.EnterField(old(Rest()), key); found == r.Some? && (found ==> Rest() == r.value)
    {
      hide JsonScan.SkipWs, JsonScan.SkipValue, ReadString;
      SkipWs();
      found := Expect(LBRACE);
      if !found { return; }
      SkipWs();
      if i < |b| && b[i] == RBRACE {
        return false;
      }
      ghost var s := Rest();
      while true
        invariant Valid()
        invariant JsonPath.EnterMembers(Rest(), key) == JsonPath.EnterMembers(s, key)
        decreases |Rest()|
      {
        SkipWs();
        var k := StringDecode();
        if k.None? { return false; }
        SkipWs();
        found := Expect(COLON);
        if !found { return; }
        SkipWs();
        if k.value == key { return; }
        found := SkipValue();
        if !found { return; }
        SkipWs();
        found := Expect(COMMA);
        if !found { return; }
      }
    }

    /** The scalar ahead, if it is one: text for a string, the spelling for the rest. */
    method ScalarString() returns (text: Option<bytes>)
      requires Valid()
      modifies this
      ensures Valid() && text == JsonPath.ScalarString(old(Rest()))
    {
      hide ReadString, JsonScan.SkipNumber;
      if i == |b| {
        return None;
      }
      var c := b[i];
      var start := i;
      if c == QUOTE {
        text := StringDecode();
      } else if c == 0x74 {
        var ok := Literal(True);
        text := if ok then Some(WordText(True)) else None;
      } else if c == 0x66 {
        var ok := Literal(False);
        text := if ok then Some(WordText(False)) else None;
      } else if c == MINUS || IsDigit(c) {
        var ok := Number();
        text := if ok then Some(b[start..i]) else None;
        assert ok ==> b[start..i] == old(Rest())[..|old(Rest())| - |Rest()|];
      } else {
        text := None;
      }
    }

    /** Parses the object at the cursor, recording its top level. */
    method ObjectMembers() returns (top: Option<TopLevel>)
      requires Valid() && i < |b|
      modifies this
      ensures Valid()
      ensures var r := ScanObject(old(Rest())[1..]);
              && top.Some? == r.Some?
              && (r.Some? ==>
                    && top.value == TopLevel(old(i) + 1, r.value.keys == [], r.value.keys)
                    && Rest() == r.value.rest)
    {
      hide ScanMember, JsonScan.SkipWs;
      i := i + 1;
      var insertAt := i;
      SkipWs();
      if i < |b| && b[i] == RBRACE {
        i := i + 1;
        return Some(TopLevel(insertAt, true, []));
      }
      ghost var s := Rest();
      var keys: seq<bytes> := [];
      PrependNoKeys(ScanMembers(s));
      while true
        invariant Valid()
        invariant PrependKeys(keys, ScanMembers(Rest())) == ScanMembers(s)
        decreases |b| - i
      {
        ghost var before := Rest();
        var key := Member();
        if key.None? { return None; }
        if i < |b| && b[i] == COMMA {
          i := i + 1;
          PrependKeysTwice(keys, [key.value], ScanMembers(Rest()));
          keys := keys + [key.value];
        } else if i < |b| && b[i] == RBRACE {
          i := i + 1;
          assert ScanMembers(before) == Some(Keyed([key.value], Rest()));
          keys := keys + [key.value];
          return Some(TopLevel(insertAt, false, keys));
        } else {
          return None;
        }
      }
    }
  }

  function PrependKeys(ks: seq<bytes>, r: Option<Keyed>): Option<Keyed> {
    match r
    case None => None
    case Some(d) => Some(Keyed(ks + d.keys, d.rest))
  }

  lemma PrependNoKeys(r: Option<Keyed>)
    ensures PrependKeys([], r) == r
  {
    if r.Some? {
      assert [] + r.value.keys == r.value.keys;
    }
  }

  lemma PrependKeysTwice(a: seq<bytes>, b: seq<bytes>, r: Option<Keyed>)
    ensures PrependKeys(a, PrependKeys(b, r)) == PrependKeys(a + b, r)
  {
    if r.Some? {
      assert a + (b + r.value.keys) == (a + b) + r.value.keys;
    }
  }

  lemma TopLevelIs(body: bytes)
    ensures var s := JsonScan.SkipWs(body);
            && (s == [] || s[0] != LBRACE ==>
                  TopLevelOf(body) == if JsonScan.ValidDocument(body) then NotAnObject else Invalid)
            && (s != [] && s[0] == LBRACE ==>
                  var r := ScanObject(s[1..]);
                  TopLevelOf(body) ==
                    if r.None? || JsonScan.SkipWs(r.value.rest) != [] then Invalid
                    else Located(TopLevel(|body| - |s| + 1, r.value.keys == [], r.value.keys)))
  {
    hide ScanObject, JsonScan.ValidDocument, JsonScan.SkipWs;
  }

  /** Locates the top level of the object in `body`, validating all of it. */
  method ObjectTopLevel(body: bytes) returns (r: TopResult)
    ensures r == TopLevelOf(body)
  {
    hide ScanObject, JsonScan.ValidDocument, JsonScan.SkipWs, TopLevelOf;
    TopLevelIs(body);
    var p := new Parser(body);
    p.SkipWs();
    ghost var s := p.Rest();
    assert p.i == |body| - |s|;
    var c := p.Peek();
    if c != Some(LBRACE) {
      var ok := Validate(body);
      return if ok then NotAnObject else Invalid;
    }
    var top := p.ObjectMembers();
    if top.None? {
      return Invalid;
    }
    p.SkipWs();
    c := p.Peek();
    return if c.Some? then Invalid else Located(top.value);
  }

  /** `scalar_at_path`: the leaf scalar under the path, as a string. */
  method ScalarAtPath(body: bytes, path: seq<bytes>) returns (r: Option<bytes>)
    ensures r == JsonPath.ScalarAt(body, path)
  {
    hide JsonPath.EnterField, JsonPath.ScalarString, JsonScan.SkipWs;
    var p := new Parser(body);
    assert path[0..] == path;
    for i := 0 to |path|
      invariant fresh(p) && p.Valid()
      invariant JsonPath.EnterAll(p.Rest(), path[i..]) == JsonPath.EnterAll(body, path)
    {
      assert path[i..][0] == path[i] && path[i..][1..] == path[i + 1..];
      var found := p.EnterField(path[i]);
      if !found {
        return None;
      }
    }
    p.SkipWs();
    r := p.ScalarString();
  }

  /** Whether `body` is a single well-formed document. */
  method Validate(body: bytes) returns (ok: bool)
    ensures ok == JsonScan.ValidDocument(body)
  {
    var p := new Parser(body);
    ok := p.SkipValue();
    if !ok {
      return;
    }
    p.SkipWs();
    var c := p.Peek();
    ok := c.None?;
  }
}
