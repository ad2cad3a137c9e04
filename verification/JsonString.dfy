/**
  Decoding a JSON string: what its characters mean (RFC 8259, section 7), what the
  scanner's decoder reads, and that the two agree in both directions.
*/
module JsonString {
  import opened Bytes
  import opened JsonText
  import JsonScan
  import Utf8

  /** The character a two-byte escape stands for. */
  function ShortEscape(c: byte): (r: Option<byte>)
    ensures r.Some? ==> r.value < 0x80 && c != LOWER_U
  {
    if c == QUOTE || c == BACKSLASH || c == 0x2F then Some(c)
    else if c == 0x62 then Some(0x08)
    else if c == 0x66 then Some(0x0C)
    else if c == 0x6E then Some(0x0A)
    else if c == 0x72 then Some(0x0D)
    else if c == 0x74 then Some(0x09)
    else None
  }

  /** The eight pairs of section 7. */
  lemma ShortEscapeIff(c: byte, b: byte)
    ensures ShortEscape(c) == Some(b) <==>
              (c, b) in {(0x22, 0x22), (0x5C, 0x5C), (0x2F, 0x2F), (0x62, 0x08), (0x66, 0x0C), (0x6E, 0x0A),
                         (0x72, 0x0D), (0x74, 0x09)}
  {
  }

  function Hex4(h0: byte, h1: byte, h2: byte, h3: byte): (r: Option<nat>)
    ensures r.Some? ==> r.value < 0x1_0000
  {
    var a :- HexVal(h0);
    var b :- HexVal(h1);
    var c :- HexVal(h2);
    var d :- HexVal(h3);
    Some(((a * 16 + b) * 16 + c) * 16 + d)
  }

  predicate IsHigh(n: nat) {
    0xD800 <= n <= 0xDBFF
  }

  predicate IsLow(n: nat) {
    0xDC00 <= n <= 0xDFFF
  }

  function FromPair(hi: nat, lo: nat): (cp: nat)
    requires IsHigh(hi) && IsLow(lo)
    ensures 0x1_0000 <= cp && Utf8.IsScalar(cp)
  {
    0x1_0000 + (hi - 0xD800) * 1024 + (lo - 0xDC00)
  }

  function Prepend(p: bytes, r: Option<bytes>): Option<bytes> {
    match r
    case None => None
    case Some(t) => Some(p + t)
  }

  datatype Step = Step(text: bytes, rest: Units)

  /** What a run of one `\u` escape, or of a surrogate pair of them, stands for,
      and the characters after it. */
  function UnicodeStep(u: Units): (r: Option<Step>)
    requires u.Unicode?
    ensures r.Some? ==> r.value.rest < u
    ensures r.Some? ==> exists cp: nat :: Utf8.IsScalar(cp) && r.value.text == Utf8.Encode(cp)
  {
    var hi :- Hex4(u.h0, u.h1, u.h2, u.h3);
    if IsHigh(hi) then
      if u.rest.Unicode? then
        var lo :- Hex4(u.rest.h0, u.rest.h1, u.rest.h2, u.rest.h3);
        if IsLow(lo) then Some(Step(Utf8.Encode(FromPair(hi, lo)), u.rest.rest)) else None
      else None
    else if IsLow(hi) then None
    else Some(Step(Utf8.Encode(hi), u.rest))
  }

  /** The bytes the characters stand for, before the UTF-8 check; `None` for an
      escape outside RFC 8259 or an unpaired surrogate. */
  function DecodeUnits(u: Units): Option<bytes> {
    match u
    case Close => Some([])
    case Plain(b, rest) => Prepend([b], DecodeUnits(rest))
    case Escape(c, rest) =>
      var e :- ShortEscape(c);
      Prepend([e], DecodeUnits(rest))
    case Unicode(_, _, _, _, _) =>
      var st :- UnicodeStep(u);
      Prepend(st.text, DecodeUnits(st.rest))
  }

  /** The Rust `String` a JSON string denotes. */
  function KeyOf(u: Units): Option<bytes> {
    var d :- DecodeUnits(u);
    if Utf8.Valid(d) then Some(d) else None
  }

  // ---------- what the decoder reads ----------

  datatype Decoded = Decoded(text: bytes, rest: bytes)

  function PrependDecoded(p: bytes, r: Option<Decoded>): Option<Decoded> {
    match r
    case None => None
    case Some(d) => Some(Decoded(p + d.text, d.rest))
  }

  function ReadHex4(s: bytes): Option<nat> {
    if |s| < 4 then None else Hex4(s[0], s[1], s[2], s[3])
  }

  /** One `\u` escape, after the `u`: its UTF-8 bytes and what follows it. */
  function ReadUnicode(s: bytes): (r: Option<Decoded>)
    ensures r.Some? ==> |r.value.rest| < |s|
  {
    var hi :- ReadHex4(s);
    if IsHigh(hi) then
      var t :- JsonScan.Expect(s[4..], BACKSLASH);
      var t :- JsonScan.Expect(t, LOWER_U);
      var lo :- ReadHex4(t);
      if IsLow(lo) then Some(Decoded(Utf8.Encode(FromPair(hi, lo)), t[4..])) else None
    else if IsLow(hi) then None
    else Some(Decoded(Utf8.Encode(hi), s[4..]))
  }

  /** One escape, after the backslash. */
  function ReadEscape(s: bytes): (r: Option<Decoded>)
    ensures r.Some? ==> |r.value.rest| < |s|
  {
    if s == [] then None
    else if s[0] == LOWER_U then ReadUnicode(s[1..])
    else
      var e :- ShortEscape(s[0]);
      Some(Decoded([e], s[1..]))
  }

  /** The rest of a string, after its opening quote, before the UTF-8 check. */
  function ReadBody(s: bytes): (r: Option<Decoded>)
    decreases |s|
    ensures r.Some? ==> |r.value.rest| < |s|
  {
    if s == [] then None
    else if s[0] == QUOTE then Some(Decoded([], s[1..]))
    else if s[0] == BACKSLASH then
      var e :- ReadEscape(s[1..]);
      PrependDecoded(e.text, ReadBody(e.rest))
    else if s[0] < 0x20 then None
    else PrependDecoded([s[0]], ReadBody(s[1..]))
  }

  function ReadString(s: bytes): (r: Option<Decoded>)
    ensures r.Some? ==> |r.value.rest| < |s|
  {
    var t :- JsonScan.Expect(s, QUOTE);
    var d :- ReadBody(t);
    if Utf8.Valid(d.text) then Some(d) else None
  }

  function WithRest(d: Option<bytes>, k: bytes): Option<Decoded> {
    match d
    case None => None
    case Some(t) => Some(Decoded(t, k))
  }

  /** Over the text of `u` the decoder reads exactly what `u` denotes, and stops
      where the skipping scanner stops. */
  lemma {:induction false} ReadBodyOver(u: Units, k: bytes)
    requires WfUnits(u)
    ensures ReadBody(PrintUnits(u, k)) == WithRest(DecodeUnits(u), k)
    decreases u
  {
    var s := PrintUnits(u, k);
    match u
    case Close => assert s[1..] == k;
    case Plain(b, rest) =>
      assert s[1..] == PrintUnits(rest, k);
      ReadBodyOver(rest, k);
    case Escape(c, rest) =>
      assert s[1..][1..] == PrintUnits(rest, k);
      ReadBodyOver(rest, k);
    case Unicode(h0, h1, h2, h3, rest) =>
      assert s[1..][1..] == [h0, h1, h2, h3] + PrintUnits(rest, k);
      ReadUnicodeOver(u, k);
      if UnicodeStep(u).Some? {
        ReadBodyOver(UnicodeStep(u).value.rest, k);
      }
  }

  lemma ReadUnicodeOver(u: Units, k: bytes)
    requires u.Unicode? && WfUnits(u)
    ensures ReadUnicode([u.h0, u.h1, u.h2, u.h3] + PrintUnits(u.rest, k)) ==
            (match UnicodeStep(u) case None => None case Some(st) => Some(Decoded(st.text, PrintUnits(st.rest, k))))
  {
    var t := PrintUnits(u.rest, k);
    assert ([u.h0, u.h1, u.h2, u.h3] + t)[4..] == t;
    ReadLowOver(u.rest, k);
  }

  /** The second half of a surrogate pair must be spelled as another `\u` escape. */
  lemma ReadLowOver(u: Units, k: bytes)
    requires WfUnits(u)
    ensures var t := PrintUnits(u, k);
            (t != [] && t[0] == BACKSLASH && t[1..] != [] && t[1..][0] == LOWER_U) == u.Unicode?
    ensures u.Unicode? ==> PrintUnits(u, k)[1..][1..] == [u.h0, u.h1, u.h2, u.h3] + PrintUnits(u.rest, k)
    ensures u.Unicode? ==> PrintUnits(u, k)[1..][1..][4..] == PrintUnits(u.rest, k)
  {
    var t := PrintUnits(u, k);
    if u.Escape? {
      assert t[1..][0] == t[1];
    }
  }

  /** `string_decode` on the text of a string. */
  lemma ReadStringOver(u: Units, k: bytes)
    requires WfUnits(u)
    ensures ReadString([QUOTE] + PrintUnits(u, k)) == WithRest(KeyOf(u), k)
    ensures JsonScan.SkipString([QUOTE] + PrintUnits(u, k)) == Some(k)
  {
    assert ([QUOTE] + PrintUnits(u, k))[1..] == PrintUnits(u, k);
    ReadBodyOver(u, k);
    JsonScan.SkipUnitsOver(u, k);
  }

  /** Whatever the decoder reads, the skipping scanner reads too, to the same place. */
  lemma {:induction false} DecodedIsSkipped(s: bytes)
    requires ReadBody(s).Some?
    ensures JsonScan.SkipUnits(s) == Some(ReadBody(s).value.rest)
    decreases |s|
  {
    if s[0] == QUOTE {
    } else if s[0] == BACKSLASH {
      var e := ReadEscape(s[1..]).value;
      DecodedIsSkipped(e.rest);
      if s[1..][0] == LOWER_U && IsHigh(ReadHex4(s[1..][1..]).value) {
        // the low half of a pair is one more escape to the skipping scanner
        var t := s[1..][1..][4..];
        assert JsonScan.SkipUnits(s) == JsonScan.SkipUnits(t);
      }
    } else {
      DecodedIsSkipped(s[1..]);
    }
  }
}
