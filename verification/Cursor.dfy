/**
  The stateless cursor envelope: `{cluster hex}.{tag hex}.{cursor}`. The tag is any
  deterministic function of the cluster and the cursor.
*/
module Cursor {
  import opened Bytes
  import opened JsonValue
  import Crc
  import Utf8

  const SEPARATOR: byte := 0x1F

  datatype Cursor = Cursor(cluster: bytes, id: bytes)

  type Signer = bytes -> bytes

  /** The signed message. */
  function Binding(c: Cursor): bytes {
    c.cluster + [SEPARATOR] + c.id
  }

  /** Clusters that do not contain the separator cannot trade bytes with the cursor. */
  lemma BindingInjective(a: Cursor, b: Cursor)
    requires SEPARATOR !in a.cluster && SEPARATOR !in b.cluster && Binding(a) == Binding(b)
    ensures a == b
  {
    var x, y := Binding(a), Binding(b);
    if |a.cluster| < |b.cluster| {
      ShorterDiffers(a, b);
    } else if |b.cluster| < |a.cluster| {
      ShorterDiffers(b, a);
    } else {
      assert x[..|a.cluster|] == a.cluster && y[..|b.cluster|] == b.cluster;
      assert x[|a.cluster| + 1..] == a.id && y[|b.cluster| + 1..] == b.id;
    }
  }

  lemma ShorterDiffers(a: Cursor, b: Cursor)
    requires SEPARATOR !in b.cluster && |a.cluster| < |b.cluster|
    ensures Binding(a) != Binding(b)
  {
    var n := |a.cluster|;
    assert Binding(a)[n] == SEPARATOR && Binding(b)[n] == b.cluster[n];
  }

  // ---------- hexadecimal ----------

  function Hex(s: bytes): bytes {
    if s == [] then [] else [LowerHex(s[0] / 16), LowerHex(s[0] % 16)] + Hex(s[1..])
  }

  lemma LowerHexIs(n: nat)
    requires n < 16
    ensures LowerHex(n) == Ascii("0123456789abcdef")[n]
  {
  }

  /** Two lower-case digits for each byte, the high half first. */
  lemma {:induction false} HexSpells(s: bytes, i: nat)
    requires i < |s|
    ensures |Hex(s)| == 2 * |s|
    ensures Hex(s)[2 * i] == Ascii("0123456789abcdef")[s[i] / 16]
    ensures Hex(s)[2 * i + 1] == Ascii("0123456789abcdef")[s[i] % 16]
    decreases |s|
  {
    hide LowerHex, Ascii;
    LowerHexIs(s[0] / 16);
    LowerHexIs(s[0] % 16);
    if |s| > 1 {
      HexSpells(s[1..], if i == 0 then 0 else i - 1);
    }
  }

  /** The byte two hexadecimal digits spell. */
  function Pair(high: byte, low: byte): Option<byte> {
    var hi :- HexVal(high);
    var lo :- HexVal(low);
    Some(16 * hi + lo)
  }

  function UnHex(h: bytes): Option<bytes> {
    if h == [] then Some([])
    else if |h| == 1 then None
    else
      var b :- Pair(h[0], h[1]);
      var rest :- UnHex(h[2..]);
      Some([b] + rest)
  }

  function Lower(b: byte): byte {
    if 0x41 <= b <= 0x46 then b + 0x20 else b
  }

  /** Hexadecimal digits in lower case. */
  function LowerAll(h: bytes): bytes {
    if h == [] then [] else [Lower(h[0])] + LowerAll(h[1..])
  }

  lemma LowerDigit(b: byte, n: nat)
    requires n < 16
    ensures HexVal(b) == Some(n) <==> Lower(b) == LowerHex(n)
  {
  }

  /** Decoding gives `s` exactly on the spellings of `s`, either case. */
  lemma {:induction false} UnHexIff(h: bytes, s: bytes)
    ensures UnHex(h) == Some(s) <==> LowerAll(h) == Hex(s)
    decreases |h|
  {
    if |h| >= 2 {
      var l := LowerAll(h);
      assert h[1..][0] == h[1] && h[1..][1..] == h[2..];
      assert LowerAll(h[1..]) == [Lower(h[1])] + LowerAll(h[2..]);
      assert l == [Lower(h[0])] + ([Lower(h[1])] + LowerAll(h[2..]));
      assert l[0] == Lower(h[0]) && l[1] == Lower(h[1]) && l[2..] == LowerAll(h[2..]);
      if s != [] {
        var x := Hex(s);
        assert x[0] == LowerHex(s[0] / 16) && x[1] == LowerHex(s[0] % 16) && x[2..] == Hex(s[1..]);
        LowerDigit(h[0], s[0] / 16);
        LowerDigit(h[1], s[0] % 16);
        UnHexIff(h[2..], s[1..]);
        assert l == x <==> l[0] == x[0] && l[1] == x[1] && l[2..] == x[2..] by {
          assert l == [l[0], l[1]] + l[2..] && x == [x[0], x[1]] + x[2..];
        }
        UnHexStep(h, s);
        PairIs(h[0], h[1], s[0]);
      }
    } else {
      OneDigit(h, s);
    }
  }

  lemma UnHexStep(h: bytes, s: bytes)
    requires |h| >= 2 && s != []
    ensures UnHex(h) == Some(s) <==> Pair(h[0], h[1]) == Some(s[0]) && UnHex(h[2..]) == Some(s[1..])
  {
    hide Pair;
    if Pair(h[0], h[1]).Some? && UnHex(h[2..]).Some? {
      var v, rest := Pair(h[0], h[1]).value, UnHex(h[2..]).value;
      assert [v] + rest == s <==> v == s[0] && rest == s[1..] by {
        assert s == [s[0]] + s[1..] && ([v] + rest)[1..] == rest && ([v] + rest)[0] == v;
      }
    }
  }

  lemma PairIs(high: byte, low: byte, b: byte)
    ensures Pair(high, low) == Some(b) <==> HexVal(high) == Some(b / 16) && HexVal(low) == Some(b % 16)
  {
    if HexVal(high).Some? && HexVal(low).Some? {
      var v := 16 * HexVal(high).value + HexVal(low).value;
      assert v / 16 == HexVal(high).value && v % 16 == HexVal(low).value;
    }
  }

  lemma OneDigit(h: bytes, s: bytes)
    requires |h| < 2
    ensures UnHex(h) == Some(s) <==> LowerAll(h) == Hex(s)
  {
    if s != [] {
      assert |Hex(s)| >= 2;
      assert |LowerAll(h)| == |h|;
    }
  }

  lemma HexDigits(b: byte)
    ensures Pair(LowerHex(b / 16), LowerHex(b % 16)) == Some(b)
    ensures LowerHex(b / 16) != DOT && LowerHex(b % 16) != DOT
  {
    HexOfLower(b / 16);
    HexOfLower(b % 16);
  }

  lemma {:induction false} HexRoundTrip(s: bytes)
    ensures UnHex(Hex(s)) == Some(s) && DOT !in Hex(s)
    decreases |s|
  {
    if s != [] {
      HexRoundTrip(s[1..]);
      hide Pair, LowerHex;
      HexDigits(s[0]);
      var h := Hex(s);
      assert h[0] == LowerHex(s[0] / 16) && h[1] == LowerHex(s[0] % 16) && h[2..] == Hex(s[1..]);
      assert h == [h[0], h[1]] + h[2..];
      assert [s[0]] + s[1..] == s;
    }
  }

  /** `push_hex`. */
  method PushHex(out: bytes, s: bytes) returns (r: bytes)
    ensures r == out + Hex(s)
  {
    r := out;
    assert s[0..] == s;
    for i := 0 to |s|
      invariant r + Hex(s[i..]) == out + Hex(s)
    {
      assert s[i..][1..] == s[i + 1..];
      r := r + [LowerHex(s[i] / 16)];
      r := r + [LowerHex(s[i] % 16)];
    }
    assert r + [] == r;
  }

  function OrBits(a: bv32, b: bv32): bv32 {
    a | b
  }

  /** `|` on the accumulated difference. */
  function Either(a: Crc.Word, b: Crc.Word): Crc.Word {
    Crc.Word(OrBits(a.w, b.w))
  }

  lemma OrZeroLeft(a: bv32, b: bv32)
    requires OrBits(a, b) == 0
    ensures a == 0
  {
  }

  lemma OrZeroRight(a: bv32, b: bv32)
    requires OrBits(a, b) == 0
    ensures b == 0
  {
  }

  lemma XorZero(a: bv32, b: bv32)
    requires Crc.XorBits(a, b) == 0
    ensures a == b
  {
  }

  lemma ZeroBits(a: bv32)
    ensures OrBits(0, 0) == 0 && Crc.XorBits(a, a) == 0
  {
  }

  lemma DiffBits(d: bv32, a: bv32, b: bv32)
    ensures OrBits(d, Crc.XorBits(a, b)) == 0 <==> d == 0 && a == b
  {
    ZeroBits(a);
    if OrBits(d, Crc.XorBits(a, b)) == 0 {
      OrZeroLeft(d, Crc.XorBits(a, b));
      OrZeroRight(d, Crc.XorBits(a, b));
      XorZero(a, b);
    }
    hide OrBits, Crc.XorBits;
  }

  lemma DiffWords(d: Crc.Word, a: Crc.Word, b: Crc.Word)
    ensures Either(d, Crc.Xor(a, b)) == Crc.ZERO_WORD <==> d == Crc.ZERO_WORD && a == b
  {
    DiffBits(d.w, a.w, b.w);
    hide OrBits, Crc.XorBits;
  }

  lemma WideDistinct(a: byte, b: byte)
    ensures Crc.Wide(a) == Crc.Wide(b) <==> a == b
  {
    hide Crc.Wide;
    if Crc.Wide(a) == Crc.Wide(b) {
      Crc.WideInjective(a, b);
    }
  }

  lemma DiffStep(d: Crc.Word, a: byte, b: byte)
    ensures Either(d, Crc.Xor(Crc.Wide(a), Crc.Wide(b))) == Crc.ZERO_WORD <==> d == Crc.ZERO_WORD && a == b
  {
    hide Crc.Wide, Crc.Xor, Either;
    DiffWords(d, Crc.Wide(a), Crc.Wide(b));
    WideDistinct(a, b);
  }

  lemma Mark(d: Crc.Word)
    ensures Either(d, Crc.Word(1)) != Crc.ZERO_WORD
  {
  }

  /** What is left to compare after `i` bytes agrees. */
  predicate AgreesFrom(h: bytes, want: bytes, i: nat)
    requires i <= |want| && |h| == 2 * |want|
  {
    UnHex(h[2 * i..]) == Some(want[i..])
  }

  /** `hex_eq_ct`: no early return, and equal exactly when the text decodes to the tag. */
  method HexEq(h: bytes, want: bytes) returns (equal: bool)
    ensures equal <==> UnHex(h) == Some(want)
  {
    if |h| != 2 * |want| {
      UnHexLength(h);
      return false;
    }
    var diff := Crc.ZERO_WORD;
    AgreesEnds(h, want);
    for i := 0 to |want|
      invariant UnHex(h) == Some(want) <==> diff == Crc.ZERO_WORD && AgreesFrom(h, want, i)
    {
      hide Crc.Xor, Crc.Wide, Either, AgreesFrom, UnHex, Pair;
      PairStep(h, want, i);
      var b := Pair(h[2 * i], h[2 * i + 1]);
      if b.Some? {
        DiffStep(diff, b.value, want[i]);
        diff := Either(diff, Crc.Xor(Crc.Wide(b.value), Crc.Wide(want[i])));
      } else {
        Mark(diff);
        diff := Either(diff, Crc.Word(1));
      }
    }
    equal := diff == Crc.ZERO_WORD;
  }

  lemma AgreesEnds(h: bytes, want: bytes)
    requires |h| == 2 * |want|
    ensures AgreesFrom(h, want, 0) <==> UnHex(h) == Some(want)
    ensures AgreesFrom(h, want, |want|)
  {
    assert h[0..] == h && want[0..] == want;
    assert h[2 * |want|..] == [] && want[|want|..] == [];
  }

  lemma PairStep(h: bytes, want: bytes, i: nat)
    requires i < |want| && |h| == 2 * |want|
    ensures AgreesFrom(h, want, i) <==>
            Pair(h[2 * i], h[2 * i + 1]) == Some(want[i]) && AgreesFrom(h, want, i + 1)
  {
    var t, w := h[2 * i..], want[i..];
    assert t[0] == h[2 * i] && t[1] == h[2 * i + 1] && t[2..] == h[2 * (i + 1)..];
    assert w[0] == want[i] && w[1..] == want[i + 1..];
    UnHexStep(t, w);
  }

  lemma {:induction false} UnHexLength(h: bytes)
    ensures UnHex(h).Some? ==> |h| == 2 * |UnHex(h).value|
    decreases |h|
  {
    if |h| >= 2 {
      UnHexLength(h[2..]);
    }
  }

  // ---------- the envelope ----------

  function Wrap(tag: Signer, c: Cursor): bytes {
    Hex(c.cluster) + ([DOT] + (Hex(tag(Binding(c))) + ([DOT] + c.id)))
  }

  /** A token, field by field; its tag signs the cluster and the cursor. */
  lemma TokenLayout(tag: Signer, c: Cursor)
    ensures var signed := tag(c.cluster + [0x1F] + c.id);
            Wrap(tag, c) == Hex(c.cluster) + [0x2E] + Hex(signed) + [0x2E] + c.id
  {
    hide Hex;
    var h, t := Hex(c.cluster), Hex(tag(c.cluster + [0x1F] + c.id));
    assert h + ([0x2E] + (t + ([0x2E] + c.id))) == h + [0x2E] + t + [0x2E] + c.id;
  }

  datatype Cut = Cut(head: bytes, tail: bytes)

  /** Split at the first dot. */
  function CutAtDot(s: bytes): (r: Option<Cut>)
    ensures r.Some? ==> s == r.value.head + ([DOT] + r.value.tail) && DOT !in r.value.head
    ensures r.None? ==> DOT !in s
  {
    if s == [] then None
    else if s[0] == DOT then
      CutHere(s);
      Some(Cut([], s[1..]))
    else
      NoDotYet(s);
      var c :- CutAtDot(s[1..]);
      CutLater(s, c.head, c.tail);
      Some(Cut([s[0]] + c.head, c.tail))
  }

  lemma CutHere(s: bytes)
    requires s != []
    ensures s == [] + ([s[0]] + s[1..])
  {
  }

  lemma NoDotYet(s: bytes)
    requires s != [] && s[0] != DOT
    ensures DOT !in s <==> DOT !in s[1..]
  {
    assert s == [s[0]] + s[1..];
  }

  lemma CutLater(s: bytes, head: bytes, tail: bytes)
    requires s != [] && s[1..] == head + ([DOT] + tail)
    ensures s == ([s[0]] + head) + ([DOT] + tail)
    ensures DOT !in head && s[0] != DOT ==> DOT !in [s[0]] + head
  {
  }

  lemma {:induction false} CutOver(head: bytes, tail: bytes)
    requires DOT !in head
    ensures CutAtDot(head + ([DOT] + tail)) == Some(Cut(head, tail))
    decreases |head|
  {
    var s := head + ([DOT] + tail);
    if head == [] {
      assert s == [DOT] + tail;
      assert s[1..] == tail;
    } else {
      assert head[0] in head && forall b | b in head[1..] :: b in head;
      assert s[1..] == head[1..] + ([DOT] + tail);
      CutOver(head[1..], tail);
      assert [head[0]] + head[1..] == head;
    }
  }

  /** `None` when the token is malformed or its tag does not verify. */
  function Unwrap(tag: Signer, token: bytes): Option<Cursor> {
    var a :- CutAtDot(token);
    var b :- CutAtDot(a.tail);
    var cluster :- UnHex(a.head);
    if !Utf8.Valid(cluster) then None
    else
      var c := Cursor(cluster, b.tail);
      if UnHex(b.head) == Some(tag(Binding(c))) then Some(c) else None
  }

  /** `unwrap`, re-deriving the tag and comparing it in place. */
  method UnwrapToken(tag: Signer, token: bytes) returns (r: Option<Cursor>)
    ensures r == Unwrap(tag, token)
  {
    hide UnHex, Utf8.Valid;
    var a := CutAtDot(token);
    if a.None? {
      return None;
    }
    var b := CutAtDot(a.value.tail);
    if b.None? {
      return None;
    }
    var cluster := UnHex(a.value.head);
    if cluster.None? || !Utf8.Valid(cluster.value) {
      return None;
    }
    var c := Cursor(cluster.value, b.value.tail);
    var ok := HexEq(b.value.head, tag(Binding(c)));
    r := if ok then Some(c) else None;
  }

  /** `wrap`, framing into one buffer. */
  method WrapCursor(tag: Signer, c: Cursor) returns (token: bytes)
    ensures token == Wrap(tag, c)
  {
    hide Hex, Binding;
    token := PushHex([], c.cluster);
    token := token + [DOT];
    token := PushHex(token, tag(Binding(c)));
    token := token + [DOT];
    token := token + c.id;
    assert token == Hex(c.cluster) + ([DOT] + (Hex(tag(Binding(c))) + ([DOT] + c.id)));
  }

  /** Unwrapping inverts wrapping, for every cluster and cursor, dots included. */
  lemma UnwrapInvertsWrap(tag: Signer, c: Cursor)
    requires Utf8.Valid(c.cluster)
    ensures Unwrap(tag, Wrap(tag, c)) == Some(c)
  {
    hide Hex, UnHex, Utf8.Valid, CutAtDot;
    var t := Hex(tag(Binding(c)));
    HexRoundTrip(c.cluster);
    HexRoundTrip(tag(Binding(c)));
    CutOver(Hex(c.cluster), t + ([DOT] + c.id));
    CutOver(t, c.id);
  }

  /** A token is accepted exactly when it spells the wrapping of the cursor it gives,
      up to the case of its hexadecimal digits. */
  lemma AcceptsOnlyWrapped(tag: Signer, token: bytes, c: Cursor)
    ensures Unwrap(tag, token) == Some(c) <==>
            Utf8.Valid(c.cluster) && exists h1, h2 ::
              token == h1 + ([DOT] + (h2 + ([DOT] + c.id)))
              && LowerAll(h1) == Hex(c.cluster) && LowerAll(h2) == Hex(tag(Binding(c)))
  {
    hide Hex, UnHex, Utf8.Valid, CutAtDot, LowerAll;
    if Unwrap(tag, token) == Some(c) {
      var a := CutAtDot(token).value;
      var b := CutAtDot(a.tail).value;
      UnHexIff(a.head, c.cluster);
      UnHexIff(b.head, tag(Binding(c)));
      assert token == a.head + ([DOT] + (b.head + ([DOT] + c.id)));
    }
    forall h1, h2 | Utf8.Valid(c.cluster) && token == h1 + ([DOT] + (h2 + ([DOT] + c.id)))
                    && LowerAll(h1) == Hex(c.cluster) && LowerAll(h2) == Hex(tag(Binding(c)))
      ensures Unwrap(tag, token) == Some(c)
    {
      UnHexIff(h1, c.cluster);
      UnHexIff(h2, tag(Binding(c)));
      NoDots(h1);
      NoDots(h2);
      CutOver(h1, h2 + ([DOT] + c.id));
      CutOver(h2, c.id);
    }
  }

  lemma {:induction false} NoDots(h: bytes)
    requires UnHex(h).Some?
    ensures DOT !in h
    decreases |h|
  {
    if h != [] {
      NoDots(h[2..]);
      assert h == [h[0], h[1]] + h[2..];
    }
  }
}
