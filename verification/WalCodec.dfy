/**
  The write-ahead log's encodings: a record as the body of a frame, and a body as a
  frame `[u32 length][u32 crc][body]`.
*/
module WalCodec {
  import opened Bytes
  import Crc
  import Utf8

  /** One queued produce. */
  datatype Rec = Rec(topic: bytes, key: bytes, payload: bytes)

  const TWO_16: nat := 0x1_0000
  const TWO_32: nat := 0x1_0000_0000

  // ---------- little-endian integers ----------

  function Pow256(k: nat): (p: nat)
    ensures p > 0
  {
    if k == 0 then 1 else 256 * Pow256(k - 1)
  }

  /** `n` in `width` bytes, the lowest first. */
  function Le(n: nat, width: nat): (s: bytes)
    ensures |s| == width
    decreases width
  {
    if width == 0 then [] else [n % 256] + Le(n / 256, width - 1)
  }

  function UnLe(s: bytes): nat {
    if s == [] then 0 else var low: int := s[0]; low + 256 * UnLe(s[1..])
  }

  lemma {:induction false} UnLeOfLe(n: nat, width: nat)
    requires n < Pow256(width)
    ensures UnLe(Le(n, width)) == n
    decreases width
  {
    if width > 0 {
      UnLeOfLe(n / 256, width - 1);
    }
  }

  lemma {:induction false} LeOfUnLe(s: bytes)
    ensures Le(UnLe(s), |s|) == s && UnLe(s) < Pow256(|s|)
    decreases |s|
  {
    if s != [] {
      LeOfUnLe(s[1..]);
      assert s == [s[0]] + s[1..];
    }
  }

  lemma Widths()
    ensures Pow256(2) == TWO_16 && Pow256(4) == TWO_32
  {
    assert Pow256(0) == 1 && Pow256(1) == 256 && Pow256(2) == TWO_16 && Pow256(3) == 256 * TWO_16;
  }

  // ---------- the body ----------

  /** A Rust `&str` topic is UTF-8 by construction. */
  predicate WfRec(r: Rec) {
    Utf8.Valid(r.topic)
  }

  /** `None` when a length field would overflow. */
  function EncodeBody(r: Rec): Option<bytes> {
    if |r.topic| >= TWO_16 || |r.key| >= TWO_32 then None
    else Some(Le(|r.topic|, 2) + (r.topic + (Le(|r.key|, 4) + (r.key + r.payload))))
  }

  datatype Taken = Taken(part: bytes, rest: bytes)

  /** `body.get(at..at + n)`. */
  function Take(s: bytes, n: nat): Option<Taken> {
    if n <= |s| then Some(Taken(s[..n], s[n..])) else None
  }

  function TakeSized(s: bytes, width: nat): Option<Taken> {
    var size :- Take(s, width);
    Take(size.rest, UnLe(size.part))
  }

  function DecodeBody(body: bytes): Option<Rec> {
    var topic :- TakeSized(body, 2);
    if !Utf8.Valid(topic.part) then None
    else
      var key :- TakeSized(topic.rest, 4);
      Some(Rec(topic.part, key.part, key.rest))
  }

  lemma TakeSizedOver(x: bytes, width: nat, k: bytes)
    requires |x| < Pow256(width)
    ensures TakeSized(Le(|x|, width) + (x + k), width) == Some(Taken(x, k))
  {
    var s := Le(|x|, width);
    UnLeOfLe(|x|, width);
    assert (s + (x + k))[..width] == s && (s + (x + k))[width..] == x + k;
  }

  lemma TakeSizedIs(s: bytes, width: nat)
    requires TakeSized(s, width).Some?
    ensures var t := TakeSized(s, width).value;
            |t.part| < Pow256(width) && s == Le(|t.part|, width) + (t.part + t.rest)
  {
    LeOfUnLe(s[..width]);
    var t := TakeSized(s, width).value;
    assert s[width..] == t.part + t.rest;
    assert s == s[..width] + s[width..];
  }

  /** Decoding inverts encoding, and only encodings decode. */
  lemma BodyRoundTrip(r: Rec, body: bytes)
    ensures WfRec(r) && EncodeBody(r) == Some(body) <==> DecodeBody(body) == Some(r)
  {
    hide TakeSized, Le, Utf8.Valid, Pow256;
    Widths();
    if WfRec(r) && EncodeBody(r) == Some(body) {
      var rest := Le(|r.key|, 4) + (r.key + r.payload);
      TakeSizedOver(r.topic, 2, rest);
      TakeSizedOver(r.key, 4, r.payload);
    }
    if DecodeBody(body) == Some(r) {
      TakeSizedIs(body, 2);
      TakeSizedIs(TakeSized(body, 2).value.rest, 4);
    }
  }

  // ---------- the frame ----------

  const HEADER: nat := 8

  /** What `write_at` writes for a body. */
  function Frame(body: bytes): (s: bytes)
    ensures |s| == HEADER + |body|
  {
    Le(|body|, 4) + (Crc.LittleEndian(Crc.Crc32(body)) + body)
  }

  /** The frame of a record the log accepts. */
  predicate Storable(r: Rec) {
    WfRec(r) && EncodeBody(r).Some? && |EncodeBody(r).value| < TWO_32
  }

  function FrameOf(r: Rec): (s: bytes)
    requires Storable(r)
    ensures |s| >= HEADER
  {
    Frame(EncodeBody(r).value)
  }

  datatype Read = Read(rec: Rec, next: nat)

  /** The record framed at `at`, and the offset just past it. */
  function ReadFrame(log: bytes, at: nat): (r: Option<Read>)
    ensures r.Some? ==> at + HEADER <= r.value.next <= |log|
  {
    if at + HEADER > |log| then None
    else
      var len := UnLe(log[at..at + 4]);
      if at + HEADER + len > |log| then None
      else
        var body := log[at + HEADER..at + HEADER + len];
        if Crc.Crc32(body) != Crc.WordOf(log[at + 4..at + HEADER]) then None
        else
          var rec :- DecodeBody(body);
          Some(Read(rec, at + HEADER + len))
  }

  /** Reading over a frame gives the record back. */
  lemma ReadFrameOver(p: bytes, r: Rec, k: bytes)
    requires Storable(r)
    ensures ReadFrame(p + FrameOf(r) + k, |p|) == Some(Read(r, |p| + |FrameOf(r)|))
  {
    hide Crc.Crc32, Crc.WordOf, Crc.LittleEndian, EncodeBody, DecodeBody, Le, UnLe, Pow256;
    var body := EncodeBody(r).value;
    var size, sum := Le(|body|, 4), Crc.LittleEndian(Crc.Crc32(body));
    FrameParts(p, size, sum, body, k);
    Widths();
    UnLeOfLe(|body|, 4);
    Crc.LittleEndianWord(Crc.Crc32(body));
    BodyRoundTrip(r, body);
  }

  lemma FrameParts(p: bytes, size: bytes, sum: bytes, body: bytes, k: bytes)
    requires |size| == 4 && |sum| == 4
    ensures var log := p + (size + (sum + body)) + k;
            && |log| == |p| + HEADER + |body| + |k|
            && log[|p|..|p| + 4] == size && log[|p| + 4..|p| + HEADER] == sum
            && log[|p| + HEADER..|p| + HEADER + |body|] == body
  {
  }

  /** A frame that reads is, byte for byte, the frame of its record. */
  lemma ReadIsFrame(log: bytes, at: nat)
    requires ReadFrame(log, at).Some?
    ensures var read := ReadFrame(log, at).value;
            && Storable(read.rec) && read.next == at + |FrameOf(read.rec)|
            && log[at..read.next] == FrameOf(read.rec)
  {
    hide Crc.Crc32, Crc.WordOf, Crc.LittleEndian, EncodeBody, DecodeBody, Le, UnLe, Pow256;
    var size, sum := log[at..at + 4], log[at + 4..at + HEADER];
    Widths();
    LeOfUnLe(size);
    var body := log[at + HEADER..at + HEADER + UnLe(size)];
    BodyRoundTrip(ReadFrame(log, at).value.rec, body);
    Crc.LittleEndianWord(Crc.Crc32(body));
    Crc.WordInjective(sum, Crc.LittleEndian(Crc.Crc32(body)));
    ThreeParts(log, at, at + 4, at + HEADER, at + HEADER + UnLe(size));
  }

  lemma ThreeParts(s: bytes, a: nat, b: nat, c: nat, d: nat)
    requires a <= b <= c <= d <= |s|
    ensures s[a..d] == s[a..b] + (s[b..c] + s[c..d])
  {
  }

  /** Whether a frame reads depends on its own bytes alone, wherever they lie. */
  lemma ReadMoves(log: bytes, at: nat, log': bytes, at': nat)
    requires ReadFrame(log, at).Some?
    requires var n := ReadFrame(log, at).value.next - at;
             at' + n <= |log'| && log'[at'..at' + n] == log[at..at + n]
    ensures var read := ReadFrame(log, at).value;
            ReadFrame(log', at') == Some(Read(read.rec, at' + (read.next - at)))
  {
    hide ReadFrame, FrameOf, Storable;
    ReadIsFrame(log, at);
    var read := ReadFrame(log, at).value;
    var n := read.next - at;
    assert log' == log'[..at'] + log'[at'..at' + n] + log'[at' + n..];
    ReadFrameOver(log'[..at'], read.rec, log'[at' + n..]);
  }

  /** What does not read does not read after a cut either. */
  lemma CutReads(log: bytes, cut: nat, at: nat)
    requires cut <= |log| && ReadFrame(log[..cut], at).Some?
    ensures ReadFrame(log, at) == ReadFrame(log[..cut], at)
  {
    hide ReadFrame;
    ReadMoves(log[..cut], at, log, at);
  }

  lemma ReadAfter(p: bytes, x: bytes, i: nat)
    ensures match ReadFrame(x, i)
            case None => ReadFrame(p + x, |p| + i) == None
            case Some(read) => ReadFrame(p + x, |p| + i) == Some(Read(read.rec, |p| + read.next))
  {
    hide ReadFrame;
    if ReadFrame(x, i).Some? {
      var n := ReadFrame(x, i).value.next;
      assert (p + x)[|p| + i..|p| + n] == x[i..n];
      ReadMoves(x, i, p + x, |p| + i);
    } else if ReadFrame(p + x, |p| + i).Some? {
      var n := ReadFrame(p + x, |p| + i).value.next - |p|;
      assert (p + x)[|p| + i..|p| + n] == x[i..n];
      ReadMoves(p + x, |p| + i, x, i);
    }
  }

  /** A partial frame at the end of the file does not read. */
  lemma TornFrame(p: bytes, r: Rec, n: nat)
    requires Storable(r) && n < |FrameOf(r)|
    ensures ReadFrame(p + FrameOf(r)[..n], |p|) == None
  {
    hide Crc.Crc32, Crc.WordOf, Crc.LittleEndian, EncodeBody, DecodeBody, Le, UnLe, Pow256;
    var body := EncodeBody(r).value;
    var log := p + FrameOf(r)[..n];
    if n >= HEADER {
      assert log[|p|..|p| + 4] == Le(|body|, 4);
      Widths();
      UnLeOfLe(|body|, 4);
    }
  }

  /** A frame whose body was damaged within four consecutive bytes never reads: the
      header still carries the checksum of the body that was written. */
  lemma DamagedFrame(p: bytes, r: Rec, a: bytes, x: bytes, y: bytes, b: bytes, k: bytes)
    requires Storable(r) && EncodeBody(r).value == a + x + b && |x| == |y| <= 4 && x != y
    ensures ReadFrame(p + FrameOf(r)[..HEADER] + (a + y + b) + k, |p|) == None
  {
    hide Crc.Crc32, Crc.WordOf, Crc.LittleEndian, EncodeBody, DecodeBody, Le, UnLe, Pow256;
    var body, bad := EncodeBody(r).value, a + y + b;
    var size, sum := Le(|body|, 4), Crc.LittleEndian(Crc.Crc32(body));
    assert FrameOf(r)[..HEADER] == size + sum;
    assert p + (size + sum) + bad + k == p + (size + (sum + bad)) + k;
    FrameParts(p, size, sum, bad, k);
    Widths();
    UnLeOfLe(|body|, 4);
    Crc.LittleEndianWord(Crc.Crc32(body));
    Crc.BurstDetected(a, x, y, b);
  }

  // ---------- the bytes on disk ----------

  /** A number in four bytes, the lowest first. */
  predicate Spells(s: bytes, n: nat) {
    |s| == 4 && s[0] as int + 0x100 * s[1] as int + 0x1_0000 * s[2] as int + 0x100_0000 * s[3] as int == n
  }

  lemma LeSpells(n: nat)
    requires n < TWO_32
    ensures Spells(Le(n, 4), n)
  {
    hide Le;
    Widths();
    UnLeOfLe(n, 4);
    UnLeFour(Le(n, 4));
  }

  lemma UnLeFour(s: bytes)
    requires |s| == 4
    ensures Spells(s, UnLe(s))
  {
    assert UnLe(s) == s[0] as int + 0x100 * UnLe(s[1..]);
    assert UnLe(s[1..]) == s[1] as int + 0x100 * UnLe(s[2..]) by { assert s[1..][1..] == s[2..]; }
    assert UnLe(s[2..]) == s[2] as int + 0x100 * UnLe(s[3..]) by { assert s[2..][1..] == s[3..]; }
    assert UnLe(s[3..]) == s[3] as int + 0x100 * UnLe([]) by { assert s[3..][1..] == []; }
  }

  /** A body, byte by byte: the topic and the key behind their lengths, and the payload. */
  lemma BodyLayout(r: Rec, body: bytes)
    requires EncodeBody(r) == Some(body)
    ensures var t, k := |r.topic|, |r.key|;
            && |body| == 6 + t + k + |r.payload|
            && body[0] as int + 0x100 * body[1] as int == t && body[2..2 + t] == r.topic
            && Spells(body[2 + t..6 + t], k) && body[6 + t..6 + t + k] == r.key
            && body[6 + t + k..] == r.payload
  {
    hide Le, Spells;
    LeSpells(|r.key|);
    TwoBytes(|r.topic|);
    assert body[..2] == Le(|r.topic|, 2);
    assert body[2 + |r.topic|..6 + |r.topic|] == Le(|r.key|, 4);
  }

  /** A frame, byte by byte: the length of the body, its checksum, and the body. */
  lemma FrameLayout(r: Rec)
    requires Storable(r)
    ensures var f := FrameOf(r);
            && Spells(f[..4], |f| - 8) && f[4..8] == Crc.LittleEndian(Crc.Crc32(f[8..]))
            && EncodeBody(r) == Some(f[8..])
  {
    hide Crc.Crc32, Crc.LittleEndian, Le, WfRec, EncodeBody, Spells;
    var f, body := FrameOf(r), EncodeBody(r).value;
    LeSpells(|body|);
    assert f[..4] == Le(|body|, 4) && f[8..] == body;
  }

  lemma TwoBytes(n: nat)
    requires n < TWO_16
    ensures Le(n, 2)[0] as int + 0x100 * Le(n, 2)[1] as int == n
  {
    assert Le(n, 2) == [n % 256] + Le(n / 256, 1) && Le(n / 256, 1) == [n / 256 % 256] + Le(n / 256 / 256, 0);
  }
}
