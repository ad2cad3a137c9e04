/**
  NDJSON framing: the buffered splitter, and the incremental reader that frames lines
  out of a streamed body however it is cut.
*/
module Ndjson {
  import opened Bytes

  const MAX_LINE_BYTES: nat := 64 * 1024 * 1024

  /** `u8::is_ascii_whitespace`. */
  predicate IsAsciiWhitespace(b: byte) {
    b == SPACE || b == 0x09 || b == NEWLINE || b == 0x0C || b == CARRIAGE_RETURN
  }

  predicate Blank(s: bytes) {
    forall b | b in s :: IsAsciiWhitespace(b)
  }

  function TrimCr(line: bytes): bytes {
    if line != [] && line[|line| - 1] == CARRIAGE_RETURN then line[..|line| - 1] else line
  }

  /** The line without the carriage return at its end, if it has one. */
  lemma TrimCrIs(line: bytes)
    ensures TrimCr(line + [0x0D]) == line
    ensures line == [] || line[|line| - 1] != 0x0D ==> TrimCr(line) == line
  {
    assert (line + [0x0D])[..|line|] == line;
  }

  /** Where the first newline is. */
  function Newline(s: bytes): (r: Option<nat>)
    ensures r.Some? ==> r.value < |s|
  {
    if s == [] then None
    else if s[0] == NEWLINE then Some(0)
    else
      var n :- Newline(s[1..]);
      Some(n + 1)
  }

  function Keep(line: bytes): seq<bytes> {
    if Blank(line) then [] else [line]
  }

  /** The lines that are not all whitespace. */
  function NonBlank(body: bytes): seq<bytes>
    decreases |body|
  {
    match Newline(body)
    case None => Keep(body)
    case Some(n) => Keep(body[..n]) + NonBlank(body[n + 1..])
  }

  /** The lines as the reader frames them: a carriage return before a newline goes too,
      but the last line, if no newline ends it, is taken whole. */
  function Framed(body: bytes): seq<bytes>
    decreases |body|
  {
    match Newline(body)
    case None => Keep(body)
    case Some(n) => Keep(TrimCr(body[..n])) + Framed(body[n + 1..])
  }

  /** The body's last line has no newline and is not blank. */
  predicate Unterminated(body: bytes)
    decreases |body|
  {
    match Newline(body)
    case None => !Blank(body)
    case Some(n) => Unterminated(body[n + 1..])
  }

  /** No line is longer than the cap. */
  predicate Capped(cap: nat, body: bytes)
    decreases |body|
  {
    match Newline(body)
    case None => |body| <= cap
    case Some(n) => n <= cap && Capped(cap, body[n + 1..])
  }

  function Shift(k: nat, r: Option<nat>): Option<nat> {
    if r.Some? then Some(k + r.value) else None
  }

  lemma {:induction false} NewlineAppend(a: bytes, b: bytes)
    ensures Newline(a + b) == if Newline(a).Some? then Newline(a) else Shift(|a|, Newline(b))
    decreases |a|
  {
    if a == [] {
      assert a + b == b;
    } else {
      assert (a + b)[1..] == a[1..] + b;
      NewlineAppend(a[1..], b);
    }
  }

  /** A search can resume behind what it has already seen. */
  lemma NewlineResumes(s: bytes, from: nat)
    requires from <= |s| && Newline(s[..from]).None?
    ensures Newline(s) == Shift(from, Newline(s[from..]))
  {
    NewlineAppend(s[..from], s[from..]);
    assert s == s[..from] + s[from..];
  }

  /** `memchr`. */
  method Memchr(s: bytes) returns (r: Option<nat>)
    ensures r == Newline(s)
  {
    assert s[0..] == s;
    for i := 0 to |s|
      invariant Newline(s) == Shift(i, Newline(s[i..]))
    {
      if s[i] == NEWLINE {
        return Some(i);
      }
      assert s[i..][1..] == s[i + 1..];
    }
    r := None;
  }

  /** The lines from an offset on. */
  function Later(body: bytes, start: nat): seq<bytes> {
    if start <= |body| then NonBlank(body[start..]) else []
  }

  /** `non_blank_lines`. */
  method NonBlankLines(body: bytes) returns (lines: seq<bytes>)
    ensures lines == NonBlank(body)
  {
    hide Newline, Blank, NonBlank, Later, Keep;
    lines := [];
    var start := 0;
    LaterAll(body);
    while start <= |body|
      invariant start <= |body| + 1
      invariant NonBlank(body) == lines + Later(body, start)
    {
      var rel := Memchr(body[start..]);
      var end := if rel.Some? then start + rel.value else |body|;
      var line := body[start..end];
      LaterStep(body, start, lines);
      KeepStep(lines, line);
      if !Blank(line) {
        lines := lines + [line];
      }
      start := end + 1;
    }
    NothingLater(body, start);
    assert lines + [] == lines;
  }

  lemma LaterAll(body: bytes)
    ensures [] + Later(body, 0) == NonBlank(body)
  {
    assert body[0..] == body;
  }

  lemma NothingLater(body: bytes, start: nat)
    requires start > |body|
    ensures Later(body, start) == []
  {
  }

  lemma KeepStep(lines: seq<bytes>, line: bytes)
    ensures lines + Keep(line) == if Blank(line) then lines else lines + [line]
  {
    hide Blank;
  }

  lemma LaterStep(body: bytes, start: nat, lines: seq<bytes>)
    requires start <= |body|
    ensures var rel := Newline(body[start..]);
            var end := if rel.Some? then start + rel.value else |body|;
            lines + Later(body, start) == lines + Keep(body[start..end]) + Later(body, end + 1)
  {
    hide Newline, Keep;
    var rel := Newline(body[start..]);
    if rel.Some? {
      var end := start + rel.value;
      assert body[start..][..rel.value] == body[start..end];
      assert body[start..][rel.value + 1..] == body[end + 1..];
      assert lines + (Keep(body[start..end]) + NonBlank(body[end + 1..])) ==
        lines + Keep(body[start..end]) + NonBlank(body[end + 1..]);
    } else {
      assert body[start..|body|] == body[start..];
      assert lines + Keep(body[start..]) + [] == lines + Keep(body[start..]);
    }
  }

  // ---------- what the lines of a body are ----------

  /** Lines put back together, a newline between each two. */
  function Join(lines: seq<bytes>): bytes
    requires lines != []
  {
    if |lines| == 1 then lines[0] else lines[0] + ([0x0A] + Join(lines[1..]))
  }

  /** The lines of a body: no line holds a newline. */
  predicate AreLines(lines: seq<bytes>) {
    lines != [] && forall line | line in lines :: 0x0A !in line
  }

  /** Every byte is a space, a tab, a line feed, a form feed or a carriage return. */
  predicate Space(line: bytes) {
    forall b | b in line :: b in {0x20, 0x09, 0x0A, 0x0C, 0x0D}
  }

  /** The lines that say something, in order. */
  function Written(lines: seq<bytes>): seq<bytes> {
    if lines == [] then []
    else (if Space(lines[0]) then [] else [lines[0]]) + Written(lines[1..])
  }

  lemma SpaceIsBlank(line: bytes)
    ensures Blank(line) <==> Space(line)
  {
  }

  lemma {:induction false} NewlineIs(s: bytes)
    ensures match Newline(s)
            case None => 0x0A !in s
            case Some(n) => s[n] == 0x0A && 0x0A !in s[..n]
    decreases |s|
  {
    if s != [] && s[0] != NEWLINE {
      NewlineIs(s[1..]);
      match Newline(s[1..])
      case None => assert s == [s[0]] + s[1..];
      case Some(n) => assert s[..n + 1] == [s[0]] + s[1..][..n];
    }
  }

  /** Every body has its lines. */
  lemma {:induction false} LinesOf(body: bytes) returns (lines: seq<bytes>)
    ensures AreLines(lines) && Join(lines) == body
    decreases |body|
  {
    NewlineIs(body);
    match Newline(body)
    case None => lines := [body];
    case Some(n) =>
      var rest := LinesOf(body[n + 1..]);
      lines := [body[..n]] + rest;
      assert lines[1..] == rest;
      assert body == body[..n] + ([0x0A] + body[n + 1..]);
  }

  lemma NewlineAfter(line: bytes, rest: bytes)
    requires 0x0A !in line
    ensures Newline(line).None? && Newline(line + ([0x0A] + rest)) == Some(|line|)
    ensures (line + ([0x0A] + rest))[..|line|] == line && (line + ([0x0A] + rest))[|line| + 1..] == rest
  {
    NewlineIs(line);
    NewlineAppend(line, [0x0A] + rest);
  }

  /** All lines but the last lose a carriage return at their end. */
  function Trim(lines: seq<bytes>): (r: seq<bytes>)
    ensures |r| == |lines|
    ensures forall i | 0 <= i < |lines| :: r[i] == if i < |lines| - 1 then TrimCr(lines[i]) else lines[i]
  {
    if |lines| < 2 then lines else [TrimCr(lines[0])] + Trim(lines[1..])
  }

  lemma SplitFirst(line: bytes, rest: bytes)
    requires 0x0A !in line
    ensures var body := line + ([0x0A] + rest);
            && NonBlank(body) == Written([line]) + NonBlank(rest)
            && Framed(body) == Written([TrimCr(line)]) + Framed(rest)
            && Unterminated(body) == Unterminated(rest)
  {
    hide Space, TrimCr, Newline, Blank;
    NewlineAfter(line, rest);
    SpaceIsBlank(line);
    SpaceIsBlank(TrimCr(line));
  }

  lemma SplitLast(line: bytes)
    requires 0x0A !in line
    ensures NonBlank(line) == Framed(line) == Written([line]) && (Unterminated(line) <==> !Space(line))
  {
    hide Space, TrimCr, Blank;
    NewlineIs(line);
    SpaceIsBlank(line);
  }

  lemma TrimLast(line: bytes)
    ensures Trim([line]) == [line]
  {
  }

  lemma TrimFirst(lines: seq<bytes>)
    requires |lines| > 1
    ensures Trim(lines) == [TrimCr(lines[0])] + Trim(lines[1..])
  {
    hide TrimCr;
  }

  lemma WrittenCons(line: bytes, rest: seq<bytes>)
    ensures Written([line] + rest) == Written([line]) + Written(rest)
  {
    hide Space;
    assert ([line] + rest)[1..] == rest && [line][1..] == [];
  }

  /** The splitter finds the lines that say something; the reader frames them, each less
      a carriage return at its end unless it is the last; and the body is unterminated
      exactly when its last line says something. */
  lemma {:induction false} SplitIs(lines: seq<bytes>)
    requires AreLines(lines)
    ensures NonBlank(Join(lines)) == Written(lines)
    ensures Framed(Join(lines)) == Written(Trim(lines))
    ensures Unterminated(Join(lines)) <==> !Space(lines[|lines| - 1])
    decreases |lines|
  {
    hide Space, TrimCr, NonBlank, Framed, Unterminated, Written, Trim;
    assert lines[0] in lines;
    if |lines| == 1 {
      SplitLast(lines[0]);
      TrimLast(lines[0]);
      assert lines == [lines[0]];
    } else {
      var rest := lines[1..];
      assert forall line | line in rest :: line in lines;
      SplitIs(rest);
      SplitFirst(lines[0], Join(rest));
      TrimFirst(lines);
      WrittenCons(lines[0], rest);
      WrittenCons(TrimCr(lines[0]), Trim(rest));
      assert lines == [lines[0]] + rest;
    }
  }

  // ---------- the two splitters ----------

  lemma NothingIsBlank()
    ensures Blank([])
  {
  }

  lemma TrimmedBlank(line: bytes)
    ensures Blank(TrimCr(line)) == Blank(line)
  {
    if line != [] && line[|line| - 1] == CARRIAGE_RETURN {
      assert line == line[..|line| - 1] + [CARRIAGE_RETURN];
    }
  }

  lemma TrimmedConcat(x: seq<bytes>, y: seq<bytes>, a: seq<bytes>, b: seq<bytes>, open: bool)
    requires |x| == |y| && |a| == |b| && (open ==> a != [])
    requires forall i | 0 <= i < |x| :: x[i] == TrimCr(y[i])
    requires forall i | 0 <= i < |a| :: a[i] == if open && i == |a| - 1 then b[i] else TrimCr(b[i])
    ensures forall i | 0 <= i < |x + a| ::
              (x + a)[i] == if open && i == |x + a| - 1 then (y + b)[i] else TrimCr((y + b)[i])
  {
    hide TrimCr;
    forall i | |x| <= i < |x + a|
      ensures (x + a)[i] == a[i - |x|] && (y + b)[i] == b[i - |x|]
    {
    }
  }

  /** The reader frames the splitter's lines, each less one carriage return at its end,
      except a last line that no newline ends. */
  lemma {:induction false} FramedIsTrimmed(body: bytes)
    ensures |Framed(body)| == |NonBlank(body)|
    ensures Unterminated(body) ==> |Framed(body)| > 0
    ensures forall i | 0 <= i < |Framed(body)| ::
              Framed(body)[i] ==
              if Unterminated(body) && i == |Framed(body)| - 1 then NonBlank(body)[i] else TrimCr(NonBlank(body)[i])
    decreases |body|
  {
    hide Blank, TrimCr;
    var n := Newline(body);
    if n.Some? {
      TrimmedBlank(body[..n.value]);
      FramedIsTrimmed(body[n.value + 1..]);
      var a, b := Framed(body[n.value + 1..]), NonBlank(body[n.value + 1..]);
      var x, y := Keep(TrimCr(body[..n.value])), Keep(body[..n.value]);
      TrimmedConcat(x, y, a, b, Unterminated(body));
    } else if Blank(body) {
      assert Framed(body) == [];
    }
  }

  /** They agree outright exactly when no line that a newline ends has a carriage return
      before it. */
  lemma FramedIsNonBlankIff(body: bytes)
    ensures Framed(body) == NonBlank(body) <==>
            forall i | 0 <= i < |NonBlank(body)| && !(Unterminated(body) && i == |NonBlank(body)| - 1) ::
              TrimCr(NonBlank(body)[i]) == NonBlank(body)[i]
  {
    FramedIsTrimmed(body);
  }

  // ---------- the stream ----------

  datatype Frame = Data(data: bytes) | Trailers | Broken

  /** `Fault` is the out-of-range slice a call panics with. */
  datatype LineResult = Line(line: bytes) | End | TooLarge | StreamFailed | Fault

  /** What is left of the stream; `spent` once the search offset lies past the buffer. */
  datatype Stream = Stream(frames: seq<Frame>, buf: bytes, done: bool, spent: bool)

  function Content(frames: seq<Frame>): bytes {
    if frames == [] then []
    else (if frames[0].Data? then frames[0].data else []) + Content(frames[1..])
  }

  predicate Sound(frames: seq<Frame>) {
    forall f | f in frames :: !f.Broken?
  }

  /** One call of `next_line`. */
  function NextLine(cap: nat, s: Stream): (LineResult, Stream)
    decreases |s.frames|, !s.done, |s.buf|
  {
    if s.spent then (Fault, s)
    else
      match Newline(s.buf)
      case Some(n) =>
        var line, t := TrimCr(s.buf[..n]), s.(buf := s.buf[n + 1..]);
        if Blank(line) then NextLine(cap, t) else (Line(line), t)
      case None =>
        if s.done then
          if Blank(s.buf) then (End, s) else (Line(s.buf), s.(buf := [], spent := true))
        else if |s.buf| > cap then (TooLarge, s)
        else if s.frames == [] then NextLine(cap, s.(done := true))
        else
          var t := s.(frames := s.frames[1..]);
          match s.frames[0]
          case Data(data) => NextLine(cap, t.(buf := s.buf + data))
          case Trailers => NextLine(cap, t)
          case Broken => (StreamFailed, t)
  }

  class Reader {
    const cap: nat
    var frames: seq<Frame>
    var buf: bytes
    var scan: nat
    var done: bool

    constructor (cap: nat, frames: seq<Frame>)
      ensures Resumable() && Model() == Stream(frames, [], false, false) && this.cap == cap
    {
      this.cap := cap;
      this.frames := frames;
      buf := [];
      scan := 0;
      done := false;
    }

    /** The bytes already searched hold no newline. */
    ghost predicate Resumable()
      reads this
    {
      scan <= |buf| ==> Newline(buf[..scan]).None?
    }

    ghost function Model(): Stream
      reads this
    {
      Stream(frames, buf, done, scan > |buf|)
    }

    /** Splits off the line that ends at offset `nl`. */
    method TakeLine(nl: nat) returns (line: bytes)
      requires nl < |buf|
      modifies this`buf, this`scan
      ensures line == TrimCr(old(buf)[..nl]) && buf == old(buf)[nl + 1..] && scan == 0
    {
      line := buf[..nl];
      buf := buf[nl + 1..];
      scan := 0;
      if line != [] && line[|line| - 1] == CARRIAGE_RETURN {
        line := line[..|line| - 1];
      }
    }

    /** The next line that is not blank. The search resumes where it stopped. */
    method Next() returns (r: LineResult)
      requires Resumable()
      modifies this
      ensures Resumable() && (r, Model()) == NextLine(cap, old(Model()))
    {
      hide Newline, Blank, TrimCr;
      NothingIsBlank();
      ghost var start := Model();
      if scan > |buf| {
        return Fault;
      }
      while true
        invariant Resumable() && scan <= |buf|
        invariant NextLine(cap, Model()) == NextLine(cap, start)
        decreases |frames|, !done, |buf|
      {
        var rel := Memchr(buf[scan..]);
        NewlineResumes(buf, scan);
        if rel.Some? {
          var line := TakeLine(scan + rel.value);
          if Blank(line) {
            continue;
          }
          return Line(line);
        }
        scan := |buf|;
        assert buf[..scan] == buf;
        if done {
          if Blank(buf) {
            return End;
          }
          var line := buf;
          buf := [];
          return Line(line);
        }
        if |buf| > cap {
          return TooLarge;
        }
        if frames == [] {
          done := true;
        } else {
          var frame := frames[0];
          frames := frames[1..];
          match frame
          case Data(data) =>
            buf := buf + data;
            assert buf[..scan] == buf[..|buf| - |data|];
          case Trailers =>
          case Broken => return StreamFailed;
        }
      }
    }
  }

  // ---------- however the body is cut ----------

  /** All that is left to read. */
  function Rest(s: Stream): bytes {
    s.buf + Content(s.frames)
  }

  /** A line takes something off what is left. */
  lemma {:induction false} LineShrinks(cap: nat, s: Stream)
    ensures var (r, t) := NextLine(cap, s); r.Line? ==> r.line != [] && |Rest(t)| < |Rest(s)|
    decreases |s.frames|, !s.done, |s.buf|
  {
    hide Newline, TrimCr, Blank;
    NothingIsBlank();
    if !s.spent {
      match Newline(s.buf)
      case Some(n) => LineShrinks(cap, s.(buf := s.buf[n + 1..]));
      case None =>
        if !s.done && |s.buf| <= cap {
          if s.frames == [] {
            LineShrinks(cap, s.(done := true));
          } else {
            LineShrinks(cap, Pulled(s));
            assert |Rest(Pulled(s))| == |Rest(s)|;
          }
        }
    }
  }

  /** A line that has not ended is refused as soon as more of it than the cap has been
      read; a stream that breaks before that, or before the line ends, has failed. */
  lemma {:induction false} UnendedLine(cap: nat, s: Stream, k: nat)
    requires !s.spent && !s.done && k <= |s.frames| && Newline(s.buf + Content(s.frames[..k])).None?
    requires forall i | 0 <= i < k :: |s.buf + Content(s.frames[..i])| <= cap && !s.frames[i].Broken?
    ensures |s.buf + Content(s.frames[..k])| > cap ==> NextLine(cap, s).0 == TooLarge
    ensures |s.buf + Content(s.frames[..k])| <= cap && k < |s.frames| && s.frames[k].Broken? ==>
              NextLine(cap, s).0 == StreamFailed
    decreases k
  {
    hide Newline, TrimCr, Blank;
    NewlineAppend(s.buf, Content(s.frames[..k]));
    assert s.buf + [] == s.buf && s.frames[..0] == [];
    if k > 0 {
      var t := Pulled(s);
      assert |s.buf + Content(s.frames[..0])| <= cap;
      PulledContent(s, k);
      forall i | 0 <= i < k - 1
        ensures |t.buf + Content(t.frames[..i])| <= cap && !t.frames[i].Broken?
      {
        PulledContent(s, i + 1);
        assert t.frames[i] == s.frames[i + 1];
      }
      UnendedLine(cap, t, k - 1);
    }
  }

  lemma PulledContent(s: Stream, i: nat)
    requires 0 < i <= |s.frames|
    ensures Pulled(s).buf + Content(Pulled(s).frames[..i - 1]) == s.buf + Content(s.frames[..i])
  {
    assert s.frames[..i][0] == s.frames[0] && s.frames[..i][1..] == s.frames[1..][..i - 1];
    assert [] + Content(s.frames[1..][..i - 1]) == Content(s.frames[1..][..i - 1]);
  }

  /** A stream that will not fail, with every line under the cap. */
  predicate Readable(cap: nat, s: Stream) {
    !s.spent && Sound(s.frames) && Capped(cap, Rest(s)) && (s.done ==> s.frames == [])
  }

  lemma CappedHead(cap: nat, a: bytes, b: bytes)
    requires Capped(cap, a + b) && Newline(a).None?
    ensures |a| <= cap
  {
    NewlineAppend(a, b);
  }

  /** One call takes one line off what is left, and leaves the rest of the lines. */
  lemma {:induction false} NextLineFrames(cap: nat, s: Stream)
    requires Readable(cap, s)
    ensures var (r, t) := NextLine(cap, s);
            var lines := Framed(Rest(s));
            if lines == [] then r == End && !t.spent && Rest(t) == t.buf && Blank(t.buf)
            else
              r == Line(lines[0])
              && (t.spent <==> |lines| == 1 && Unterminated(Rest(s)))
              && (!t.spent ==>
                    && Readable(cap, t) && Framed(Rest(t)) == lines[1..]
                    && Unterminated(Rest(t)) == Unterminated(Rest(s)))
    decreases |s.frames|, !s.done, |s.buf|
  {
    hide Blank, Newline, TrimCr, Framed, Unterminated, Capped;
    match Newline(s.buf)
    case Some(n) =>
      var t := s.(buf := s.buf[n + 1..]);
      TakeFirst(cap, s, n);
      if Blank(TrimCr(s.buf[..n])) {
        NextLineFrames(cap, t);
      }
    case None =>
      if s.done {
        assert Rest(s) == s.buf;
        OnlyLine(s.buf);
      } else {
        CappedHead(cap, s.buf, Content(s.frames));
        if s.frames == [] {
          NextLineFrames(cap, s.(done := true));
        } else {
          PullFrame(cap, s);
          NextLineFrames(cap, Pulled(s));
        }
      }
  }

  /** The stream after its next frame has been read. */
  function Pulled(s: Stream): Stream
    requires s.frames != []
  {
    var t := s.(frames := s.frames[1..]);
    if s.frames[0].Data? then t.(buf := s.buf + s.frames[0].data) else t
  }

  lemma PullFrame(cap: nat, s: Stream)
    requires Readable(cap, s) && !s.done && s.frames != []
    ensures Readable(cap, Pulled(s)) && Rest(Pulled(s)) == Rest(s) && !s.frames[0].Broken?
  {
    hide Capped;
    assert s.frames[0] in s.frames;
    assert forall f | f in s.frames[1..] :: f in s.frames;
    assert [] + Content(s.frames[1..]) == Content(s.frames[1..]);
    assert Rest(Pulled(s)) == Rest(s);
  }

  lemma TakeFirst(cap: nat, s: Stream, n: nat)
    requires Readable(cap, s) && Newline(s.buf) == Some(n)
    ensures var t := s.(buf := s.buf[n + 1..]); var line := TrimCr(s.buf[..n]);
            && Readable(cap, t)
            && Unterminated(Rest(s)) == Unterminated(Rest(t))
            && (Blank(line) ==> Framed(Rest(s)) == Framed(Rest(t)))
            && (!Blank(line) ==> Framed(Rest(s)) == [line] + Framed(Rest(t)) && Framed(Rest(s))[1..] == Framed(Rest(t)))
            && (Unterminated(Rest(t)) ==> Framed(Rest(t)) != [])
  {
    hide Blank, TrimCr;
    var t := s.(buf := s.buf[n + 1..]);
    NewlineAppend(s.buf, Content(s.frames));
    assert Rest(s)[..n] == s.buf[..n];
    assert Rest(s)[n + 1..] == Rest(t);
    LastFramed(Rest(t));
    assert [] + Framed(Rest(t)) == Framed(Rest(t));
  }

  lemma OnlyLine(body: bytes)
    requires Newline(body).None?
    ensures Framed(body) == Keep(body) && Unterminated(body) == !Blank(body)
  {
    hide Blank;
  }

  lemma LastFramed(body: bytes)
    ensures Unterminated(body) ==> Framed(body) != []
  {
    FramedIsTrimmed(body);
  }
}
