/**
  The scanner as it runs: fields updated in place, one handler per phase. Every
  handler is proved to do to the fields exactly what `SearchScan.Dispatch` says,
  `Step` to terminate, and `Feed`'s bulk copy to agree with the per-byte loop.
*/
module SearchScanner {
  import opened Bytes
  import opened JsonNest
  import opened SearchScan

  class SearchHitsScanner {
    /** The per-hit transform, on complete framed elements. */
    const transform: bytes -> bytes
    var phase: Phase
    var level: nat
    var keyIsHits: bool
    var keyBuf: bytes
    var keyEsc: bool
    var skip: Skip
    var elem: Elem
    var out: bytes

    function State(): State
      reads this
    {
      SearchScan.State.State(phase, level, keyIsHits, keyBuf, keyEsc, skip, elem, out)
    }

    constructor (transform: bytes -> bytes)
      ensures this.transform == transform && State() == START
    {
      this.transform := transform;
      phase, level, keyIsHits, keyBuf, keyEsc := SeekRoot, 0, false, [], false;
      skip, elem, out := FRESH_SKIP, FRESH_ELEM, [];
    }

    /** Feeds one chunk; returns the bytes ready to emit. */
    method Feed(chunk: bytes) returns (emitted: bytes)
      modifies this
      ensures var t := Run(transform, old(State()), chunk); emitted == t.out && State() == Drained(t)
    {
      var i := 0;
      while i < |chunk|
        invariant i <= |chunk|
        invariant Run(transform, State(), chunk[i..]) == Run(transform, old(State()), chunk)
      {
        if phase == Passthrough {
          RunPassthrough(transform, State(), chunk[i..]);
          out := out + chunk[i..];
          break;
        }
        assert chunk[i..][1..] == chunk[i + 1..];
        Step(chunk[i]);
        i := i + 1;
      }
      emitted := out;
      out := [];
    }

    /** Flushes at end of stream; a pending element is dropped, never emitted. */
    method Finish() returns (emitted: bytes)
      modifies this
      ensures emitted == old(out) && State() == Drained(old(State()))
    {
      emitted := out;
      out := [];
    }

    /** Processes one byte, dispatching it again while the phase asks for it. */
    method Step(b: byte)
      modifies this
      ensures State() == SearchScan.Step(transform, old(State()), b)
    {
      var redo := true;
      while redo
        invariant SearchScan.Step(transform, old(State()), b) ==
                  if redo then SearchScan.Step(transform, State(), b) else State()
        decreases redo, Rank(phase)
      {
        match phase
        case SeekRoot => redo := AtSeekRoot(b);
        case ObjExpectKey => redo := AtObjExpectKey(b);
        case ObjReadKey => redo := AtObjReadKey(b);
        case ObjExpectColon => redo := AtObjExpectColon(b);
        case ObjExpectValue => redo := AtObjExpectValue(b);
        case SkipValue => redo := AtSkipValue(b);
        case ObjExpectComma => redo := AtObjExpectComma(b);
        case ArrExpectElem => redo := AtArrExpectElem(b);
        case ArrReadElem => redo := ReadElem(b);
        case ArrExpectComma => redo := AtArrExpectComma(b);
        case Passthrough =>
          out := out + [b];
          redo := false;
      }
    }

    method AtSeekRoot(b: byte) returns (redo: bool)
      requires phase == SeekRoot
      modifies this
      ensures Dispatch(transform, old(State()), b) == if redo then Redo(State()) else Consume(State())
    {
      out := out + [b];
      if b == LBRACE {
        level := 1;
        phase := ObjExpectKey;
      } else if !IsWs(b) {
        phase := Passthrough;
      }
      return false;
    }

    method AtObjExpectKey(b: byte) returns (redo: bool)
      requires phase == ObjExpectKey
      modifies this
      ensures Dispatch(transform, old(State()), b) == if redo then Redo(State()) else Consume(State())
    {
      out := out + [b];
      if b == QUOTE {
        keyBuf := [];
        keyEsc := false;
        phase := ObjReadKey;
      } else if !IsWs(b) {
        phase := Passthrough;
      }
      return false;
    }

    method AtObjReadKey(b: byte) returns (redo: bool)
      requires phase == ObjReadKey
      modifies this
      ensures Dispatch(transform, old(State()), b) == if redo then Redo(State()) else Consume(State())
    {
      out := out + [b];
      if keyEsc {
        keyEsc := false;
        keyBuf := keyBuf + [b];
      } else if b == BACKSLASH {
        keyEsc := true;
        keyBuf := keyBuf + [b];
      } else if b == QUOTE {
        keyIsHits := DecodedKeyIsHits(keyBuf);
        phase := ObjExpectColon;
      } else {
        keyBuf := keyBuf + [b];
      }
      return false;
    }

    method AtObjExpectColon(b: byte) returns (redo: bool)
      requires phase == ObjExpectColon
      modifies this
      ensures Dispatch(transform, old(State()), b) == if redo then Redo(State()) else Consume(State())
    {
      out := out + [b];
      if b == COLON {
        phase := ObjExpectValue;
      } else if !IsWs(b) {
        phase := Passthrough;
      }
      return false;
    }

    method AtObjExpectValue(b: byte) returns (redo: bool)
      requires phase == ObjExpectValue
      modifies this
      ensures Dispatch(transform, old(State()), b) == if redo then Redo(State()) else Consume(State())
    {
      out := out + [b];
      if IsWs(b) {
        return false;
      }
      if keyIsHits {
        if level == 1 && b == LBRACE {
          level := 2;
          phase := ObjExpectKey;
        } else if level == 2 && b == LBRACKET {
          phase := ArrExpectElem;
        } else {
          phase := Passthrough;
        }
      } else {
        skip := SkipBegin(b);
        phase := SkipValue;
      }
      return false;
    }

    method AtSkipValue(b: byte) returns (redo: bool)
      requires phase == SkipValue
      modifies this
      ensures Dispatch(transform, old(State()), b) == if redo then Redo(State()) else Consume(State())
    {
      if skip.inStr {
        out := out + [b];
        if skip.esc {
          skip := skip.(esc := false);
        } else if b == BACKSLASH {
          skip := skip.(esc := true);
        } else if b == QUOTE {
          skip := skip.(inStr := false);
          if skip.depth == 0 {
            phase := ObjExpectComma;
          }
        }
        return false;
      }
      if skip.depth > 0 {
        out := out + [b];
        if b == QUOTE {
          skip := skip.(inStr := true);
        } else if Opens(b) {
          skip := skip.(depth := skip.depth + 1);
        } else if Closes(b) {
          skip := skip.(depth := skip.depth - 1);
          if skip.depth == 0 {
            phase := ObjExpectComma;
          }
        }
        return false;
      }
      // Outside brackets and strings the value stops in front of the delimiter.
      if IsWs(b) || b == COMMA || b == RBRACE {
        phase := ObjExpectComma;
        return true;
      }
      out := out + [b];
      return false;
    }

    method AtObjExpectComma(b: byte) returns (redo: bool)
      requires phase == ObjExpectComma
      modifies this
      ensures Dispatch(transform, old(State()), b) == if redo then Redo(State()) else Consume(State())
    {
      out := out + [b];
      if b == COMMA {
        phase := ObjExpectKey;
      } else if !IsWs(b) {
        phase := Passthrough;
      }
      return false;
    }

    method AtArrExpectElem(b: byte) returns (redo: bool)
      requires phase == ArrExpectElem
      modifies this
      ensures Dispatch(transform, old(State()), b) == if redo then Redo(State()) else Consume(State())
    {
      if IsWs(b) {
        out := out + [b];
        return false;
      }
      if b == RBRACKET {
        out := out + [b];
        phase := Passthrough;
        return false;
      }
      elem := FRESH_ELEM;
      phase := ArrReadElem;
      return true;
    }

    /** One byte of an element: collected, or the end of it. */
    method ReadElem(b: byte) returns (redo: bool)
      requires phase == ArrReadElem
      modifies this
      ensures Dispatch(transform, old(State()), b) == if redo then Redo(State()) else Consume(State())
    {
      match elem.kind
      case Unknown =>
        elem := elem.(buf := elem.buf + [b]);
        if b == QUOTE {
          elem := elem.(inStr := true, kind := StrKind);
        } else if Opens(b) {
          elem := elem.(depth := 1, kind := StructKind);
        } else {
          elem := elem.(kind := ScalarKind);
        }
        return false;
      case StrKind =>
        elem := elem.(buf := elem.buf + [b]);
        if elem.esc {
          elem := elem.(esc := false);
        } else if b == BACKSLASH {
          elem := elem.(esc := true);
        } else if b == QUOTE {
          FinishElem();
        }
        return false;
      case StructKind =>
        elem := elem.(buf := elem.buf + [b]);
        ReadStructElemByte(b);
        return false;
      case ScalarKind =>
        if IsWs(b) || b == COMMA || b == RBRACKET {
          FinishElem();
          return true;
        }
        elem := elem.(buf := elem.buf + [b]);
        return false;
    }

    /** Advances the structural cursor for a byte already in the buffer. */
    method ReadStructElemByte(b: byte)
      requires phase == ArrReadElem && elem.kind == StructKind && |elem.buf| > 0 && elem.buf[|elem.buf| - 1] == b
      modifies this
      ensures var e := old(elem);
              SearchScan.ReadElem(transform, old(State()).(elem := e.(buf := e.buf[..|e.buf| - 1])), b) ==
                Consume(State())
    {
      assert elem.buf[..|elem.buf| - 1] + [b] == elem.buf;
      if elem.inStr {
        if elem.esc {
          elem := elem.(esc := false);
        } else if b == BACKSLASH {
          elem := elem.(esc := true);
        } else if b == QUOTE {
          elem := elem.(inStr := false);
        }
        return;
      }
      if b == QUOTE {
        elem := elem.(inStr := true);
      } else if Opens(b) {
        elem := elem.(depth := elem.depth + 1);
      } else if Closes(b) && elem.depth > 0 {
        elem := elem.(depth := elem.depth - 1);
        if elem.depth == 0 {
          FinishElem();
        }
      }
    }

    method AtArrExpectComma(b: byte) returns (redo: bool)
      requires phase == ArrExpectComma
      modifies this
      ensures Dispatch(transform, old(State()), b) == if redo then Redo(State()) else Consume(State())
    {
      out := out + [b];
      if b == COMMA {
        phase := ArrExpectElem;
      } else if !IsWs(b) {
        phase := Passthrough;
      }
      return false;
    }

    /** Transforms the framed element, emits it, and leaves the buffer empty. */
    method FinishElem()
      modifies this
      ensures State() == SearchScan.Finish(transform, old(State()))
    {
      out := out + transform(elem.buf);
      elem := elem.(buf := []);
      phase := ArrExpectComma;
    }
  }

  /** Streams a whole response through a fresh scanner, chunk by chunk. */
  method StreamAll(transform: bytes -> bytes, chunks: seq<bytes>) returns (emitted: bytes)
    ensures emitted == Run(transform, START, Concat(chunks)).out
  {
    var scanner := new SearchHitsScanner(transform);
    emitted := [];
    for i := 0 to |chunks|
      invariant scanner.transform == transform && scanner.out == []
      invariant emitted + FeedAll(transform, scanner.State(), chunks[i..]) == FeedAll(transform, START, chunks)
    {
      assert chunks[i..][1..] == chunks[i + 1..];
      ghost var t := Run(transform, scanner.State(), chunks[i]);
      var part := scanner.Feed(chunks[i]);
      assert (emitted + part) + FeedAll(transform, Drained(t), chunks[i + 1..]) ==
             emitted + (part + FeedAll(transform, Drained(t), chunks[i + 1..]));
      emitted := emitted + part;
    }
    var last := scanner.Finish();
    emitted := emitted + last;
    ChunkIndependence(transform, START, chunks);
  }
}
