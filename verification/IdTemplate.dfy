/**
  Document id templates: literal text around `{partition}` and `{body.<path>}`
  placeholders. One walker builds the physical id of a document on write; another
  renders the frame around the natural key for by-id reads. Both are measured
  against the parts a template is made of.
*/
module IdTemplate {
  import opened Bytes

  datatype Error =
    | UnsupportedPlaceholder(placeholder: bytes)
    | IrreversibleIdTemplate
    | PathNotScalar(path: bytes)

  const PARTITION: bytes := [0x70, 0x61, 0x72, 0x74, 0x69, 0x74, 0x69, 0x6F, 0x6E]
  const BODY_DOT: bytes := [0x62, 0x6F, 0x64, 0x79, 0x2E]

  /** The offset of the first `b` in `s`. */
  function Find(s: bytes, b: byte): (r: Option<nat>)
    ensures r.Some? ==> r.value < |s| && s[r.value] == b && b !in s[..r.value]
    ensures r.None? ==> b !in s
  {
    if s == [] then None
    else if s[0] == b then Some(0)
    else
      var n :- Find(s[1..], b);
      assert s[..n + 1] == [s[0]] + s[1..][..n];
      Some(n + 1)
  }

  // ---------- what a template means ----------

  datatype Part = Text(s: bytes) | Partition | Body(path: bytes)

  predicate WfPart(p: Part) {
    match p
    case Text(s) => LBRACE !in s
    case Partition => true
    case Body(path) => RBRACE !in path
  }

  predicate WfParts(parts: seq<Part>) {
    forall p | p in parts :: WfPart(p)
  }

  function PlaceholderText(p: Part): bytes
    requires !p.Text?
  {
    if p.Partition? then PARTITION else BODY_DOT + p.path
  }

  /** The template written out. */
  function Render(parts: seq<Part>): bytes {
    if parts == [] then []
    else (match parts[0]
          case Text(s) => s
          case _ => [LBRACE] + (PlaceholderText(parts[0]) + [RBRACE])) + Render(parts[1..])
  }

  /** The id of a document: each placeholder replaced in turn. */
  function Expand(parts: seq<Part>, partition: bytes, resolve: bytes -> Result<bytes, Error>): Result<bytes, Error> {
    if parts == [] then Ok([])
    else
      var here :- (match parts[0]
                   case Text(s) => Ok(s)
                   case Partition => Ok(partition)
                   case Body(path) => resolve(path));
      var rest :- Expand(parts[1..], partition, resolve);
      Ok(here + rest)
  }

  function Bodies(parts: seq<Part>): nat {
    if parts == [] then 0 else (if parts[0].Body? then 1 else 0) + Bodies(parts[1..])
  }

  /** A part that holds no natural key, expanded. */
  function Fixed(parts: seq<Part>, partition: bytes): bytes {
    if parts == [] then []
    else (match parts[0]
          case Text(s) => s
          case Partition => partition
          case Body(_) => []) + Fixed(parts[1..], partition)
  }

  // ---------- what the two walkers compute ----------

  /** A template split at its first placeholder. */
  datatype Split = NoPlaceholder | Unclosed(after: bytes) | Split(literal: bytes, placeholder: bytes, rest: bytes)

  function SplitOff(t: bytes): (r: Split)
    ensures r.Split? ==> |r.rest| < |t|
  {
    match Find(t, LBRACE)
    case None => NoPlaceholder
    case Some(open) =>
      var after := t[open + 1..];
      match Find(after, RBRACE)
      case None => Unclosed(after)
      case Some(close) => Split(t[..open], after[..close], after[close + 1..])
  }

  function Placeholder(placeholder: bytes, partition: bytes,
                       resolve: bytes -> Result<bytes, Error>): Result<bytes, Error> {
    if placeholder == PARTITION then Ok(partition)
    else if BODY_DOT <= placeholder then resolve(placeholder[|BODY_DOT|..])
    else Err(UnsupportedPlaceholder(placeholder))
  }

  function ConstructId(t: bytes, partition: bytes, resolve: bytes -> Result<bytes, Error>): Result<bytes, Error>
    decreases |t|
  {
    match SplitOff(t)
    case NoPlaceholder => Ok(t)
    case Unclosed(after) => Err(UnsupportedPlaceholder(after))
    case Split(literal, placeholder, rest) =>
      var here :- Placeholder(placeholder, partition, resolve);
      var r :- ConstructId(rest, partition, resolve);
      Ok((literal + here) + r)
  }

  datatype Frame = Frame(prefix: bytes, suffix: bytes)

  /** The frame of the rest of a template; once the body placeholder has been seen
      everything belongs to the suffix. */
  function FrameFrom(t: bytes, partition: bytes, seen: bool): Result<Frame, Error>
    decreases |t|
  {
    match SplitOff(t)
    case NoPlaceholder => if seen then Ok(Frame([], t)) else Err(IrreversibleIdTemplate)
    case Unclosed(after) => Err(UnsupportedPlaceholder(after))
    case Split(literal, placeholder, rest) =>
      if placeholder == PARTITION then
        var r :- FrameFrom(rest, partition, seen);
        Ok(Onto(literal + partition, r, seen))
      else if BODY_DOT <= placeholder then
        if seen then Err(IrreversibleIdTemplate)
        else
          var r :- FrameFrom(rest, partition, true);
          Ok(Frame(literal, r.suffix))
      else Err(UnsupportedPlaceholder(placeholder))
  }

  function Onto(s: bytes, r: Frame, seen: bool): Frame {
    if seen then Frame([], s + r.suffix) else Frame(s + r.prefix, r.suffix)
  }

  function IdFrame(t: bytes, partition: bytes): Result<Frame, Error> {
    FrameFrom(t, partition, false)
  }

  function MapLogicalToPhysical(t: bytes, partition: bytes, logical: bytes): Result<bytes, Error> {
    var f :- IdFrame(t, partition);
    Ok(f.prefix + logical + f.suffix)
  }

  /** The text between `prefix` and `suffix`, if `s` has that form. */
  function Strip(f: Frame, s: bytes): Option<bytes> {
    if f.prefix <= s then
      var rest := s[|f.prefix|..];
      if |f.suffix| <= |rest| && rest[|rest| - |f.suffix|..] == f.suffix
      then Some(rest[..|rest| - |f.suffix|]) else None
    else None
  }

  function MapPhysicalToLogical(t: bytes, partition: bytes, physical: bytes): Result<Option<bytes>, Error> {
    var f :- IdFrame(t, partition);
    Ok(Strip(f, physical))
  }

  // ---------- the walkers as they run ----------

  method ConstructIdWith(t: bytes, partition: bytes, resolve: bytes -> Result<bytes, Error>)
    returns (r: Result<bytes, Error>)
    ensures r == ConstructId(t, partition, resolve)
  {
    hide SplitOff;
    var out := [];
    var rest := t;
    PrefixedTwice([], [], ConstructId(t, partition, resolve));
    while true
      invariant ConstructId(t, partition, resolve) == Prefixed(out, ConstructId(rest, partition, resolve))
      decreases |rest|
    {
      match SplitOff(rest)
      case NoPlaceholder => return Ok(out + rest);
      case Unclosed(after) => return Err(UnsupportedPlaceholder(after));
      case Split(literal, placeholder, tail) =>
        var here: bytes;
        if placeholder == PARTITION {
          here := partition;
        } else if BODY_DOT <= placeholder {
          var resolved := resolve(placeholder[|BODY_DOT|..]);
          if resolved.Err? {
            return Err(resolved.error);
          }
          here := resolved.value;
        } else {
          return Err(UnsupportedPlaceholder(placeholder));
        }
        PrefixedTwice(out, literal + here, ConstructId(tail, partition, resolve));
        out := out + (literal + here);
        rest := tail;
    }
  }

  function Prefixed(s: bytes, r: Result<bytes, Error>): Result<bytes, Error> {
    match r
    case Ok(x) => Ok(s + x)
    case Err(e) => Err(e)
  }

  lemma PrefixedTwice(a: bytes, b: bytes, r: Result<bytes, Error>)
    ensures Prefixed(a, Prefixed(b, r)) == Prefixed(a + b, r)
    ensures Prefixed([], r) == r
  {
    if r.Ok? {
      assert a + (b + r.value) == (a + b) + r.value;
      assert [] + r.value == r.value;
    }
  }

  method ComputeIdFrame(t: bytes, partition: bytes) returns (r: Result<Frame, Error>)
    ensures r == IdFrame(t, partition)
  {
    hide SplitOff, Framed, Onto;
    var prefix, suffix, seenBody, rest := [], [], false, t;
    FramedStart(IdFrame(t, partition));
    while true
      invariant !seenBody ==> suffix == []
      invariant IdFrame(t, partition) == Framed(prefix, suffix, seenBody, FrameFrom(rest, partition, seenBody))
      decreases |rest|
    {
      FramedEnds(prefix, suffix, seenBody, FrameFrom(rest, partition, seenBody));
      match SplitOff(rest)
      case NoPlaceholder =>
        if !seenBody {
          return Err(IrreversibleIdTemplate);
        }
        suffix := suffix + rest;
        return Ok(Frame(prefix, suffix));
      case Unclosed(after) => return Err(UnsupportedPlaceholder(after));
      case Split(literal, placeholder, tail) =>
        if placeholder == PARTITION {
          FramedOnto(prefix, suffix, seenBody, literal + partition, FrameFrom(tail, partition, seenBody));
          if seenBody {
            suffix := suffix + (literal + partition);
          } else {
            prefix := prefix + (literal + partition);
          }
        } else if BODY_DOT <= placeholder {
          if seenBody {
            return Err(IrreversibleIdTemplate);
          }
          FramedBody(prefix, literal, FrameFrom(tail, partition, true));
          prefix := prefix + literal;
          seenBody := true;
        } else {
          return Err(UnsupportedPlaceholder(placeholder));
        }
        rest := tail;
    }
  }

  /** `r` with what the loop has collected so far in front of it. */
  function Framed(prefix: bytes, suffix: bytes, seen: bool, r: Result<Frame, Error>): Result<Frame, Error> {
    match r
    case Err(e) => Err(e)
    case Ok(f) => if seen then Ok(Frame(prefix, suffix + f.suffix)) else Ok(Frame(prefix + f.prefix, f.suffix))
  }

  lemma FramedStart(r: Result<Frame, Error>)
    ensures Framed([], [], false, r) == r
  {
    if r.Ok? {
      assert [] + r.value.prefix == r.value.prefix;
    }
  }

  lemma FramedEnds(prefix: bytes, suffix: bytes, seen: bool, r: Result<Frame, Error>)
    ensures r.Err? ==> Framed(prefix, suffix, seen, r) == r
    ensures r.Ok? && seen ==> Framed(prefix, suffix, seen, r) == Ok(Frame(prefix, suffix + r.value.suffix))
  {
  }

  lemma FramedOnto(prefix: bytes, suffix: bytes, seen: bool, s: bytes, r: Result<Frame, Error>)
    ensures r.Ok? ==> (Framed(prefix, suffix, seen, Ok(Onto(s, r.value, seen))) ==
                       if seen then Framed(prefix, suffix + s, seen, r) else Framed(prefix + s, suffix, seen, r))
    ensures r.Err? ==> Framed(prefix, suffix + s, seen, r) == r && Framed(prefix + s, suffix, seen, r) == r
  {
    if r.Ok? {
      assert suffix + (s + r.value.suffix) == (suffix + s) + r.value.suffix;
      assert prefix + (s + r.value.prefix) == (prefix + s) + r.value.prefix;
    }
  }

  lemma FramedBody(prefix: bytes, literal: bytes, r: Result<Frame, Error>)
    ensures r.Ok? ==>
              Framed(prefix, [], false, Ok(Frame(literal, r.value.suffix))) == Framed(prefix + literal, [], true, r)
    ensures r.Err? ==> Framed(prefix + literal, [], true, r) == r
  {
    if r.Ok? {
      assert [] + r.value.suffix == r.value.suffix;
    }
  }
}
