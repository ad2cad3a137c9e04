/**
  Write-then-read addressing: what the two template walkers have in common, when a
  template can be read back, and that the id a write echoes addresses the same
  document, with the same routing, in a later by-id request.
*/
module Addressing {
  import opened Bytes
  import opened IdTemplate

  // ---------- both walkers against the template's parts ----------

  lemma {:induction false} FindOver(s: bytes, b: byte, k: bytes)
    requires b !in s
    ensures Find(s + [b] + k, b) == Some(|s|)
    ensures Find(s, b) == None
  {
    if s != [] {
      assert (s + [b] + k)[1..] == s[1..] + [b] + k;
      FindOver(s[1..], b, k);
    }
  }

  /** A literal, a braced placeholder and the rest split exactly there. */
  lemma SplitOver(s: bytes, placeholder: bytes, k: bytes)
    requires LBRACE !in s && RBRACE !in placeholder
    ensures SplitOff(s + (([LBRACE] + (placeholder + [RBRACE])) + k)) == Split(s, placeholder, k)
  {
    var after := placeholder + [RBRACE] + k;
    var t := s + [LBRACE] + after;
    assert s + (([LBRACE] + (placeholder + [RBRACE])) + k) == t;
    FindOver(s, LBRACE, after);
    FindOver(placeholder, RBRACE, k);
    assert t[|s| + 1..] == after && t[..|s|] == s;
    assert after[..|placeholder|] == placeholder && after[|placeholder| + 1..] == k;
  }

  lemma NoSplit(s: bytes)
    requires LBRACE !in s
    ensures SplitOff(s) == NoPlaceholder
  {
  }

  lemma PlaceholderClosed(p: Part)
    requires !p.Text? && WfPart(p)
    ensures RBRACE !in PlaceholderText(p)
    ensures p.Body? ==> PlaceholderText(p) != PARTITION && BODY_DOT <= PlaceholderText(p)
                        && PlaceholderText(p)[|BODY_DOT|..] == p.path
    ensures !(BODY_DOT <= PARTITION)
  {
    assert PARTITION[0] != BODY_DOT[0];
    if p.Body? {
      assert PlaceholderText(p)[0] == BODY_DOT[0];
    }
  }

  /** Building an id expands every part in order; the first part that cannot be
      resolved decides the error. */
  lemma {:induction false} ConstructRender(a: bytes, parts: seq<Part>, partition: bytes,
                                           resolve: bytes -> Result<bytes, Error>)
    requires WfParts(parts) && LBRACE !in a
    ensures ConstructId(a + Render(parts), partition, resolve) == Prefixed(a, Expand(parts, partition, resolve))
    decreases |parts|
  {
    hide SplitOff, Find, Placeholder;
    if parts == [] {
      assert a + [] == a;
      NoSplit(a);
    } else {
      var p, rest := parts[0], parts[1..];
      assert WfPart(p) && WfParts(rest);
      var r := Expand(rest, partition, resolve);
      match p
      case Text(s) =>
        assert a + Render(parts) == (a + s) + Render(rest);
        ConstructRender(a + s, rest, partition, resolve);
        PrefixedTwice(a, s, r);
      case _ =>
        assert parts == [p] + rest;
        ConstructRender([], rest, partition, resolve);
        assert [] + Render(rest) == Render(rest);
        PrefixedTwice([], [], r);
        ConstructStep(a, p, rest, partition, resolve);
    }
  }

  /** One placeholder: it is resolved first, and what follows it second. */
  lemma ConstructStep(a: bytes, p: Part, rest: seq<Part>, partition: bytes, resolve: bytes -> Result<bytes, Error>)
    requires !p.Text? && WfPart(p) && LBRACE !in a
    requires ConstructId(Render(rest), partition, resolve) == Expand(rest, partition, resolve)
    ensures ConstructId(a + (([LBRACE] + (PlaceholderText(p) + [RBRACE])) + Render(rest)), partition, resolve) ==
            Prefixed(a, Expand([p] + rest, partition, resolve))
  {
    hide SplitOff, Find;
    PlaceholderClosed(p);
    SplitOver(a, PlaceholderText(p), Render(rest));
    var r := Expand(rest, partition, resolve);
    assert ([p] + rest)[1..] == rest;
    var here := Placeholder(PlaceholderText(p), partition, resolve);
    if here.Ok? {
      PrefixedTwice(a, here.value, r);
    }
  }

  /** The text before, and after, the first natural key. */
  function PrefixOf(parts: seq<Part>, partition: bytes): bytes {
    if parts == [] then []
    else
      match parts[0]
      case Text(s) => s + PrefixOf(parts[1..], partition)
      case Partition => partition + PrefixOf(parts[1..], partition)
      case Body(_) => []
  }

  function SuffixOf(parts: seq<Part>, partition: bytes): bytes {
    if parts == [] then []
    else if parts[0].Body? then Fixed(parts[1..], partition)
    else SuffixOf(parts[1..], partition)
  }

  function FrameOf(a: bytes, parts: seq<Part>, partition: bytes, seen: bool): Result<Frame, Error> {
    if seen then if Bodies(parts) == 0 then Ok(Frame([], a + Fixed(parts, partition))) else Err(IrreversibleIdTemplate)
    else if Bodies(parts) == 1 then Ok(Frame(a + PrefixOf(parts, partition), SuffixOf(parts, partition)))
    else Err(IrreversibleIdTemplate)
  }

  /** The frame exists exactly when there is one natural key, and is what surrounds it. */
  lemma {:induction false} FrameRender(a: bytes, parts: seq<Part>, partition: bytes, seen: bool)
    requires WfParts(parts) && LBRACE !in a
    ensures FrameFrom(a + Render(parts), partition, seen) == FrameOf(a, parts, partition, seen)
    decreases |parts|
  {
    hide SplitOff, Find;
    if parts == [] {
      assert a + [] == a;
      NoSplit(a);
    } else {
      var p, rest := parts[0], parts[1..];
      assert WfPart(p) && WfParts(rest);
      assert [] + Render(rest) == Render(rest);
      match p
      case Text(s) =>
        assert a + Render(parts) == (a + s) + Render(rest);
        FrameRender(a + s, rest, partition, seen);
        Regroup(a, s, PrefixOf(rest, partition));
        Regroup(a, s, Fixed(rest, partition));
      case Partition =>
        PlaceholderClosed(p);
        SplitOver(a, PARTITION, Render(rest));
        FrameRender([], rest, partition, seen);
        Regroup(a, partition, PrefixOf(rest, partition));
        Regroup(a, partition, Fixed(rest, partition));
      case Body(path) =>
        PlaceholderClosed(p);
        SplitOver(a, PlaceholderText(p), Render(rest));
        FrameRender([], rest, partition, true);
        Regroup(a, [], []);
        Regroup([], [], Fixed(rest, partition));
    }
  }

  lemma Regroup(a: bytes, b: bytes, c: bytes)
    ensures a + (b + c) == (a + b) + c
    ensures [] + c == c && a + [] == a
  {
  }

  /** Every placeholder is closed, and names the partition or a body field. */
  predicate Supported(t: bytes)
    decreases |t|
  {
    match SplitOff(t)
    case NoPlaceholder => true
    case Unclosed(_) => false
    case Split(_, placeholder, rest) => (placeholder == PARTITION || BODY_DOT <= placeholder) && Supported(rest)
  }

  lemma SplitText(t: bytes)
    requires SplitOff(t).Split?
    ensures var sp := SplitOff(t);
            LBRACE !in sp.literal && RBRACE !in sp.placeholder
            && t == sp.literal + (([LBRACE] + (sp.placeholder + [RBRACE])) + sp.rest)
  {
    hide Find;
    var open := Find(t, LBRACE).value;
    var after := t[open + 1..];
    var close := Find(after, RBRACE).value;
    FindSplits(t, LBRACE, open);
    FindSplits(after, RBRACE, close);
    RegroupBraces([LBRACE], after[..close], [RBRACE], after[close + 1..]);
  }

  lemma FindSplits(s: bytes, b: byte, n: nat)
    requires n < |s| && s[n] == b
    ensures s == s[..n] + ([b] + s[n + 1..])
  {
  }

  lemma RegroupBraces(a: bytes, b: bytes, c: bytes, d: bytes)
    ensures (a + (b + c)) + d == a + (b + (c + d))
  {
  }

  lemma {:induction false} PartsOf(t: bytes) returns (parts: seq<Part>)
    requires Supported(t)
    ensures WfParts(parts) && Render(parts) == t
    decreases |t|
  {
    hide Find, Render;
    match SplitOff(t)
    case NoPlaceholder =>
      parts := [Text(t)];
      RenderText(t);
    case Split(literal, placeholder, rest) =>
      SplitText(t);
      var tail := PartsOf(rest);
      var p := if placeholder == PARTITION then Partition else Body(placeholder[|BODY_DOT|..]);
      assert p.Body? ==> forall b | b in p.path :: b in placeholder;
      assert PlaceholderText(p) == placeholder;
      parts := [Text(literal)] + ([p] + tail);
      RenderPair(literal, p, tail);
  }

  lemma RenderText(t: bytes)
    ensures Render([Text(t)]) == t
  {
    assert [Text(t)][1..] == [] && t + [] == t;
  }

  lemma RenderPair(literal: bytes, p: Part, tail: seq<Part>)
    requires LBRACE !in literal && WfPart(p) && !p.Text? && WfParts(tail)
    ensures var parts := [Text(literal)] + ([p] + tail);
            WfParts(parts) && Render(parts) == literal + (([LBRACE] + (PlaceholderText(p) + [RBRACE])) + Render(tail))
  {
    hide PlaceholderText;
    var parts := [Text(literal)] + ([p] + tail);
    assert parts[1..] == [p] + tail && ([p] + tail)[1..] == tail;
  }

  lemma {:induction false} FramedIsSupported(t: bytes, partition: bytes, seen: bool)
    requires FrameFrom(t, partition, seen).Ok?
    ensures Supported(t)
    decreases |t|
  {
    match SplitOff(t)
    case NoPlaceholder =>
    case Split(_, placeholder, rest) =>
      FramedIsSupported(rest, partition, seen || placeholder != PARTITION);
  }

  /** A template can be read back exactly when it is well formed around one natural key. */
  lemma ReversibleIffOneKey(t: bytes, partition: bytes)
    ensures IdFrame(t, partition).Ok? <==> exists parts :: WfParts(parts) && Render(parts) == t && Bodies(parts) == 1
  {
    if IdFrame(t, partition).Ok? {
      FramedIsSupported(t, partition, false);
      var parts := PartsOf(t);
      FrameRender([], parts, partition, false);
      assert [] + Render(parts) == t;
    }
    forall parts | WfParts(parts) && Render(parts) == t && Bodies(parts) == 1
      ensures IdFrame(t, partition).Ok?
    {
      FrameRender([], parts, partition, false);
      assert [] + Render(parts) == t;
    }
  }

  // ---------- templates that are not well formed ----------

  /** A brace that is not closed, or that is closed around no placeholder. */
  datatype Flaw = Open(after: bytes) | Unknown(placeholder: bytes, rest: bytes)

  predicate WfFlaw(f: Flaw) {
    match f
    case Open(after) => RBRACE !in after
    case Unknown(placeholder, _) =>
      RBRACE !in placeholder && placeholder != Ascii("partition") && !(Ascii("body.") <= placeholder)
  }

  function FlawText(f: Flaw): bytes {
    match f
    case Open(after) => [LBRACE] + after
    case Unknown(placeholder, rest) => ([LBRACE] + (placeholder + [RBRACE])) + rest
  }

  /** What the error names. */
  function Named(f: Flaw): Error {
    UnsupportedPlaceholder(if f.Open? then f.after else f.placeholder)
  }

  lemma Words()
    ensures PARTITION == Ascii("partition") && BODY_DOT == Ascii("body.")
  {
  }

  lemma FlawSplits(a: bytes, f: Flaw)
    requires LBRACE !in a && WfFlaw(f)
    ensures SplitOff(a + FlawText(f)) ==
            match f case Open(after) => Unclosed(after) case Unknown(x, rest) => Split(a, x, rest)
  {
    hide Ascii;
    match f
    case Open(after) =>
      var t := a + FlawText(f);
      assert t == a + [LBRACE] + after;
      FindOver(a, LBRACE, after);
      FindOver(after, RBRACE, []);
      assert t[|a| + 1..] == after;
    case Unknown(x, rest) => SplitOver(a, x, rest);
  }

  /** Building an id stops at the first flaw and names it, unless a part in front of it
      cannot be resolved. */
  lemma {:induction false} FlawInConstruct(a: bytes, parts: seq<Part>, flaw: Flaw, partition: bytes,
                                           resolve: bytes -> Result<bytes, Error>)
    requires WfParts(parts) && LBRACE !in a && WfFlaw(flaw)
    ensures ConstructId(a + (Render(parts) + FlawText(flaw)), partition, resolve) ==
            match Expand(parts, partition, resolve) case Err(e) => Err(e) case Ok(_) => Err(Named(flaw))
    decreases |parts|
  {
    hide SplitOff, Find, FlawText, Ascii, WfFlaw;
    var k := FlawText(flaw);
    if parts == [] {
      assert a + ([] + k) == a + k;
      FlawSplits(a, flaw);
      FlawStops(flaw);
    } else {
      var p, rest := parts[0], parts[1..];
      assert WfPart(p) && WfParts(rest);
      var tail := Render(rest) + k;
      assert [] + tail == tail;
      match p
      case Text(s) =>
        Regroup(a, s, tail);
        Regroup(s, Render(rest), k);
        FlawInConstruct(a + s, rest, flaw, partition, resolve);
      case _ =>
        var x := [LBRACE] + (PlaceholderText(p) + [RBRACE]);
        Regroup(x, Render(rest), k);
        PlaceholderClosed(p);
        SplitOver(a, PlaceholderText(p), tail);
        FlawInConstruct([], rest, flaw, partition, resolve);
    }
  }

  /** So does rendering the frame, unless a second natural key comes before it. */
  lemma {:induction false} FlawInFrame(a: bytes, parts: seq<Part>, flaw: Flaw, partition: bytes, seen: bool)
    requires WfParts(parts) && LBRACE !in a && WfFlaw(flaw)
    ensures FrameFrom(a + (Render(parts) + FlawText(flaw)), partition, seen) ==
            Err(if Bodies(parts) + (if seen then 1 else 0) > 1 then IrreversibleIdTemplate else Named(flaw))
    decreases |parts|
  {
    hide SplitOff, Find, FlawText, Ascii, WfFlaw;
    var k := FlawText(flaw);
    if parts == [] {
      assert a + ([] + k) == a + k;
      FlawSplits(a, flaw);
      FlawStops(flaw);
    } else {
      var p, rest := parts[0], parts[1..];
      assert WfPart(p) && WfParts(rest);
      var tail := Render(rest) + k;
      assert [] + tail == tail;
      match p
      case Text(s) =>
        Regroup(a, s, tail);
        Regroup(s, Render(rest), k);
        FlawInFrame(a + s, rest, flaw, partition, seen);
      case _ =>
        var x := [LBRACE] + (PlaceholderText(p) + [RBRACE]);
        Regroup(x, Render(rest), k);
        PlaceholderClosed(p);
        SplitOver(a, PlaceholderText(p), tail);
        FlawInFrame([], rest, flaw, partition, seen || p.Body?);
    }
  }

  /** What the walkers say of a template that is not well formed, wherever its first flaw. */
  lemma FlawIsNamed(t: bytes, parts: seq<Part>, flaw: Flaw, partition: bytes, resolve: bytes -> Result<bytes, Error>)
    requires WfParts(parts) && WfFlaw(flaw) && t == Render(parts) + FlawText(flaw)
    ensures ConstructId(t, partition, resolve) ==
            match Expand(parts, partition, resolve) case Err(e) => Err(e) case Ok(_) => Err(Named(flaw))
    ensures IdFrame(t, partition) == Err(if Bodies(parts) > 1 then IrreversibleIdTemplate else Named(flaw))
  {
    hide WfFlaw, FlawText, ConstructId, FrameFrom, Expand;
    Regroup([], [], t);
    FlawInConstruct([], parts, flaw, partition, resolve);
    FlawInFrame([], parts, flaw, partition, false);
  }

  lemma FlawStops(f: Flaw)
    requires WfFlaw(f)
    ensures f.Unknown? ==> f.placeholder != PARTITION && !(BODY_DOT <= f.placeholder)
  {
    Words();
  }

  lemma PartNamed(x: bytes) returns (p: Part)
    requires RBRACE !in x && (x == PARTITION || BODY_DOT <= x)
    ensures !p.Text? && WfPart(p) && PlaceholderText(p) == x
  {
    p := if x == PARTITION then Partition else Body(x[|BODY_DOT|..]);
    assert p.Body? ==> forall b | b in p.path :: b in x;
  }

  /** A template is well formed, or well formed up to a first flaw. */
  lemma {:induction false} FlawOf(t: bytes) returns (parts: seq<Part>, flaw: Flaw)
    requires !Supported(t)
    ensures WfParts(parts) && WfFlaw(flaw) && Render(parts) + FlawText(flaw) == t
    decreases |t|
  {
    hide Find, Render, Ascii;
    Words();
    match SplitOff(t)
    case Unclosed(after) => parts, flaw := OpenFlaw(t);
    case Split(literal, x, rest) =>
      SplitText(t);
      if x == PARTITION || BODY_DOT <= x {
        var tail;
        tail, flaw := FlawOf(rest);
        var p := PartNamed(x);
        parts := [Text(literal)] + ([p] + tail);
        hide WfFlaw, FlawText;
        RenderPair(literal, p, tail);
        Behind(literal, [LBRACE] + (x + [RBRACE]), Render(tail), FlawText(flaw));
      } else {
        parts, flaw := [Text(literal)], Unknown(x, rest);
        RenderText(literal);
      }
  }

  lemma Behind(a: bytes, b: bytes, c: bytes, d: bytes)
    ensures (a + (b + c)) + d == a + (b + (c + d))
  {
  }

  lemma OpenFlaw(t: bytes) returns (parts: seq<Part>, flaw: Flaw)
    requires SplitOff(t).Unclosed?
    ensures WfParts(parts) && WfFlaw(flaw) && Render(parts) + FlawText(flaw) == t
  {
    hide Find;
    var n := Find(t, LBRACE).value;
    FindSplits(t, LBRACE, n);
    parts, flaw := [Text(t[..n])], Open(t[n + 1..]);
    RenderText(t[..n]);
  }

  function KeyPath(parts: seq<Part>): bytes
    requires Bodies(parts) > 0
  {
    if parts[0].Body? then parts[0].path else KeyPath(parts[1..])
  }

  lemma {:induction false} ExpandFixed(parts: seq<Part>, partition: bytes, resolve: bytes -> Result<bytes, Error>)
    requires Bodies(parts) == 0
    ensures Expand(parts, partition, resolve) == Ok(Fixed(parts, partition))
  {
    if parts != [] {
      ExpandFixed(parts[1..], partition, resolve);
    }
  }

  lemma {:induction false} ExpandAroundKey(parts: seq<Part>, partition: bytes, resolve: bytes -> Result<bytes, Error>)
    requires Bodies(parts) == 1
    ensures Expand(parts, partition, resolve) ==
            (match resolve(KeyPath(parts))
             case Err(e) => Err(e)
             case Ok(key) => Ok(PrefixOf(parts, partition) + key + SuffixOf(parts, partition)))
    decreases |parts|
  {
    var key := resolve(KeyPath(parts));
    if parts[0].Body? {
      ExpandFixed(parts[1..], partition, resolve);
      if key.Ok? {
        assert [] + key.value == key.value;
      }
    } else {
      ExpandAroundKey(parts[1..], partition, resolve);
      if key.Ok? {
        var here := if parts[0].Text? then parts[0].s else partition;
        var p, q := PrefixOf(parts[1..], partition), SuffixOf(parts[1..], partition);
        assert here + (p + key.value + q) == (here + p) + key.value + q;
      }
    }
  }

  /** The walkers agree: on a reversible template the constructed id is the frame
      around one resolved key, and that key alone decides whether it can be built. */
  lemma WalkersAgree(t: bytes, partition: bytes) returns (path: bytes)
    requires IdFrame(t, partition).Ok?
    ensures var f := IdFrame(t, partition).value;
            forall resolve: bytes -> Result<bytes, Error> ::
              ConstructId(t, partition, resolve) ==
              match resolve(path) case Err(e) => Err(e) case Ok(key) => Ok(f.prefix + key + f.suffix)
  {
    FramedIsSupported(t, partition, false);
    var parts := PartsOf(t);
    assert [] + Render(parts) == t;
    FrameRender([], parts, partition, false);
    var prefix := PrefixOf(parts, partition);
    assert [] + prefix == prefix;
    path := KeyPath(parts);
    forall resolve: bytes -> Result<bytes, Error>
      ensures ConstructId(t, partition, resolve) == Expand(parts, partition, resolve)
    {
      ConstructRender([], parts, partition, resolve);
      PrefixedTwice([], [], Expand(parts, partition, resolve));
    }
    forall resolve: bytes -> Result<bytes, Error> {
      ExpandAroundKey(parts, partition, resolve);
    }
  }

  /** The two id mappings are mutually inverse. */
  lemma MappingsInverse(t: bytes, partition: bytes, logical: bytes, physical: bytes)
    requires IdFrame(t, partition).Ok?
    ensures MapLogicalToPhysical(t, partition, logical) == Ok(physical)
            <==> MapPhysicalToLogical(t, partition, physical) == Ok(Some(logical))
  {
    StripIffJoined(IdFrame(t, partition).value, logical, physical);
  }

  lemma StripIffJoined(f: Frame, x: bytes, s: bytes)
    ensures Strip(f, s) == Some(x) <==> s == f.prefix + x + f.suffix
  {
    var made := f.prefix + x + f.suffix;
    assert made[..|f.prefix|] == f.prefix;
    assert made[|f.prefix|..] == x + f.suffix;
    assert (x + f.suffix)[|x|..] == f.suffix && (x + f.suffix)[..|x|] == x;
    if Strip(f, s) == Some(x) {
      assert s == f.prefix + s[|f.prefix|..];
      assert s[|f.prefix|..] == x + f.suffix;
    }
  }

  // ---------- the write and the later read ----------

  datatype DocIdRule = DocIdRule(template: bytes, setRouting: bool)

  datatype Resolved = Resolved(partition: bytes, idRule: Option<DocIdRule>, routingHint: Option<bytes>)

  function RoutingValue(r: Resolved): bytes {
    if r.routingHint.Some? then r.routingHint.value else r.partition
  }

  /** The `_routing` of a write, when a constructing transform asks for it. */
  function RoutingFor(r: Resolved): Option<bytes> {
    if r.idRule.Some? && r.idRule.value.setRouting then Some(RoutingValue(r)) else None
  }

  /** The client-facing id a write acknowledgement echoes. */
  function LogicalWriteId(r: Resolved, physical: bytes): bytes {
    match r.idRule
    case None => physical
    case Some(rule) =>
      match MapPhysicalToLogical(rule.template, r.partition, physical)
      case Ok(Some(logical)) => logical
      case _ => physical
  }

  /** The echo of a write is the key inside the template's frame, or, if the template has
      no frame or the id does not fit it, the stored id itself. */
  lemma LogicalWriteIdIs(r: Resolved, physical: bytes)
    ensures r.idRule.None? ==> LogicalWriteId(r, physical) == physical
    ensures r.idRule.Some? ==>
              match IdFrame(r.idRule.value.template, r.partition)
              case Err(_) => LogicalWriteId(r, physical) == physical
              case Ok(f) =>
                && (forall key | physical == f.prefix + key + f.suffix :: LogicalWriteId(r, physical) == key)
                && ((forall key :: physical != f.prefix + key + f.suffix) ==> LogicalWriteId(r, physical) == physical)
  {
    if r.idRule.Some? && IdFrame(r.idRule.value.template, r.partition).Ok? {
      var f := IdFrame(r.idRule.value.template, r.partition).value;
      forall key: bytes
        ensures Strip(f, physical) == Some(key) <==> physical == f.prefix + key + f.suffix
      {
        StripIffJoined(f, key, physical);
      }
    }
  }

  datatype Address = Address(physical: bytes, routing: Option<bytes>)

  /** What a get-by-id or delete-by-id sends upstream for a client's id. */
  function PhysicalIdAndRouting(r: Resolved, logical: bytes): Result<Address, Error> {
    var physical :- (match r.idRule
                     case None => Ok(logical)
                     case Some(rule) => MapLogicalToPhysical(rule.template, r.partition, logical));
    Ok(Address(physical, if r.idRule.Some? && r.idRule.value.setRouting then Some(RoutingValue(r)) else None))
  }

  /** The routing is set exactly when the id rule asks for it: to the hint if there is one,
      and else to the partition. Writes and reads by id agree on it, and a read's id is the
      client's, inside the template's frame if there is a rule. */
  lemma RoutedAndMapped(r: Resolved, logical: bytes)
    ensures RoutingFor(r) ==
            match r
            case Resolved(_, Some(DocIdRule(_, true)), Some(hint)) => Some(hint)
            case Resolved(partition, Some(DocIdRule(_, true)), None) => Some(partition)
            case _ => None
    ensures PhysicalIdAndRouting(r, logical) ==
            match r.idRule
            case None => Ok(Address(logical, None))
            case Some(rule) =>
              match IdFrame(rule.template, r.partition)
              case Err(e) => Err(e)
              case Ok(f) => Ok(Address(f.prefix + logical + f.suffix, RoutingFor(r)))
  {
  }

  /** The id echoed by a write that constructed one addresses that document, with the
      routing it was written under, exactly when the template can be read back. */
  lemma WriteThenRead(r: Resolved, resolve: bytes -> Result<bytes, Error>, physical: bytes)
    requires r.idRule.Some? && ConstructId(r.idRule.value.template, r.partition, resolve) == Ok(physical)
    ensures PhysicalIdAndRouting(r, LogicalWriteId(r, physical)) == Ok(Address(physical, RoutingFor(r)))
            <==> IdFrame(r.idRule.value.template, r.partition).Ok?
  {
    var t := r.idRule.value.template;
    if IdFrame(t, r.partition).Ok? {
      var path := WalkersAgree(t, r.partition);
      var key := resolve(path).value;
      MappingsInverse(t, r.partition, key, physical);
    }
  }

  /** The id and the echo of a bulk index or create: a client's own id is mapped, a
      constructed one is mapped back. */
  function IndexId(r: Resolved, id: Option<bytes>,
                   resolve: bytes -> Result<bytes, Error>): Option<(Option<bytes>, bytes)> {
    match r.idRule
    case None => Some((id, if id.Some? then id.value else []))
    case Some(rule) =>
      match id
      case Some(logical) =>
        (match MapLogicalToPhysical(rule.template, r.partition, logical)
         case Err(_) => None
         case Ok(physical) => Some((Some(physical), logical)))
      case None =>
        match ConstructId(rule.template, r.partition, resolve)
        case Err(_) => None
        case Ok(physical) => Some((Some(physical), LogicalWriteId(r, physical)))
  }

  /** A client's own id is stored inside the template's frame and echoed as it is; a
      missing one is constructed, and echoed as a single write echoes it. */
  lemma IndexIdIs(r: Resolved, id: Option<bytes>, resolve: bytes -> Result<bytes, Error>)
    ensures IndexId(r, id, resolve) ==
            match (r.idRule, id)
            case (None, Some(own)) => Some((Some(own), own))
            case (None, None) => Some((None, []))
            case (Some(rule), Some(own)) =>
              (match IdFrame(rule.template, r.partition)
               case Err(_) => None
               case Ok(f) => Some((Some(f.prefix + own + f.suffix), own)))
            case (Some(rule), None) =>
              match ConstructId(rule.template, r.partition, resolve)
              case Err(_) => None
              case Ok(made) => Some((Some(made), LogicalWriteId(r, made)))
  {
  }

  /** Whatever id a bulk write stored a document under, its echo addresses it again. */
  lemma BulkWriteThenRead(r: Resolved, id: Option<bytes>, resolve: bytes -> Result<bytes, Error>)
    requires IndexId(r, id, resolve).Some? && IndexId(r, id, resolve).value.0.Some?
    requires r.idRule.Some? ==> IdFrame(r.idRule.value.template, r.partition).Ok?
    ensures var (physical, echo) := IndexId(r, id, resolve).value;
            PhysicalIdAndRouting(r, echo) == Ok(Address(physical.value, RoutingFor(r)))
  {
    if r.idRule.Some? && id.None? {
      WriteThenRead(r, resolve, IndexId(r, id, resolve).value.0.value);
    }
  }
}
