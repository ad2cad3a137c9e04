/**
  The vector scan for the end of an ordinary string run: 32 lanes compared at a
  time, then a scalar pass over the tail. A lane mask is one bit per lane, bit `i`
  for lane `i`.
*/
module StringBoundary {
  import opened Bytes
  import opened JsonText

  const STEP: nat := 32

  type Mask = m: seq<bool> | |m| == STEP witness seq(STEP, _ => false)

  function LanesEq(lanes: bytes, c: byte): (m: Mask)
    requires |lanes| == STEP
  {
    seq(STEP, i requires 0 <= i < STEP => lanes[i] == c)
  }

  function LanesLt(lanes: bytes, c: byte): (m: Mask)
    requires |lanes| == STEP
  {
    seq(STEP, i requires 0 <= i < STEP => lanes[i] < c)
  }

  function Or(a: Mask, b: Mask): (m: Mask) {
    seq(STEP, i requires 0 <= i < STEP => a[i] || b[i])
  }

  /** The number of clear bits below the lowest set one; 32 when none is set. */
  method TrailingZeros(m: Mask) returns (n: nat)
    ensures n <= STEP && (n < STEP ==> m[n])
    ensures forall j | 0 <= j < n :: !m[j]
  {
    n := 0;
    while n < STEP && !m[n]
      invariant n <= STEP
      invariant forall j | 0 <= j < n :: !m[j]
    {
      n := n + 1;
    }
  }

  /** `r` is the first boundary of `s`, if there is one. */
  ghost predicate IsFirstBoundary(s: bytes, r: Option<nat>) {
    match r
    case Some(n) => n < |s| && IsStringBoundary(s[n]) && forall j | 0 <= j < n :: !IsStringBoundary(s[j])
    case None => forall j | 0 <= j < |s| :: !IsStringBoundary(s[j])
  }

  /** Clear lanes extend the boundary-free prefix across the chunk seam. */
  lemma SeamlessPrefix(s: bytes, at: nat, n: nat, mask: Mask)
    requires at + STEP <= |s| && n <= STEP
    requires forall j | 0 <= j < at :: !IsStringBoundary(s[j])
    requires forall j | 0 <= j < STEP :: mask[j] == IsStringBoundary(s[at + j])
    requires forall j | 0 <= j < n :: !mask[j]
    ensures forall j | 0 <= j < at + n :: !IsStringBoundary(s[j])
  {
    forall j | at <= j < at + n
      ensures !IsStringBoundary(s[j])
    {
      assert !mask[j - at];
    }
  }

  method NextStringBoundary(s: bytes) returns (r: Option<nat>)
    ensures IsFirstBoundary(s, r)
  {
    var at := 0;
    while |s| - at >= STEP
      invariant at <= |s|
      invariant forall j | 0 <= j < at :: !IsStringBoundary(s[j])
    {
      var lanes := s[at..at + STEP];
      var mask := Or(Or(LanesEq(lanes, QUOTE), LanesEq(lanes, BACKSLASH)), LanesLt(lanes, 0x20));
      var n := TrailingZeros(mask);
      assert forall j | 0 <= j < STEP :: mask[j] == IsStringBoundary(s[at + j]);
      if n < STEP {
        SeamlessPrefix(s, at, n, mask);
        return Some(at + n);
      }
      SeamlessPrefix(s, at, STEP, mask);
      at := at + STEP;
    }
    while at < |s|
      invariant at <= |s|
      invariant forall j | 0 <= j < at :: !IsStringBoundary(s[j])
    {
      if IsStringBoundary(s[at]) {
        return Some(at);
      }
      at := at + 1;
    }
    return None;
  }
}
