/**
  The log's checksum: the CRC-32 of IEEE 802.3, bit by bit. Any two bodies of equal
  length that differ only within four consecutive bytes have different checksums.
*/
module Crc {
  import opened Bytes

  // ---------- bytes as bit-vectors ----------

  function Bit(on: bool, weight: nat): nat {
    if on then weight else 0
  }

  /** The number an octet stands for. */
  function Val(b: bv8): byte {
    Bit(b & 1 == 1, 1) + Bit(b & 2 == 2, 2) + Bit(b & 4 == 4, 4) + Bit(b & 8 == 8, 8)
    + Bit(b & 16 == 16, 16) + Bit(b & 32 == 32, 32) + Bit(b & 64 == 64, 64) + Bit(b & 128 == 128, 128)
  }

  lemma ValSuccessor(b: bv8)
    requires b != 255
    ensures Val(b + 1) == Val(b) + 1
  {
  }

  /** The octet of a number. */
  function Bits(n: byte): (b: bv8)
    ensures Val(b) == n
  {
    if n == 0 then 0
    else
      var p := Bits(n - 1);
      assert p != 255 by {
        assert Val(255) == 255;
      }
      ValSuccessor(p);
      p + 1
  }

  /** A 32-bit machine word. */
  datatype Word = Word(w: bv32)

  const ZERO_WORD := Word(0)
  const ONES := Word(0xFFFF_FFFF)
  const POLY: bv32 := 0xEDB8_8320

  function Wide(n: byte): Word {
    Word(Bits(n) as bv32)
  }

  function XorBits(a: bv32, b: bv32): bv32 {
    a ^ b
  }

  function Xor(a: Word, b: Word): Word {
    Word(XorBits(a.w, b.w))
  }

  function Not(a: Word): Word {
    Word(!a.w)
  }

  // ---------- the checksum ----------

  function ShiftBits(c: bv32): bv32 {
    (c >> 1) ^ (POLY & (0 - (c & 1)))
  }

  /** One bit of the division. */
  function Shift(c: Word): Word {
    Word(ShiftBits(c.w))
  }

  function Shifts(c: Word, n: nat): Word {
    if n == 0 then c else Shift(Shifts(c, n - 1))
  }

  function Feed(c: Word, b: byte): Word {
    Shifts(Xor(c, Wide(b)), 8)
  }

  function FeedAll(c: Word, s: bytes): Word
    decreases |s|
  {
    if s == [] then c else Feed(FeedAll(c, s[..|s| - 1]), s[|s| - 1])
  }

  function Crc32(s: bytes): Word {
    Not(FeedAll(ONES, s))
  }

  /** `crc32`. */
  method ComputeCrc32(s: bytes) returns (r: Word)
    ensures r == Crc32(s)
  {
    hide Shift, Wide, Xor, Not;
    var crc := ONES;
    for i := 0 to |s|
      invariant crc == FeedAll(ONES, s[..i])
    {
      crc := Xor(crc, Wide(s[i]));
      ghost var fed := crc;
      for k := 0 to 8
        invariant crc == Shifts(fed, k)
      {
        crc := ShiftOnce(crc);
      }
      assert s[..i + 1][..i] == s[..i];
    }
    assert s[..|s|] == s;
    r := Not(crc);
  }

  /** The loop's body: a branch-free conditional subtraction of the polynomial. */
  method ShiftOnce(c: Word) returns (r: Word)
    ensures r == Shift(c)
  {
    var mask := 0 - (c.w & 1);
    r := Word((c.w >> 1) ^ (POLY & mask));
  }

  // ---------- every step is a bijection ----------

  lemma ShiftInjective(a: Word, b: Word)
    requires Shift(a) == Shift(b)
    ensures a == b
  {
  }

  lemma {:induction false} ShiftsInjective(a: Word, b: Word, n: nat)
    requires Shifts(a, n) == Shifts(b, n)
    ensures a == b
  {
    hide Shift;
    if n > 0 {
      ShiftInjective(Shifts(a, n - 1), Shifts(b, n - 1));
      ShiftsInjective(a, b, n - 1);
    }
  }

  lemma {:induction false} FeedAllInjective(a: Word, b: Word, s: bytes)
    requires FeedAll(a, s) == FeedAll(b, s)
    ensures a == b
    decreases |s|
  {
    hide Shifts, Wide, Xor;
    if s != [] {
      var w := Wide(s[|s| - 1]);
      var x, y := FeedAll(a, s[..|s| - 1]), FeedAll(b, s[..|s| - 1]);
      ShiftsInjective(Xor(x, w), Xor(y, w), 8);
      XorCancels(x, y, w);
      FeedAllInjective(a, b, s[..|s| - 1]);
    }
  }

  lemma XorCancels(a: Word, b: Word, w: Word)
    requires Xor(a, w) == Xor(b, w)
    ensures a == b
  {
    assert a.w == (a.w ^ w.w) ^ w.w;
    assert b.w == (b.w ^ w.w) ^ w.w;
  }

  lemma XorSwap(a: Word, b: Word)
    ensures Xor(a, b) == Xor(b, a)
  {
  }

  lemma XorAssoc(a: Word, b: Word, c: Word)
    ensures Xor(Xor(a, b), c) == Xor(a, Xor(b, c))
  {
  }

  lemma XorZero(a: Word)
    ensures Xor(a, ZERO_WORD) == a
  {
  }

  lemma {:induction false} FeedAllAppend(c: Word, a: bytes, b: bytes)
    ensures FeedAll(c, a + b) == FeedAll(FeedAll(c, a), b)
    decreases |b|
  {
    hide Feed;
    if b == [] {
      assert a + b == a;
    } else {
      assert (a + b)[..|a + b| - 1] == a + b[..|b| - 1];
      FeedAllAppend(c, a, b[..|b| - 1]);
    }
  }

  // ---------- four bytes are one word ----------

  lemma ShiftBitsXor(a: bv32, b: bv32)
    ensures ShiftBits(XorBits(a, b)) == XorBits(ShiftBits(a), ShiftBits(b))
  {
    assert (a ^ b) >> 1 == (a >> 1) ^ (b >> 1);
    var x, y := a & 1, b & 1;
    assert (a ^ b) & 1 == x ^ y;
    assert x == 0 || x == 1;
    assert y == 0 || y == 1;
  }

  lemma ShiftXor(a: Word, b: Word)
    ensures Shift(Xor(a, b)) == Xor(Shift(a), Shift(b))
  {
    hide ShiftBits, XorBits;
    ShiftBitsXor(a.w, b.w);
  }

  /** The division is linear. */
  lemma {:induction false} ShiftsXor(a: Word, b: Word, n: nat)
    ensures Shifts(Xor(a, b), n) == Xor(Shifts(a, n), Shifts(b, n))
  {
    hide Shift, Xor;
    if n > 0 {
      ShiftsXor(a, b, n - 1);
      ShiftXor(Shifts(a, n - 1), Shifts(b, n - 1));
    }
  }

  lemma {:induction false} ShiftsAdd(c: Word, m: nat, n: nat)
    ensures Shifts(c, m + n) == Shifts(Shifts(c, m), n)
  {
    hide Shift;
    if n > 0 {
      ShiftsAdd(c, m, n - 1);
    }
  }

  function Eight(c: Word): Word {
    Shift(Shift(Shift(Shift(Shift(Shift(Shift(Shift(c))))))))
  }

  lemma EightShifts(c: Word)
    ensures Shifts(c, 8) == Eight(c)
  {
    hide Shift;
    assert Shifts(c, 1) == Shift(c);
    assert Shifts(c, 2) == Shift(Shifts(c, 1));
    assert Shifts(c, 3) == Shift(Shifts(c, 2));
    assert Shifts(c, 4) == Shift(Shifts(c, 3));
    assert Shifts(c, 5) == Shift(Shifts(c, 4));
    assert Shifts(c, 6) == Shift(Shifts(c, 5));
    assert Shifts(c, 7) == Shift(Shifts(c, 6));
  }

  function UpBits(b: bv32, k: nat): bv32
    requires k < 4
  {
    if k == 0 then b else if k == 1 then b << 8 else if k == 2 then b << 16 else b << 24
  }

  predicate BelowBits(w: bv32, k: nat)
    requires k <= 4
  {
    k == 4 || (w < if k == 0 then 1 else if k == 1 then 0x100 else if k == 2 then 0x1_0000 else 0x100_0000)
  }

  /** `w`, `k` bytes up. */
  function Up(w: Word, k: nat): Word
    requires k < 4
  {
    Word(UpBits(w.w, k))
  }

  /** Nothing at or above byte `k`. */
  predicate Below(w: Word, k: nat)
    requires k <= 4
  {
    BelowBits(w.w, k)
  }

  lemma WideBelow(b: byte)
    ensures Below(Wide(b), 1)
  {
    hide Bits;
  }

  /** Eight shifts move a byte that is not the lowest down one place. */
  lemma UpDown(w: Word, k: nat)
    requires 0 < k < 4 && Below(w, 1)
    ensures Eight(Up(w, k)) == Up(w, k - 1)
  {
    hide Shift, Eight;
    var a := Up(w, k - 1).w;
    UpAgain(w, k);
    EightDown(a);
  }

  lemma UpAgain(w: Word, k: nat)
    requires 0 < k < 4 && Below(w, 1)
    ensures var a := Up(w, k - 1).w; a < 0x100_0000 && Up(w, k) == Word(a << 8)
  {
  }

  lemma EightDown(a: bv32)
    requires a < 0x100_0000
    ensures Eight(Word(a << 8)) == Word(a)
  {
  }

  lemma {:induction false} UpShiftsDown(w: Word, k: nat)
    requires k < 4 && Below(w, 1)
    ensures Shifts(Up(w, k), 8 * k) == w
    decreases k
  {
    hide Shifts, Eight, Below;
    if k > 0 {
      hide Up;
      UpDown(w, k);
      EightShifts(Up(w, k));
      ShiftsAdd(Up(w, k), 8, 8 * (k - 1));
      UpShiftsDown(w, k - 1);
      assert 8 * k == 8 + 8 * (k - 1);
    } else {
      NoShift(w);
    }
  }

  lemma NoShift(w: Word)
    ensures Shifts(w, 0) == w
  {
  }

  /** Up to four bytes as one little-endian word. */
  function WordOf(x: bytes): Word
    requires |x| <= 4
    decreases |x|
  {
    if x == [] then ZERO_WORD
    else Xor(WordOf(x[..|x| - 1]), Up(Wide(x[|x| - 1]), |x| - 1))
  }

  /** Feeding up to four bytes is one division of the state and the bytes together. */
  lemma {:induction false} FeedWord(c: Word, x: bytes)
    requires |x| <= 4
    ensures FeedAll(c, x) == Shifts(Xor(c, WordOf(x)), 8 * |x|)
    decreases |x|
  {
    hide Shifts, Up, Wide, Xor;
    if x == [] {
      XorZero(c);
      NoShift(c);
    } else {
      var k := |x| - 1;
      var b, w := Wide(x[k]), WordOf(x[..k]);
      var p := Up(b, k);
      FeedWord(c, x[..k]);
      WideBelow(x[k]);
      UpShiftsDown(b, k);
      ShiftsXor(Xor(c, w), p, 8 * k);
      XorAssoc(c, w, p);
      ShiftsAdd(Xor(c, Xor(w, p)), 8 * k, 8);
    }
  }

  lemma Join0(w: Word, b: Word)
    requires Below(w, 0) && Below(b, 1)
    ensures Below(Xor(w, Up(b, 0)), 1)
  {
  }

  lemma Join1(w: Word, b: Word)
    requires Below(w, 1) && Below(b, 1)
    ensures Below(Xor(w, Up(b, 1)), 2)
  {
  }

  lemma Join2(w: Word, b: Word)
    requires Below(w, 2) && Below(b, 1)
    ensures Below(Xor(w, Up(b, 2)), 3)
  {
  }

  lemma Join3(w: Word, b: Word)
    requires Below(w, 3) && Below(b, 1)
    ensures Below(Xor(w, Up(b, 3)), 4)
  {
  }

  lemma JoinBelow(w: Word, b: Word, k: nat)
    requires k < 4 && Below(w, k) && Below(b, 1)
    ensures Below(Xor(w, Up(b, k)), k + 1)
  {
    hide Xor, Up, Below;
    if k == 0 {
      Join0(w, b);
    } else if k == 1 {
      Join1(w, b);
    } else if k == 2 {
      Join2(w, b);
    } else {
      Join3(w, b);
    }
  }

  lemma Split0(w: Word, b: Word, w': Word, b': Word)
    requires Below(w, 0) && Below(w', 0) && Below(b, 1) && Below(b', 1)
    requires Xor(w, Up(b, 0)) == Xor(w', Up(b', 0))
    ensures w == w' && b == b'
  {
  }

  lemma Split1(w: Word, b: Word, w': Word, b': Word)
    requires Below(w, 1) && Below(w', 1) && Below(b, 1) && Below(b', 1)
    requires Xor(w, Up(b, 1)) == Xor(w', Up(b', 1))
    ensures w == w' && b == b'
  {
  }

  lemma Split2(w: Word, b: Word, w': Word, b': Word)
    requires Below(w, 2) && Below(w', 2) && Below(b, 1) && Below(b', 1)
    requires Xor(w, Up(b, 2)) == Xor(w', Up(b', 2))
    ensures w == w' && b == b'
  {
  }

  lemma Split3(w: Word, b: Word, w': Word, b': Word)
    requires Below(w, 3) && Below(w', 3) && Below(b, 1) && Below(b', 1)
    requires Xor(w, Up(b, 3)) == Xor(w', Up(b', 3))
    ensures w == w' && b == b'
  {
  }

  lemma SplitUnique(w: Word, b: Word, w': Word, b': Word, k: nat)
    requires k < 4 && Below(w, k) && Below(w', k) && Below(b, 1) && Below(b', 1)
    requires Xor(w, Up(b, k)) == Xor(w', Up(b', k))
    ensures w == w' && b == b'
  {
    hide Xor, Up, Below;
    if k == 0 {
      Split0(w, b, w', b');
    } else if k == 1 {
      Split1(w, b, w', b');
    } else if k == 2 {
      Split2(w, b, w', b');
    } else {
      Split3(w, b, w', b');
    }
  }

  lemma {:induction false} WordBelow(x: bytes)
    requires |x| <= 4
    ensures Below(WordOf(x), |x|)
    decreases |x|
  {
    hide Wide, Xor, Up;
    if x != [] {
      hide Below;
      WordBelow(x[..|x| - 1]);
      WideBelow(x[|x| - 1]);
      JoinBelow(WordOf(x[..|x| - 1]), Wide(x[|x| - 1]), |x| - 1);
    }
  }

  lemma Narrow(b: bv8)
    ensures (b as bv32) as bv8 == b
  {
  }

  lemma WideInjective(a: byte, b: byte)
    requires Wide(a) == Wide(b)
    ensures a == b
  {
    hide Bits, Val;
    Narrow(Bits(a));
    Narrow(Bits(b));
  }

  lemma {:induction false} WordInjective(x: bytes, y: bytes)
    requires |x| == |y| <= 4 && WordOf(x) == WordOf(y)
    ensures x == y
    decreases |x|
  {
    hide Wide, Xor, Up, Below;
    if x != [] {
      var k := |x| - 1;
      WordBelow(x[..k]);
      WordBelow(y[..k]);
      WideBelow(x[k]);
      WideBelow(y[k]);
      SplitUnique(WordOf(x[..k]), Wide(x[k]), WordOf(y[..k]), Wide(y[k]), k);
      WordInjective(x[..k], y[..k]);
      WideInjective(x[k], y[k]);
      assert x == x[..k] + [x[k]] && y == y[..k] + [y[k]];
    }
  }

  lemma NotInjective(a: Word, b: Word)
    requires Not(a) == Not(b)
    ensures a == b
  {
    assert a.w == !(!a.w);
    assert b.w == !(!b.w);
  }

  /** Every burst of at most four damaged bytes changes the checksum. */
  lemma BurstDetected(p: bytes, x: bytes, y: bytes, q: bytes)
    requires |x| == |y| <= 4 && x != y
    ensures Crc32(p + x + q) != Crc32(p + y + q)
  {
    hide FeedAll, Shifts, WordOf, Xor, Not;
    if Crc32(p + x + q) == Crc32(p + y + q) {
      var c := FeedAll(ONES, p);
      FeedAllAppend(ONES, p + x, q);
      FeedAllAppend(ONES, p + y, q);
      FeedAllAppend(ONES, p, x);
      FeedAllAppend(ONES, p, y);
      NotInjective(FeedAll(ONES, p + x + q), FeedAll(ONES, p + y + q));
      FeedAllInjective(FeedAll(c, x), FeedAll(c, y), q);
      FeedWord(c, x);
      FeedWord(c, y);
      ShiftsInjective(Xor(c, WordOf(x)), Xor(c, WordOf(y)), 8 * |x|);
      XorSwap(c, WordOf(x));
      XorSwap(c, WordOf(y));
      XorCancels(WordOf(x), WordOf(y), c);
      WordInjective(x, y);
    }
  }

  // ---------- a word as its four bytes ----------

  lemma ValZero(b: bv8)
    ensures Val(b) == 0 <==> b == 0
  {
  }

  function Pred(b: bv8): bv8 {
    b - 1
  }

  lemma ValPred(b: bv8)
    requires b != 0
    ensures Val(b) == Val(Pred(b)) + 1 && Pred(b) + 1 == b
  {
    ValSuccessor(b - 1);
  }

  lemma {:induction false} BitsOfVal(b: bv8)
    ensures Bits(Val(b)) == b
    decreases Val(b)
  {
    hide Val, Pred;
    ValZero(b);
    if b != 0 {
      ValPred(b);
      BitsOfVal(Pred(b));
      BitsStep(Val(b));
    }
  }

  lemma BitsStep(n: byte)
    requires n > 0
    ensures Bits(n) == Bits(n - 1) + 1
  {
    hide Val;
  }

  function Octet(c: Word, k: nat): bv8
    requires k < 4
  {
    var w := if k == 0 then c.w else if k == 1 then c.w >> 8 else if k == 2 then c.w >> 16 else c.w >> 24;
    (w & 0xFF) as bv8
  }

  /** `to_le_bytes`. */
  function LittleEndian(c: Word): (s: bytes)
    ensures |s| == 4
  {
    [Val(Octet(c, 0)), Val(Octet(c, 1)), Val(Octet(c, 2)), Val(Octet(c, 3))]
  }

  function WideBits(b: bv8): Word {
    Word(b as bv32)
  }

  lemma WordOfFour(a: byte, b: byte, c: byte, d: byte)
    ensures WordOf([a, b, c, d]) ==
            Xor(Xor(Xor(Xor(ZERO_WORD, Up(Wide(a), 0)), Up(Wide(b), 1)), Up(Wide(c), 2)), Up(Wide(d), 3))
  {
    hide Xor, Up, Wide;
    assert [a, b, c, d][..3] == [a, b, c] && [a, b, c][..2] == [a, b] && [a, b][..1] == [a] && [a][..0] == [];
    assert WordOf([a]) == Xor(WordOf([]), Up(Wide(a), 0));
    assert WordOf([a, b]) == Xor(WordOf([a]), Up(Wide(b), 1));
    assert WordOf([a, b, c]) == Xor(WordOf([a, b]), Up(Wide(c), 2));
  }

  lemma Low(x: bv32)
    ensures ((x & 0xFF) as bv8) as bv32 == x & 0xFF
  {
  }

  lemma RejoinBits(c: bv32)
    ensures 0 ^ (c & 0xFF) ^ (((c >> 8) & 0xFF) << 8) ^ (((c >> 16) & 0xFF) << 16) ^ (((c >> 24) & 0xFF) << 24) == c
  {
  }

  lemma Rejoin(c: Word)
    ensures Xor(Xor(Xor(Xor(ZERO_WORD, Up(WideBits(Octet(c, 0)), 0)), Up(WideBits(Octet(c, 1)), 1)),
                    Up(WideBits(Octet(c, 2)), 2)), Up(WideBits(Octet(c, 3)), 3)) == c
  {
    Low(c.w);
    Low(c.w >> 8);
    Low(c.w >> 16);
    Low(c.w >> 24);
    RejoinBits(c.w);
  }

  lemma WideOfVal(b: bv8)
    ensures Wide(Val(b)) == WideBits(b)
  {
    hide Bits, Val;
    BitsOfVal(b);
  }

  /** `from_le_bytes` inverts `to_le_bytes`. */
  lemma LittleEndianWord(c: Word)
    ensures WordOf(LittleEndian(c)) == c
  {
    hide Val, Wide, WideBits, Xor, Up, WordOf, Octet;
    WideOfVal(Octet(c, 0));
    WideOfVal(Octet(c, 1));
    WideOfVal(Octet(c, 2));
    WideOfVal(Octet(c, 3));
    var s := LittleEndian(c);
    WordOfFour(s[0], s[1], s[2], s[3]);
    Rejoin(c);
  }

  // ---------- the check value ----------

  lemma FeedOne(c: bv32, b: byte, v: bv8, r: bv32)
    requires Val(v) == b && Eight(Word(c ^ (v as bv32))) == Word(r)
    ensures Feed(Word(c), b) == Word(r)
  {
    hide Eight, Val, Bits, Shifts;
    BitsOfVal(v);
    EightShifts(Word(c ^ (v as bv32)));
  }

  lemma FeedNext(s: bytes, b: byte, v: bv8, c: bv32, r: bv32)
    requires FeedAll(ONES, s) == Word(c) && Val(v) == b && Eight(Word(c ^ (v as bv32))) == Word(r)
    ensures FeedAll(ONES, s + [b]) == Word(r)
  {
    hide Eight, Val, Feed;
    FeedOne(c, b, v, r);
    assert (s + [b])[..|s|] == s;
  }

  lemma FirstDigits()
    ensures FeedAll(ONES, [0x31, 0x32, 0x33, 0x34, 0x35]) == Word(0x340A_C5E3)
  {
    hide FeedAll;
    NothingFed();
    FeedNext([], 0x31, 0x31, 0xFFFF_FFFF, 0x7C23_1048);
    assert [] + [0x31] == [0x31];
    FeedNext([0x31], 0x32, 0x32, 0x7C23_1048, 0xB0AC_BB32);
    assert [0x31] + [0x32] == [0x31, 0x32];
    FeedNext([0x31, 0x32], 0x33, 0x33, 0xB0AC_BB32, 0x77B7_9C2D);
    assert [0x31, 0x32] + [0x33] == [0x31, 0x32, 0x33];
    FeedNext([0x31, 0x32, 0x33], 0x34, 0x34, 0x77B7_9C2D, 0x641C_1F5C);
    assert [0x31, 0x32, 0x33] + [0x34] == [0x31, 0x32, 0x33, 0x34];
    FeedNext([0x31, 0x32, 0x33, 0x34], 0x35, 0x35, 0x641C_1F5C, 0x340A_C5E3);
    assert [0x31, 0x32, 0x33, 0x34] + [0x35] == [0x31, 0x32, 0x33, 0x34, 0x35];
  }

  /** The checksum of the nine digits is the check value of CRC-32/ISO-HDLC. */
  lemma CheckValue()
    ensures Crc32([0x31, 0x32, 0x33, 0x34, 0x35, 0x36, 0x37, 0x38, 0x39]) == Word(0xCBF4_3926)
  {
    hide FeedAll;
    FirstDigits();
    FeedNext([0x31, 0x32, 0x33, 0x34, 0x35], 0x36, 0x36, 0x340A_C5E3, 0xF68D_2C9E);
    assert [0x31, 0x32, 0x33, 0x34, 0x35] + [0x36] == [0x31, 0x32, 0x33, 0x34, 0x35, 0x36];
    FeedNext([0x31, 0x32, 0x33, 0x34, 0x35, 0x36], 0x37, 0x37, 0xF68D_2C9E, 0xAFFC_9660);
    assert [0x31, 0x32, 0x33, 0x34, 0x35, 0x36] + [0x37] == [0x31, 0x32, 0x33, 0x34, 0x35, 0x36, 0x37];
    FeedNext([0x31, 0x32, 0x33, 0x34, 0x35, 0x36, 0x37], 0x38, 0x38, 0xAFFC_9660, 0x651F_2550);
    assert [0x31, 0x32, 0x33, 0x34, 0x35, 0x36, 0x37] + [0x38] == [0x31, 0x32, 0x33, 0x34, 0x35, 0x36, 0x37, 0x38];
    FeedNext([0x31, 0x32, 0x33, 0x34, 0x35, 0x36, 0x37, 0x38], 0x39, 0x39, 0x651F_2550, 0x340B_C6D9);
    assert [0x31, 0x32, 0x33, 0x34, 0x35, 0x36, 0x37, 0x38] + [0x39]
        == [0x31, 0x32, 0x33, 0x34, 0x35, 0x36, 0x37, 0x38, 0x39];
  }

  lemma NothingFed()
    ensures FeedAll(ONES, []) == ONES
  {
  }
}
