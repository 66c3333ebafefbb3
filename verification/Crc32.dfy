/** CRC-32: the bit-serial shift register, the byte-wise table method, and the word-wise methods for little-endian and
    big-endian machines. Polynomials have their lowest power in the most significant bit; the register is a 32-bit
    word. */
module Crc32 {

  const POLY: bv32 := 0xedb88320

  function Xor(a: bv32, b: bv32): bv32 { a ^ b }
  function Half(a: bv32): bv32 { a >> 1 }
  predicate Odd(a: bv32) { a & 1 != 0 }

  /** Multiplication by x: one step of the shift register without input. */
  function Shift(c: bv32): bv32 { if Odd(c) then Xor(POLY, Half(c)) else Half(c) }

  // ---- Words ------------------------------------------------------------------------------------

  lemma XorHalf(a: bv32, b: bv32)
    ensures Half(Xor(a, b)) == Xor(Half(a), Half(b)) && (Odd(Xor(a, b)) <==> Odd(a) != Odd(b))
  {
    hide Half, Xor, Odd, Bit;
    HalfXor(a, b);
    BitOfXor(a, b);
    OddIs(a);
    OddIs(b);
    OddIs(Xor(a, b));
    BitXor(Bit(a), Bit(b));
  }

  lemma HalfXor(a: bv32, b: bv32)
    ensures Half(Xor(a, b)) == Xor(Half(a), Half(b))
  {
  }

  lemma BitOfXor(a: bv32, b: bv32)
    ensures Bit(Xor(a, b)) == Xor(Bit(a), Bit(b))
  {
  }

  lemma OddIs(a: bv32)
    ensures (Bit(a) == 0 || Bit(a) == 1) && (Odd(a) <==> Bit(a) == 1)
  {
  }

  lemma BitXor(x: bv32, y: bv32)
    requires (x == 0 || x == 1) && (y == 0 || y == 1)
    ensures Xor(x, y) == 1 <==> (x == 1) != (y == 1)
  {
  }

  lemma XorAssoc(a: bv32, b: bv32, c: bv32)
    ensures Xor(Xor(a, b), c) == Xor(a, Xor(b, c))
  {
  }

  lemma XorComm(a: bv32, b: bv32)
    ensures Xor(a, b) == Xor(b, a)
  {
  }

  lemma XorZero(a: bv32)
    ensures Xor(a, 0) == a && Xor(a, a) == 0 && Xor(0, a) == a
  {
  }

  lemma XorLaws(p: bv32, a: bv32, b: bv32)
    ensures Xor(Xor(p, a), b) == Xor(p, Xor(a, b)) && Xor(a, Xor(p, b)) == Xor(p, Xor(a, b)) &&
            Xor(Xor(p, a), Xor(p, b)) == Xor(a, b)
  {
    hide Xor;
    XorAssoc(p, a, b);
    XorAssoc(a, p, b);
    XorComm(a, p);
    XorAssoc(p, a, Xor(p, b));
    XorAssoc(p, p, Xor(a, b));
    XorZero(p);
    XorZero(Xor(a, b));
  }

  /** The register is linear. */
  lemma ShiftLinear(a: bv32, b: bv32)
    ensures Shift(Xor(a, b)) == Xor(Shift(a), Shift(b))
  {
    hide Xor, Half, Odd;
    XorHalf(a, b);
    XorLaws(POLY, Half(a), Half(b));
  }

  function Shifts(c: bv32, n: nat): bv32 { if n == 0 then c else Shift(Shifts(c, n - 1)) }

  lemma {:induction false} ShiftsLinear(a: bv32, b: bv32, n: nat)
    ensures Shifts(Xor(a, b), n) == Xor(Shifts(a, n), Shifts(b, n))
  {
    hide Xor, Shift;
    if n > 0 {
      ShiftsLinear(a, b, n - 1);
      ShiftLinear(Shifts(a, n - 1), Shifts(b, n - 1));
    }
  }

  lemma {:induction false} ShiftsAdd(c: bv32, m: nat, n: nat)
    ensures Shifts(Shifts(c, m), n) == Shifts(c, m + n)
  {
    hide Shift;
    if n > 0 { ShiftsAdd(c, m, n - 1); }
  }

  function Shr8(c: bv32): bv32 { c >> 8 }
  function Low(c: bv32): bv32 { c & 0xff }
  function High(c: bv32): bv32 { c & 0xffff_ff00 }
  function Wide(b: bv8): bv32 { b as bv32 }

  /** With nothing in the low byte, eight steps only shift. */
  lemma EightDown(c: bv32)
    requires Low(c) == 0
    ensures Shifts(c, 8) == Shr8(c)
  {
    assert Shifts(c, 1) == c >> 1;
    assert Shifts(c, 2) == c >> 2;
    assert Shifts(c, 3) == c >> 3;
    assert Shifts(c, 4) == c >> 4;
    assert Shifts(c, 5) == c >> 5;
    assert Shifts(c, 6) == c >> 6;
    assert Shifts(c, 7) == c >> 7;
  }

  lemma SplitLow(c: bv32)
    ensures c == Xor(Low(c), High(c)) && Low(High(c)) == 0 && Shr8(High(c)) == Shr8(c) && Low(Low(c)) == Low(c)
  {
  }

  lemma ByteParts(c: bv32, b: bv8)
    ensures Shr8(Xor(c, Wide(b))) == Shr8(c) && Low(Wide(b)) == Wide(b)
  {
  }

  // ---- A byte at a time -------------------------------------------------------------------------

  /** Entry k of the word-wise tables: a byte followed by k zero bytes. */
  function Table(k: nat, x: bv32): bv32 { Shifts(x, 8 * (k + 1)) }

  /** The byte-wise method. */
  function Update(c: bv32, b: bv8): bv32 {
    Xor(Table(0, Low(Xor(c, Wide(b)))), Shr8(c))
  }

  /** The byte-wise method is eight steps of the register. */
  lemma UpdateIsShifts(c: bv32, b: bv8)
    ensures Update(c, b) == Shifts(Xor(c, Wide(b)), 8)
  {
    hide Xor, Low, High, Shr8, Wide, Shifts;
    var x := Xor(c, Wide(b));
    SplitLow(x);
    ShiftsLinear(Low(x), High(x), 8);
    EightDown(High(x));
    ByteParts(c, b);
  }

  /** The bit-serial register: the low k bits of x are fed in, lowest first. */
  function Serial(c: bv32, x: bv32, k: nat): bv32
  {
    if k == 0 then c else Shift(Xor(Serial(c, x, k - 1), Bit(Halves(x, k - 1))))
  }

  function Bit(x: bv32): bv32 { x & 1 }
  function Halves(x: bv32, k: nat): bv32 { if k == 0 then x else Half(Halves(x, k - 1)) }

  lemma BitOff(y: bv32)
    ensures Xor(Bit(y), Xor(y, Bit(y))) == y && !Odd(Xor(y, Bit(y))) && Half(Xor(y, Bit(y))) == Half(y)
  {
  }

  /** Feeding bits one at a time, or all at once at the beginning. */
  lemma {:induction false} SerialIs(c: bv32, x: bv32, k: nat)
    ensures Shifts(Xor(c, x), k) == Xor(Serial(c, x, k), Halves(x, k))
  {
    if k > 0 {
      hide Xor, Bit, Half, Odd;
      SerialIs(c, x, k - 1);
      var s, y := Serial(c, x, k - 1), Halves(x, k - 1);
      BitOff(y);
      XorLaws(s, Bit(y), Xor(y, Bit(y)));
      var rest := Xor(y, Bit(y));
      assert Xor(s, y) == Xor(Xor(s, Bit(y)), rest);
      ShiftLinear(Xor(s, Bit(y)), rest);
    }
  }

  lemma ByteGone(b: bv8)
    ensures Halves(Wide(b), 8) == 0
  {
    var x := Wide(b);
    assert Halves(x, 1) == x >> 1;
    assert Halves(x, 2) == x >> 2;
    assert Halves(x, 3) == x >> 3;
    assert Halves(x, 4) == x >> 4;
    assert Halves(x, 5) == x >> 5;
    assert Halves(x, 6) == x >> 6;
    assert Halves(x, 7) == x >> 7;
    assert Halves(x, 8) == x >> 8;
  }

  /** The byte-wise method computes what the bit-serial register computes. */
  lemma UpdateIsSerial(c: bv32, b: bv8)
    ensures Update(c, b) == Serial(c, Wide(b), 8)
  {
    UpdateIsShifts(c, b);
    hide Update, Serial, Shifts, Halves, Xor, Wide;
    SerialIs(c, Wide(b), 8);
    ByteGone(b);
    XorZero(Serial(c, Wide(b), 8));
  }

  function Bytes(c: bv32, buf: seq<bv8>): bv32 {
    if buf == [] then c else Update(Bytes(c, buf[..|buf| - 1]), buf[|buf| - 1])
  }

  lemma {:induction false} BytesConcat(c: bv32, a: seq<bv8>, b: seq<bv8>)
    ensures Bytes(c, a + b) == Bytes(Bytes(c, a), b)
  {
    hide Update;
    if b == [] {
      assert a + b == a;
    } else {
      BytesConcat(c, a, b[..|b| - 1]);
      assert (a + b)[..|a + b| - 1] == a + b[..|b| - 1];
    }
  }

  // ---- A word at a time -------------------------------------------------------------------------

  /** Four bytes as a little-endian machine reads them. */
  function Word(b0: bv8, b1: bv8, b2: bv8, b3: bv8): bv32 {
    Xor(Wide(b0), Xor(Wide(b1) << 8, Xor(Wide(b2) << 16, Wide(b3) << 24)))
  }

  lemma ByteUp(b: bv8)
    ensures Low(Wide(b) << 8) == 0 && Shr8(Wide(b) << 8) == Wide(b)
    ensures Low(Wide(b) << 16) == 0 && Shr8(Wide(b) << 16) == Wide(b) << 8
    ensures Low(Wide(b) << 24) == 0 && Shr8(Wide(b) << 24) == Wide(b) << 16
  {
  }

  function Up(b: bv8, k: nat): bv32
    requires k <= 3
  {
    if k == 0 then Wide(b) else if k == 1 then Wide(b) << 8 else if k == 2 then Wide(b) << 16 else Wide(b) << 24
  }

  lemma UpDown(b: bv8, k: nat)
    requires 1 <= k <= 3
    ensures Shifts(Up(b, k), 8) == Up(b, k - 1)
  {
    ByteUp(b);
    EightDown(Up(b, k));
  }

  /** A byte k places up in the word needs k times eight steps to come down. */
  lemma {:induction false} UpDownAll(b: bv8, k: nat)
    requires k <= 3
    ensures Shifts(Up(b, k), 8 * k) == Wide(b)
  {
    if k > 0 {
      hide Up, Shifts, Wide;
      UpDown(b, k);
      UpDownAll(b, k - 1);
      ShiftsAdd(Up(b, k), 8, 8 * (k - 1));
    } else {
      assert Shifts(Up(b, 0), 0) == Wide(b);
    }
  }

  /** Feeding a byte after k bytes, or k places further up at the beginning. */
  lemma FeedUp(x: bv32, b: bv8, k: nat)
    requires k <= 3
    ensures Update(Shifts(x, 8 * k), b) == Shifts(Xor(x, Up(b, k)), 8 * (k + 1))
  {
    hide Update, Shifts, Xor, Up, Wide;
    UpdateIsShifts(Shifts(x, 8 * k), b);
    UpDownAll(b, k);
    ShiftsLinear(x, Up(b, k), 8 * k);
    ShiftsAdd(Xor(x, Up(b, k)), 8 * k, 8);
  }

  lemma WordIs(b0: bv8, b1: bv8, b2: bv8, b3: bv8, c: bv32)
    ensures Xor(Xor(Xor(Xor(c, Up(b0, 0)), Up(b1, 1)), Up(b2, 2)), Up(b3, 3)) == Xor(c, Word(b0, b1, b2, b3))
  {
    var u0, u1, u2, u3 := Up(b0, 0), Up(b1, 1), Up(b2, 2), Up(b3, 3);
    assert Word(b0, b1, b2, b3) == Xor(u0, Xor(u1, Xor(u2, u3)));
    hide Xor, Up, Word;
    XorAssoc(Xor(Xor(c, u0), u1), u2, u3);
    XorAssoc(Xor(c, u0), u1, Xor(u2, u3));
    XorAssoc(c, u0, Xor(u1, Xor(u2, u3)));
  }

  /** Four bytes, one after the other, are thirty-two steps of the register with the word fed in at the beginning. */
  lemma FourBytes(c: bv32, b0: bv8, b1: bv8, b2: bv8, b3: bv8)
    ensures Bytes(c, [b0, b1, b2, b3]) == Shifts(Xor(c, Word(b0, b1, b2, b3)), 32)
  {
    FourUpdates(c, b0, b1, b2, b3);
    hide Update, Shifts, Xor, Up, Word, Bytes;
    assert Shifts(c, 8 * 0) == c by { NoShifts(c); }
    FeedUp(c, b0, 0);
    FeedUp(Xor(c, Up(b0, 0)), b1, 1);
    FeedUp(Xor(Xor(c, Up(b0, 0)), Up(b1, 1)), b2, 2);
    FeedUp(Xor(Xor(Xor(c, Up(b0, 0)), Up(b1, 1)), Up(b2, 2)), b3, 3);
    WordIs(b0, b1, b2, b3, c);
  }

  lemma NoShifts(c: bv32)
    ensures Shifts(c, 0) == c
  {
  }

  lemma FourUpdates(c: bv32, b0: bv8, b1: bv8, b2: bv8, b3: bv8)
    ensures Bytes(c, [b0, b1, b2, b3]) == Update(Update(Update(Update(c, b0), b1), b2), b3)
  {
    hide Update, Bytes;
    assert [b0, b1, b2, b3] == [b0, b1, b2] + [b3] && [b0, b1, b2] == [b0, b1] + [b2] && [b0, b1] == [b0] + [b1] &&
           [b0] == [] + [b0];
    BytesNext(c, [], b0);
    BytesNext(c, [b0], b1);
    BytesNext(c, [b0, b1], b2);
    BytesNext(c, [b0, b1, b2], b3);
    NoBytes(c);
  }

  lemma NoBytes(c: bv32)
    ensures Bytes(c, []) == c
  {
  }

  lemma BytesNext(c: bv32, s: seq<bv8>, b: bv8)
    ensures Bytes(c, s + [b]) == Update(Bytes(c, s), b)
  {
    assert (s + [b])[..|s|] == s;
  }

  /** The k-th byte of a word from below. */
  function Part(x: bv32, k: nat): bv32
    requires k <= 3
  {
    if k == 0 then x & 0xff else if k == 1 then (x >> 8) & 0xff else if k == 2 then (x >> 16) & 0xff else x >> 24
  }

  function ByteAt(x: bv32, k: nat): bv8
    requires k <= 3
  {
    (Part(x, k) & 0xff) as bv8
  }

  /** Four table look-ups: slicing by four. */
  function Sliced(x: bv32): bv32 {
    Xor(Xor(Xor(Table(3, Part(x, 0)), Table(2, Part(x, 1))), Table(1, Part(x, 2))), Table(0, Part(x, 3)))
  }

  lemma BytesAre(x: bv32)
    ensures Wide(ByteAt(x, 0)) == Part(x, 0) && Wide(ByteAt(x, 1)) == Part(x, 1) && Wide(ByteAt(x, 2)) == Part(x, 2) &&
            Wide(ByteAt(x, 3)) == Part(x, 3)
  {
  }

  lemma UpIsTable(b: bv8, k: nat)
    requires k <= 3
    ensures Shifts(Up(b, k), 32) == Table(3 - k, Wide(b))
  {
    hide Shifts, Up, Wide;
    UpDownAll(b, k);
    ShiftsAdd(Up(b, k), 8 * k, 8 * (3 - k + 1));
  }

  /** Slicing by four is thirty-two steps of the register. */
  lemma SlicedIs(x: bv32)
    ensures Sliced(x) == Shifts(x, 32)
  {
    BytesAre(x);
    UpsOfBytes(x);
    hide *;
    SlicedParts(x, ByteAt(x, 0), ByteAt(x, 1), ByteAt(x, 2), ByteAt(x, 3));
  }

  lemma UpsOfBytes(x: bv32)
    ensures Xor(Xor(Xor(Up(ByteAt(x, 0), 0), Up(ByteAt(x, 1), 1)), Up(ByteAt(x, 2), 2)), Up(ByteAt(x, 3), 3)) == x
  {
  }

  lemma SlicedParts(x: bv32, b0: bv8, b1: bv8, b2: bv8, b3: bv8)
    requires Xor(Xor(Xor(Up(b0, 0), Up(b1, 1)), Up(b2, 2)), Up(b3, 3)) == x
    requires Wide(b0) == Part(x, 0) && Wide(b1) == Part(x, 1) && Wide(b2) == Part(x, 2) && Wide(b3) == Part(x, 3)
    ensures Sliced(x) == Shifts(x, 32)
  {
    hide Shifts, Up, Wide, Xor, Table, Part;
    var u0, u1, u2, u3 := Up(b0, 0), Up(b1, 1), Up(b2, 2), Up(b3, 3);
    ShiftsLinear(u0, u1, 32);
    ShiftsLinear(Xor(u0, u1), u2, 32);
    ShiftsLinear(Xor(Xor(u0, u1), u2), u3, 32);
    UpIsTable(b0, 0);
    UpIsTable(b1, 1);
    UpIsTable(b2, 2);
    UpIsTable(b3, 3);
  }

  /** A word at a time gives what four bytes give. */
  lemma WordStep(c: bv32, b0: bv8, b1: bv8, b2: bv8, b3: bv8)
    ensures Sliced(Xor(c, Word(b0, b1, b2, b3))) == Bytes(c, [b0, b1, b2, b3])
  {
    hide Sliced, Bytes, Shifts, Xor, Word;
    FourBytes(c, b0, b1, b2, b3);
    SlicedIs(Xor(c, Word(b0, b1, b2, b3)));
  }

  // ---- Big-endian machines ----------------------------------------------------------------------

  /** REV: the bytes in reverse order. */
  function Rev(w: bv32): bv32 { (w >> 24) + ((w >> 8) & 0xff00) + ((w & 0xff00) << 8) + ((w & 0xff) << 24) }

  function Not(w: bv32): bv32 { !w }

  function RevOr(w: bv32): bv32 { (w >> 24) | ((w >> 8) & 0xff00) | ((w & 0xff00) << 8) | ((w & 0xff) << 24) }

  lemma RevIs(w: bv32)
    ensures Rev(w) == RevOr(w)
  {
  }

  lemma RevOrXor(a: bv32, b: bv32)
    ensures RevOr(a ^ b) == RevOr(a) ^ RevOr(b)
  {
  }

  lemma RevXor(a: bv32, b: bv32)
    ensures Rev(Xor(a, b)) == Xor(Rev(a), Rev(b))
  {
    hide Rev, RevOr;
    RevIs(a);
    RevIs(b);
    RevIs(Xor(a, b));
    RevOrXor(a, b);
  }

  lemma RevOrTwice(w: bv32)
    ensures RevOr(RevOr(w)) == w && RevOr(Not(w)) == Not(RevOr(w))
  {
  }

  lemma RevTwice(w: bv32)
    ensures Rev(Rev(w)) == w && Rev(Not(w)) == Not(Rev(w))
  {
    hide Rev, RevOr, Not;
    RevIs(w);
    RevIs(Rev(w));
    RevIs(Not(w));
    RevOrTwice(w);
  }

  lemma RevOrParts(x: bv32)
    ensures Part(RevOr(x), 0) == Part(x, 3) && Part(RevOr(x), 1) == Part(x, 2) && Part(RevOr(x), 2) == Part(x, 1) &&
            Part(RevOr(x), 3) == Part(x, 0)
  {
  }

  function Or(a: bv32, b: bv32): bv32 { a | b }
  function Byte0Up(x: bv32): bv32 { (x & 0xff) << 24 }
  function Byte1Up(x: bv32): bv32 { (x & 0xff00) << 8 }
  function Byte2Down(x: bv32): bv32 { (x >> 8) & 0xff00 }
  function Byte3Down(x: bv32): bv32 { x >> 24 }

  lemma OrUp(a: bv32, b: bv32)
    ensures Shl8(Or(a, b)) == Or(Shl8(a), Shl8(b))
  {
  }

  lemma OrZero(a: bv32)
    ensures Or(a, 0) == a && Or(0, a) == a
  {
  }

  lemma PartsUp(x: bv32)
    ensures Shl8(Byte3Down(x)) == Byte2Down(Shr8(x)) && Shl8(Byte2Down(x)) == Byte1Up(Shr8(x))
    ensures Shl8(Byte1Up(x)) == Byte0Up(Shr8(x)) && Shl8(Byte0Up(x)) == 0 && Byte3Down(Shr8(x)) == 0
  {
  }

  lemma RevOrIs(x: bv32)
    ensures RevOr(x) == Or(Or(Or(Byte3Down(x), Byte2Down(x)), Byte1Up(x)), Byte0Up(x))
  {
  }

  lemma RevOrUp(x: bv32)
    ensures Shl8(RevOr(x)) == RevOr(Shr8(x))
  {
    hide RevOr, Or, Byte0Up, Byte1Up, Byte2Down, Byte3Down, Shl8, Shr8;
    RevOrIs(x);
    RevOrIs(Shr8(x));
    PartsUp(x);
    OrUp(Byte3Down(x), Byte2Down(x));
    OrUp(Or(Byte3Down(x), Byte2Down(x)), Byte1Up(x));
    OrUp(Or(Or(Byte3Down(x), Byte2Down(x)), Byte1Up(x)), Byte0Up(x));
    OrZero(Byte2Down(Shr8(x)));
    OrZero(Or(Or(Byte2Down(Shr8(x)), Byte1Up(Shr8(x))), Byte0Up(Shr8(x))));
  }

  function Shl8(c: bv32): bv32 { c << 8 }

  lemma RevParts(x: bv32)
    ensures Part(Rev(x), 0) == Part(x, 3) && Part(Rev(x), 1) == Part(x, 2) && Part(Rev(x), 2) == Part(x, 1) &&
            Part(Rev(x), 3) == Part(x, 0)
    ensures Shl8(Rev(x)) == Rev(Shr8(x))
  {
    hide Rev, RevOr, Part, Shl8, Shr8;
    RevIs(x);
    RevIs(Shr8(x));
    RevOrParts(x);
    RevOrUp(x);
  }

  function BigUpdate(c: bv32, b: bv8): bv32 { Xor(Rev(Table(0, Xor(Part(c, 3), Wide(b)))), Shl8(c)) }

  function BigSliced(x: bv32): bv32 {
    Xor(Xor(Xor(Rev(Table(0, Part(x, 0))), Rev(Table(1, Part(x, 1)))), Rev(Table(2, Part(x, 2)))),
        Rev(Table(3, Part(x, 3))))
  }

  lemma LowXor(c: bv32, b: bv8)
    ensures Low(Xor(c, Wide(b))) == Xor(Part(c, 0), Wide(b))
  {
  }

  /** On reversed registers the big-endian byte step is the byte step. */
  lemma BigUpdateIs(d: bv32, b: bv8)
    ensures BigUpdate(Rev(d), b) == Rev(Update(d, b))
  {
    hide Rev, Xor, Table, Wide, Low, Shr8, Shl8, Part;
    RevParts(d);
    LowXor(d, b);
    RevXor(Table(0, Low(Xor(d, Wide(b)))), Shr8(d));
  }

  lemma XorReorder(a: bv32, b: bv32, c: bv32, d: bv32)
    ensures Xor(Xor(Xor(a, b), c), d) == Xor(Xor(Xor(d, c), b), a)
  {
    hide Xor;
    XorComm(a, b);
    XorAssoc(b, a, c);
    XorComm(a, c);
    XorAssoc(b, c, a);
    XorComm(b, c);
    XorAssoc(Xor(c, b), a, d);
    XorComm(a, d);
    XorAssoc(Xor(c, b), d, a);
    XorComm(Xor(c, b), d);
    XorAssoc(d, c, b);
  }

  /** And the big-endian word step is the word step. */
  lemma BigSlicedIs(x: bv32)
    ensures BigSliced(Rev(x)) == Rev(Sliced(x))
  {
    hide Rev, Xor, Table, Part;
    RevParts(x);
    var t3, t2, t1, t0 := Table(3, Part(x, 0)), Table(2, Part(x, 1)), Table(1, Part(x, 2)), Table(0, Part(x, 3));
    RevXor(t3, t2);
    RevXor(Xor(t3, t2), t1);
    RevXor(Xor(Xor(t3, t2), t1), t0);
    XorReorder(Rev(t3), Rev(t2), Rev(t1), Rev(t0));
  }

  // ---- The tables -------------------------------------------------------------------------------

  /** The polynomial's terms below x^32. */
  const TERMS: seq<nat> := [0, 1, 2, 4, 5, 7, 8, 10, 11, 12, 16, 22, 23, 26]

  function TermBit(t: nat): bv32 { if t == 0 then 0x8000_0000 else TermBit(t - 1) >> 1 }

  function PolyOf(
      terms: seq<nat>): bv32 { if terms == [] then 0 else PolyOf(terms[..|terms| - 1]) | TermBit(terms[|terms| - 1]) }

  function Lookup(table: seq<seq<bv32>>, k: nat, x: bv32): bv32
    requires k < |table|
  {
    if x as int < |table[k]| then table[k][x as int] else 0
  }

  ghost predicate Byte(x: bv32) { x as int < 256 }

  /** Tables 0 to 3 hold the word-wise entries, tables 4 to 7 the same with their bytes reversed. */
  ghost predicate TableOk(table: seq<seq<bv32>>) {
    |table| == 8 &&
    forall k: nat, x: bv32 {:trigger Lookup(table, k, x)} ::
      k < 4 && Byte(x) ==> Lookup(table, k, x) == Table(k, x) && Lookup(table, k + 4, x) == Rev(Table(k, x))
  }

  ghost predicate RowOk(row: seq<bv32>, k: nat, reversed: bool) {
    |row| == 256 &&
    forall n: int {:trigger row[n]} ::
      0 <= n < 256 ==> row[n] == if reversed then Rev(Table(k, n as bv32)) else Table(k, n as bv32)
  }

  lemma RowLookup(table: seq<seq<bv32>>, j: nat, k: nat, reversed: bool, x: bv32)
    requires j < |table| && RowOk(table[j], k, reversed) && Byte(x)
    ensures Lookup(table, j, x) == if reversed then Rev(Table(k, x)) else Table(k, x)
  {
    hide Rev, Table;
    var n := x as int;
    assert n as bv32 == x;
  }

  lemma RowsOk(table: seq<seq<bv32>>)
    requires |table| == 8 && forall k :: 0 <= k < 4 ==> RowOk(table[k], k, false) && RowOk(table[k + 4], k, true)
    ensures TableOk(table)
  {
    hide Rev, Table, RowOk, Byte, Lookup;
    forall k: nat, x: bv32 | k < 4 && Byte(x)
      ensures Lookup(table, k, x) == Table(k, x) && Lookup(table, k + 4, x) == Rev(Table(k, x))
    {
      RowLookup(table, k, k, false, x);
      RowLookup(table, k + 4, k, true, x);
    }
  }

  lemma {:induction false} TableNext(k: nat, x: bv32)
    ensures Xor(Table(0, Low(Table(k, x))), Shr8(Table(k, x))) == Table(k + 1, x)
  {
    var c := Table(k, x);
    assert Xor(c, Wide(0)) == c by { assert Wide(0) == 0; XorZero(c); }
    hide Xor, Low, Shr8, Shifts, Wide;
    UpdateIsShifts(c, 0);
    ShiftsAdd(x, 8 * (k + 1), 8);
  }

  /** make_crc_table: the entry of the first table, bit by bit. */
  method FirstEntry(n: bv32) returns (c: bv32)
    ensures c == Table(0, n)
  {
    c := n;
    for k := 0 to 8
      invariant c == Shifts(n, k)
    {
      c := if c & 1 != 0 then POLY ^ (c >> 1) else c >> 1;
      assert c == Shift(Shifts(n, k));
    }
  }

  method FirstTable() returns (row: seq<bv32>)
    ensures RowOk(row, 0, false)
  {
    hide Table;
    row := [];
    for n := 0 to 256
      invariant |row| == n && forall m: int {:trigger row[m]} :: 0 <= m < n ==> row[m] == Table(0, m as bv32)
    {
      var c := FirstEntry(n as bv32);
      row := row + [c];
    }
  }

  /** One more zero byte behind every entry. */
  method NextTable(first: seq<bv32>, row: seq<bv32>, k: nat) returns (next: seq<bv32>)
    requires RowOk(first, 0, false) && RowOk(row, k, false)
    ensures RowOk(next, k + 1, false)
  {
    hide Table, Xor, Low, Shr8;
    next := [];
    for n := 0 to 256
      invariant |next| == n && forall m: int {:trigger next[m]} :: 0 <= m < n ==> next[m] == Table(k + 1, m as bv32)
    {
      var c := row[n];
      LowByte(c);
      RowLookup([first], 0, 0, false, Low(c));
      TableNext(k, n as bv32);
      next := next + [Xor(Lookup([first], 0, Low(c)), Shr8(c))];
    }
  }

  lemma LowByte(c: bv32)
    ensures Byte(Low(c))
  {
  }

  method Reversed(row: seq<bv32>, k: nat) returns (rev: seq<bv32>)
    requires RowOk(row, k, false)
    ensures RowOk(rev, k, true)
  {
    hide Table, Rev;
    rev := [];
    for n := 0 to 256
      invariant |rev| == n && forall m: int {:trigger rev[m]} :: 0 <= m < n ==> rev[m] == Rev(Table(k, m as bv32))
    {
      rev := rev + [Rev(row[n])];
    }
  }

  method MakeCrcTable() returns (table: seq<seq<bv32>>)
    ensures TableOk(table)
  {
    hide RowOk, Table, TableOk;
    var t0 := FirstTable();
    var t1 := NextTable(t0, t0, 0);
    var t2 := NextTable(t0, t1, 1);
    var t3 := NextTable(t0, t2, 2);
    var r0 := Reversed(t0, 0);
    var r1 := Reversed(t1, 1);
    var r2 := Reversed(t2, 2);
    var r3 := Reversed(t3, 3);
    table := [t0, t1, t2, t3, r0, r1, r2, r3];
    RowsOk(table);
  }

  /** The terms give the exclusive-or pattern. */
  lemma PolyIs()
    ensures PolyOf(TERMS) == POLY
  {
    TermBits();
    hide TermBit, PolyOf;
    PolyNone();
    PolyNext([], 0, [0], 0x0, 0x80000000);
    PolyNext([0], 1, [0, 1], 0x80000000, 0xc0000000);
    PolyNext([0, 1], 2, [0, 1, 2], 0xc0000000, 0xe0000000);
    PolyNext([0, 1, 2], 4, [0, 1, 2, 4], 0xe0000000, 0xe8000000);
    PolyNext([0, 1, 2, 4], 5, [0, 1, 2, 4, 5], 0xe8000000, 0xec000000);
    PolyNext([0, 1, 2, 4, 5], 7, [0, 1, 2, 4, 5, 7], 0xec000000, 0xed000000);
    PolyNext([0, 1, 2, 4, 5, 7], 8, [0, 1, 2, 4, 5, 7, 8], 0xed000000, 0xed800000);
    PolyNext([0, 1, 2, 4, 5, 7, 8], 10, [0, 1, 2, 4, 5, 7, 8, 10], 0xed800000, 0xeda00000);
    PolyNext([0, 1, 2, 4, 5, 7, 8, 10], 11, [0, 1, 2, 4, 5, 7, 8, 10, 11], 0xeda00000, 0xedb00000);
    PolyNext([0, 1, 2, 4, 5, 7, 8, 10, 11], 12, [0, 1, 2, 4, 5, 7, 8, 10, 11, 12], 0xedb00000, 0xedb80000);
    PolyNext([0, 1, 2, 4, 5, 7, 8, 10, 11, 12], 16, [0, 1, 2, 4, 5, 7, 8, 10, 11, 12, 16], 0xedb80000, 0xedb88000);
    PolyNext([0, 1, 2, 4, 5, 7, 8, 10, 11, 12, 16], 22, [0, 1, 2, 4, 5, 7, 8, 10, 11, 12, 16, 22], 0xedb88000,
        0xedb88200);
    PolyNext([0, 1, 2, 4, 5, 7, 8, 10, 11, 12, 16, 22], 23, [0, 1, 2, 4, 5, 7, 8, 10, 11, 12, 16, 22, 23], 0xedb88200,
        0xedb88300);
    PolyNext([0, 1, 2, 4, 5, 7, 8, 10, 11, 12, 16, 22, 23], 26, [0, 1, 2, 4, 5, 7, 8, 10, 11, 12, 16, 22, 23, 26],
        0xedb88300, 0xedb88320);
  }

  lemma PolyNone()
    ensures PolyOf([]) == 0
  {
  }

  lemma PolyNext(terms: seq<nat>, t: nat, more: seq<nat>, p: bv32, q: bv32)
    requires PolyOf(terms) == p && p | TermBit(t) == q && more == terms + [t]
    ensures PolyOf(more) == q
  {
    assert more[..|terms|] == terms;
  }

  lemma TermBits()
    ensures TermBit(0) == 0x8000_0000 && TermBit(1) == 0x4000_0000 && TermBit(2) == 0x2000_0000 &&
            TermBit(4) == 0x800_0000 && TermBit(5) == 0x400_0000
    ensures TermBit(7) == 0x100_0000 && TermBit(8) == 0x80_0000 && TermBit(10) == 0x20_0000 &&
            TermBit(11) == 0x10_0000 && TermBit(12) == 0x8_0000
    ensures TermBit(16) == 0x8000 && TermBit(22) == 0x200 && TermBit(23) == 0x100 && TermBit(26) == 0x20
  {
    assert TermBit(5) == 0x400_0000;
    assert TermBit(10) == 0x20_0000;
    assert TermBit(16) == 0x8000;
    assert TermBit(22) == 0x200;
  }

  // ---- The programs -----------------------------------------------------------------------------

  /** The CRC of a buffer, continuing from `crc`: the register starts and ends inverted. */
  function Crc(crc: bv32, buf: seq<bv8>): bv32 { Not(Bytes(Not(crc), buf)) }

  /** The CRC of a concatenation is the CRC of the second part continued from that of the first. */
  lemma CrcChain(crc: bv32, a: seq<bv8>, b: seq<bv8>)
    ensures Crc(Crc(crc, a), b) == Crc(crc, a + b)
  {
    hide Bytes, Not;
    NotTwice(Bytes(Not(crc), a));
    BytesConcat(Not(crc), a, b);
  }

  lemma NotTwice(x: bv32)
    ensures Not(Not(x)) == x
  {
  }

  /** The bit-serial register over a whole buffer. */
  function SerialBytes(c: bv32, buf: seq<bv8>): bv32 {
    if buf == [] then c else Serial(SerialBytes(c, buf[..|buf| - 1]), Wide(buf[|buf| - 1]), 8)
  }

  lemma {:induction false} BytesAreSerial(c: bv32, buf: seq<bv8>)
    ensures Bytes(c, buf) == SerialBytes(c, buf)
  {
    hide Update, Serial, Wide;
    if buf != [] {
      BytesAreSerial(c, buf[..|buf| - 1]);
      UpdateIsSerial(SerialBytes(c, buf[..|buf| - 1]), buf[|buf| - 1]);
    }
  }

  lemma PartByte(x: bv32, k: nat)
    requires k <= 3
    ensures Byte(Part(x, k))
  {
    if k == 3 { assert (x >> 24) & 0xff == x >> 24; }
  }

  lemma XorByte(x: bv32, b: bv8)
    ensures Byte(Xor(Part(x, 3), Wide(b)))
  {
    var y := Xor(Part(x, 3), Wide(b));
    assert y & 0xff == y;
    LowByte(y);
  }

  method ByteLittle(table: seq<seq<bv32>>, c: bv32, b: bv8) returns (r: bv32)
    requires TableOk(table)
    ensures r == Update(c, b)
  {
    hide Xor, Low, Shr8, Wide, Table, Lookup, Byte;
    LowByte(Xor(c, Wide(b)));
    r := Xor(Lookup(table, 0, Low(Xor(c, Wide(b)))), Shr8(c));
  }

  /** DOLIT4 on the word that a little-endian machine reads. */
  method WordLittle(table: seq<seq<bv32>>, c0: bv32, s: seq<bv8>) returns (c: bv32)
    requires TableOk(table) && |s| == 4
    ensures c == Bytes(c0, s)
  {
    hide Xor, Part, Table, Lookup, Byte, Word, Bytes;
    c := Xor(c0, Word(s[0], s[1], s[2], s[3]));
    PartByte(c, 0);
    PartByte(c, 1);
    PartByte(c, 2);
    PartByte(c, 3);
    WordStep(c0, s[0], s[1], s[2], s[3]);
    assert s == [s[0], s[1], s[2], s[3]];
    c := Xor(Xor(Xor(Lookup(table, 3, Part(c, 0)), Lookup(table, 2, Part(c, 1))), Lookup(table, 1, Part(c, 2))),
            Lookup(table, 0, Part(c, 3)));
  }

  method ByteBig(table: seq<seq<bv32>>, c: bv32, b: bv8) returns (r: bv32)
    requires TableOk(table)
    ensures r == BigUpdate(c, b)
  {
    XorByte(c, b);
    hide Xor, Part, Shl8, Wide, Table, Lookup, Byte, Rev;
    assert Lookup(table, 0, Xor(Part(c, 3), Wide(b))) == Table(0, Xor(Part(c, 3), Wide(b)));
    r := Xor(Lookup(table, 4, Xor(Part(c, 3), Wide(b))), Shl8(c));
  }

  /** DOBIG4 on the word that a big-endian machine reads, which is the reversed word. */
  method WordBig(table: seq<seq<bv32>>, c0: bv32, s: seq<bv8>, ghost d: bv32) returns (c: bv32)
    requires TableOk(table) && |s| == 4 && c0 == Rev(d)
    ensures c == Rev(Bytes(d, s))
  {
    hide Xor, Part, Table, Lookup, Byte, Word, Bytes, Rev, Sliced;
    ghost var w := Word(s[0], s[1], s[2], s[3]);
    c := Xor(c0, Rev(Word(s[0], s[1], s[2], s[3])));
    RevXor(d, w);
    PartByte(c, 0);
    PartByte(c, 1);
    PartByte(c, 2);
    PartByte(c, 3);
    WordStep(d, s[0], s[1], s[2], s[3]);
    BigSlicedIs(Xor(d, w));
    assert s == [s[0], s[1], s[2], s[3]];
    assert Lookup(table, 0, Part(c, 0)) == Table(0, Part(c, 0)) &&
           Lookup(table, 1, Part(c, 1)) == Table(1, Part(c, 1)) &&
           Lookup(table, 2, Part(c, 2)) == Table(2, Part(c, 2)) && Lookup(table, 3, Part(c, 3)) == Table(3, Part(c, 3));
    c := Xor(Xor(Xor(Lookup(table, 4, Part(c, 0)), Lookup(table, 5, Part(c, 1))), Lookup(table, 6, Part(c, 2))),
            Lookup(table, 7, Part(c, 3)));
  }

  lemma Forward(c: bv32, buf: seq<bv8>, p: int, q: int)
    requires 0 <= p <= q <= |buf|
    ensures Bytes(c, buf[..q]) == Bytes(Bytes(c, buf[..p]), buf[p..q])
  {
    assert buf[..q] == buf[..p] + buf[p..q];
    BytesConcat(c, buf[..p], buf[p..q]);
  }

  lemma ForwardOne(c: bv32, buf: seq<bv8>, p: int)
    requires 0 <= p < |buf|
    ensures Bytes(c, buf[..p + 1]) == Update(Bytes(c, buf[..p]), buf[p])
  {
    assert buf[..p + 1] == buf[..p] + [buf[p]];
    BytesNext(c, buf[..p], buf[p]);
  }

  // ---- What the CRC is for --------------------------------------------------------------------------

  /** The CRC by the bit-serial register: it starts as the complement of the seed and is complemented in the end. */
  lemma CrcIsSerial(crc: bv32, buf: seq<bv8>)
    ensures Crc(crc, buf) == Xor(SerialBytes(Xor(crc, 0xffff_ffff), buf), 0xffff_ffff)
  {
    hide Bytes, SerialBytes, Not, Xor;
    NotIs(crc);
    BytesAreSerial(Not(crc), buf);
    NotIs(SerialBytes(Not(crc), buf));
  }

  lemma NotIs(x: bv32)
    ensures Not(x) == Xor(x, 0xffff_ffff)
  {
  }

  /** The four bytes of a word, lowest first. */
  function LowestFirst(x: bv32): seq<bv8> {
    [(x & 0xff) as bv8, ((x >> 8) & 0xff) as bv8, ((x >> 16) & 0xff) as bv8, (x >> 24) as bv8]
  }

  lemma LowestFirstIs(x: bv32)
    ensures LowestFirst(x) == [ByteAt(x, 0), ByteAt(x, 1), ByteAt(x, 2), ByteAt(x, 3)]
    ensures Word(ByteAt(x, 0), ByteAt(x, 1), ByteAt(x, 2), ByteAt(x, 3)) == x
  {
    ByteAtHigh(x);
  }

  lemma ByteAtHigh(x: bv32)
    ensures (x >> 24) & 0xff == x >> 24
  {
  }

  /** A buffer followed by its own CRC has the same CRC as any other: the residue. */
  lemma Residue(crc: bv32, buf: seq<bv8>)
    ensures Crc(crc, buf + LowestFirst(Crc(crc, buf))) == 0x2144_df1c
  {
    var c := Bytes(Not(crc), buf);
    var w := Not(c);
    var b0, b1, b2, b3 := ByteAt(w, 0), ByteAt(w, 1), ByteAt(w, 2), ByteAt(w, 3);
    LowestFirstIs(w);
    hide Bytes, Not, LowestFirst, ByteAt, Word, Sliced, Shifts, Xor;
    BytesConcat(Not(crc), buf, [b0, b1, b2, b3]);
    WordStep(c, b0, b1, b2, b3);
    WithComplement(c);
    SlicedIs(0xffff_ffff);
    AllOnes();
    LastNot();
  }

  lemma WithComplement(c: bv32)
    ensures Xor(c, Not(c)) == 0xffff_ffff
  {
  }

  lemma LastNot()
    ensures Not(0xdebb_20e3) == 0x2144_df1c
  {
  }

  lemma AllOnes()
    ensures Shifts(0xffff_ffff, 32) == 0xdebb_20e3
  {
    assert Shifts(0xffff_ffff, 8) == 0x2dfd_1072;
    assert Shifts(0x2dfd_1072, 8) == 0xbe26_ed00;
    assert Shifts(0xbe26_ed00, 8) == 0x00be_26ed;
    assert Shifts(0x00be_26ed, 8) == 0xdebb_20e3;
    hide Shifts;
    ShiftsAdd(0xffff_ffff, 8, 8);
    ShiftsAdd(0xffff_ffff, 16, 8);
    ShiftsAdd(0xffff_ffff, 24, 8);
  }

  /** The CRC of the digits 1 to 9 in ASCII, the usual check value. */
  lemma CheckValue()
    ensures Crc(0, [0x31, 0x32, 0x33, 0x34, 0x35, 0x36, 0x37, 0x38, 0x39]) == 0xcbf4_3926
  {
    NineSteps();
    hide Bytes, Shifts;
    var s := [0x31, 0x32, 0x33, 0x34, 0x35, 0x36, 0x37, 0x38, 0x39];
    NoBytes(0xffff_ffff);
    assert s[..0] == [];
    NextByte(s, 0, 0xffff_ffff, 0x7c23_1048);
    NextByte(s, 1, 0x7c23_1048, 0xb0ac_bb32);
    NextByte(s, 2, 0xb0ac_bb32, 0x77b7_9c2d);
    NextByte(s, 3, 0x77b7_9c2d, 0x641c_1f5c);
    NextByte(s, 4, 0x641c_1f5c, 0x340a_c5e3);
    NextByte(s, 5, 0x340a_c5e3, 0xf68d_2c9e);
    NextByte(s, 6, 0xf68d_2c9e, 0xaffc_9660);
    NextByte(s, 7, 0xaffc_9660, 0x651f_2550);
    NextByte(s, 8, 0x651f_2550, 0x340b_c6d9);
    assert s[..9] == s;
  }

  lemma NextByte(s: seq<bv8>, k: nat, c: bv32, r: bv32)
    requires k < |s| && Bytes(0xffff_ffff, s[..k]) == c && Shifts(Xor(c, Wide(s[k])), 8) == r
    ensures Bytes(0xffff_ffff, s[..k + 1]) == r
  {
    hide Update, Shifts;
    ForwardOne(0xffff_ffff, s, k);
    UpdateIsShifts(c, s[k]);
  }

  lemma NineSteps()
    ensures Shifts(0xffff_ffce, 8) == 0x7c23_1048
    ensures Shifts(0x7c23_107a, 8) == 0xb0ac_bb32
    ensures Shifts(0xb0ac_bb01, 8) == 0x77b7_9c2d
    ensures Shifts(0x77b7_9c19, 8) == 0x641c_1f5c
    ensures Shifts(0x641c_1f69, 8) == 0x340a_c5e3
    ensures Shifts(0x340a_c5d5, 8) == 0xf68d_2c9e
    ensures Shifts(0xf68d_2ca9, 8) == 0xaffc_9660
    ensures Shifts(0xaffc_9658, 8) == 0x651f_2550
    ensures Shifts(0x651f_2569, 8) == 0x340b_c6d9
  {
  }

  /** crc32_little, for a buffer at any alignment: bytes up to a word boundary, words, eight at a time while there are
      eight, and the remaining bytes. */
  method CrcLittle(table: seq<seq<bv32>>, crc: bv32, buf: seq<bv8>, align: nat) returns (r: bv32)
    requires TableOk(table)
    ensures r == Crc(crc, buf)
  {
    hide TableOk, Bytes, Update, Not;
    var c := Not(crc);
    var p := 0;
    NoBytes(Not(crc));
    assert buf[..0] == [];
    while p < |buf| && (align + p) % 4 != 0
      invariant 0 <= p <= |buf| && c == Bytes(Not(crc), buf[..p])
    {
      ForwardOne(Not(crc), buf, p);
      c := ByteLittle(table, c, buf[p]);
      p := p + 1;
    }
    while |buf| - p >= 32
      invariant 0 <= p <= |buf| && c == Bytes(Not(crc), buf[..p])
      decreases |buf| - p
    {
      ghost var start := p;
      for k := 0 to 8
        invariant p == start + 4 * k && c == Bytes(Not(crc), buf[..p])
      {
        Forward(Not(crc), buf, p, p + 4);
        c := WordLittle(table, c, buf[p..p + 4]);
        p := p + 4;
      }
    }
    while |buf| - p >= 4
      invariant 0 <= p <= |buf| && c == Bytes(Not(crc), buf[..p])
    {
      Forward(Not(crc), buf, p, p + 4);
      c := WordLittle(table, c, buf[p..p + 4]);
      p := p + 4;
    }
    while p < |buf|
      invariant 0 <= p <= |buf| && c == Bytes(Not(crc), buf[..p])
    {
      ForwardOne(Not(crc), buf, p);
      c := ByteLittle(table, c, buf[p]);
      p := p + 1;
    }
    assert buf[..p] == buf;
    r := Not(c);
  }

  /** crc32_big: the same with the register reversed. */
  method CrcBig(table: seq<seq<bv32>>, crc: bv32, buf: seq<bv8>, align: nat) returns (r: bv32)
    requires TableOk(table)
    ensures r == Crc(crc, buf)
  {
    hide TableOk, Bytes, Update, Rev, BigUpdate, Not;
    var c := Not(Rev(crc));
    RevTwice(crc);
    var p := 0;
    NoBytes(Not(crc));
    assert buf[..0] == [];
    while p < |buf| && (align + p) % 4 != 0
      invariant 0 <= p <= |buf| && c == Rev(Bytes(Not(crc), buf[..p]))
    {
      ForwardOne(Not(crc), buf, p);
      BigUpdateIs(Bytes(Not(crc), buf[..p]), buf[p]);
      c := ByteBig(table, c, buf[p]);
      p := p + 1;
    }
    while |buf| - p >= 32
      invariant 0 <= p <= |buf| && c == Rev(Bytes(Not(crc), buf[..p]))
      decreases |buf| - p
    {
      ghost var start := p;
      for k := 0 to 8
        invariant p == start + 4 * k && c == Rev(Bytes(Not(crc), buf[..p]))
      {
        Forward(Not(crc), buf, p, p + 4);
        c := WordBig(table, c, buf[p..p + 4], Bytes(Not(crc), buf[..p]));
        p := p + 4;
      }
    }
    while |buf| - p >= 4
      invariant 0 <= p <= |buf| && c == Rev(Bytes(Not(crc), buf[..p]))
    {
      Forward(Not(crc), buf, p, p + 4);
      c := WordBig(table, c, buf[p..p + 4], Bytes(Not(crc), buf[..p]));
      p := p + 4;
    }
    while p < |buf|
      invariant 0 <= p <= |buf| && c == Rev(Bytes(Not(crc), buf[..p]))
    {
      ForwardOne(Not(crc), buf, p);
      BigUpdateIs(Bytes(Not(crc), buf[..p]), buf[p]);
      c := ByteBig(table, c, buf[p]);
      p := p + 1;
    }
    assert buf[..p] == buf;
    RevTwice(Bytes(Not(crc), buf));
    RevTwice(Crc(crc, buf));
    r := Rev(Not(c));
  }

  /** crc32: a missing buffer has the CRC 0; otherwise the tables are made and the method for the machine is used. */
  method Crc32(crc: bv32, buf: seq<bv8>, missing: bool, align: nat, littleEndian: bool) returns (r: bv32)
    ensures missing ==> r == 0
    ensures !missing ==> r == Crc(crc, buf) == Xor(SerialBytes(Xor(crc, 0xffff_ffff), buf), 0xffff_ffff)
  {
    hide Crc, SerialBytes, Xor;
    if missing { return 0; }
    CrcIsSerial(crc, buf);
    var table := MakeCrcTable();
    if littleEndian { r := CrcLittle(table, crc, buf, align); } else { r := CrcBig(table, crc, buf, align); }
  }
}
