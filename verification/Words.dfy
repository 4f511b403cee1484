/** 32-bit words and the C operators on them.  A word is a natural number below 2^32.  Each operator
    is defined one bit at a time over a given width, so what it does to single bits follows by
    induction on that width. */
module Words {

  const WIDTH: nat := 32
  const ALL_ONES: nat := 0xFFFF_FFFF

  type Word = w: nat | w <= ALL_ONES

  function Power(n: nat): (p: nat)
    ensures p >= 1
  {
    if n == 0 then 1 else 2 * Power(n - 1)
  }

  /** Bit k of w, least significant first. */
  predicate Bit(w: nat, k: nat)
  {
    if k == 0 then w % 2 == 1 else Bit(w / 2, k - 1)
  }

  function ShiftRight(w: nat, s: nat): (r: nat)
    ensures r <= w
    ensures forall k: nat :: Bit(r, k) <==> Bit(w, k + s)
  {
    if s == 0 then w else ShiftRight(w / 2, s - 1)
  }

  function ShiftLeft(w: nat, s: nat, width: nat): (r: nat)
    ensures r < Power(width)
    ensures forall k: nat :: Bit(r, k) <==> s <= k < width && Bit(w, k - s)
  {
    if width == 0 then ZeroHasNoBits(); 0
    else if s > 0 then Doubled(ShiftLeft(w, s - 1, width - 1), 0)
    else Doubled(ShiftLeft(w / 2, 0, width - 1), w % 2)
  }

  function Or(v: nat, w: nat, width: nat): (r: nat)
    ensures r < Power(width)
    ensures forall k: nat :: Bit(r, k) <==> k < width && (Bit(v, k) || Bit(w, k))
  {
    if width == 0 then ZeroHasNoBits(); 0
    else Doubled(Or(v / 2, w / 2, width - 1), if v % 2 == 1 || w % 2 == 1 then 1 else 0)
  }

  function And(v: nat, w: nat, width: nat): (r: nat)
    ensures r < Power(width)
    ensures forall k: nat :: Bit(r, k) <==> k < width && Bit(v, k) && Bit(w, k)
  {
    if width == 0 then ZeroHasNoBits(); 0
    else Doubled(And(v / 2, w / 2, width - 1), if v % 2 == 1 && w % 2 == 1 then 1 else 0)
  }

  function Not(w: nat, width: nat): (r: nat)
    ensures r < Power(width)
    ensures forall k: nat :: Bit(r, k) <==> k < width && !Bit(w, k)
  {
    if width == 0 then ZeroHasNoBits(); 0
    else Doubled(Not(w / 2, width - 1), 1 - w % 2)
  }

  function Xor(v: nat, w: nat, width: nat): (r: nat)
    ensures r < Power(width)
    ensures forall k: nat :: Bit(r, k) <==> k < width && Bit(v, k) != Bit(w, k)
  {
    if width == 0 then ZeroHasNoBits(); 0
    else Doubled(Xor(v / 2, w / 2, width - 1), if v % 2 != w % 2 then 1 else 0)
  }

  /** The number whose lowest bit is low and whose other bits are those of high. */
  function Doubled(high: nat, low: nat): (r: nat)
    requires low < 2
    ensures r == 2 * high + low
    ensures forall k: nat :: Bit(r, k) <==> if k == 0 then low == 1 else Bit(high, k - 1)
  {
    assert (2 * high + low) / 2 == high;
    2 * high + low
  }

  lemma ZeroHasNoBits()
    ensures forall k: nat :: !Bit(0, k)
  {
    forall k: nat ensures !Bit(0, k) { ZeroBit(k); }
  }

  lemma {:induction false} ZeroBit(k: nat)
    ensures !Bit(0, k)
  {
    if k > 0 { ZeroBit(k - 1); }
  }

  lemma Limit()
    ensures Power(WIDTH) == ALL_ONES + 1
  {
    assert Power(8) == 256;
    PowerSum(8, 8);
    PowerSum(16, 16);
  }

  lemma {:induction false} PowerSum(m: nat, n: nat)
    ensures Power(m + n) == Power(m) * Power(n)
  {
    if m > 0 { PowerSum(m - 1, n); }
  }

  lemma {:induction false} OnesBits(n: nat, k: nat)
    ensures Bit(Power(n) - 1, k) <==> k < n
  {
    if n == 0 {
      ZeroBit(k);
    } else {
      var r := Doubled(Power(n - 1) - 1, 1);
      if k > 0 { OnesBits(n - 1, k - 1); }
    }
  }

  /** A word that is not zero has a set bit. */
  lemma {:induction false} SomeBit(w: nat, width: nat) returns (k: nat)
    requires 0 < w < Power(width)
    ensures k < width && Bit(w, k)
  {
    if w % 2 == 1 {
      k := 0;
    } else {
      k := SomeBit(w / 2, width - 1);
      k := k + 1;
    }
  }

  // ----- the operators on 32-bit words

  /** w >> s */
  function Shr(w: Word, s: nat): (r: Word)
    ensures forall k: nat :: Bit(r, k) <==> Bit(w, k + s)
  {
    ShiftRight(w, s)
  }

  /** w << s */
  function Shl(w: Word, s: nat): (r: Word)
    ensures forall k: nat :: Bit(r, k) <==> s <= k < WIDTH && Bit(w, k - s)
  {
    Limit();
    ShiftLeft(w, s, WIDTH)
  }

  /** v | w */
  function BitOr(v: Word, w: Word): (r: Word)
    ensures forall k: nat :: Bit(r, k) <==> k < WIDTH && (Bit(v, k) || Bit(w, k))
  {
    Limit();
    Or(v, w, WIDTH)
  }

  /** v & w */
  function BitAnd(v: Word, w: Word): (r: Word)
    ensures forall k: nat :: Bit(r, k) <==> k < WIDTH && Bit(v, k) && Bit(w, k)
  {
    Limit();
    And(v, w, WIDTH)
  }

  /** v ^ w */
  function BitXor(v: Word, w: Word): (r: Word)
    ensures forall k: nat :: Bit(r, k) <==> k < WIDTH && Bit(v, k) != Bit(w, k)
  {
    Limit();
    Xor(v, w, WIDTH)
  }

  /** ~w */
  function BitNot(w: Word): (r: Word)
    ensures forall k: nat :: Bit(r, k) <==> k < WIDTH && !Bit(w, k)
  {
    Limit();
    Not(w, WIDTH)
  }

  lemma AllOnesBits(k: nat)
    ensures Bit(ALL_ONES, k) <==> k < WIDTH
  {
    Limit();
    OnesBits(WIDTH, k);
  }

  lemma {:induction false} ShiftOneMore(w: nat, s: nat)
    ensures ShiftRight(w, s + 1) == ShiftRight(w, s) / 2
  {
    if s > 0 { ShiftOneMore(w / 2, s - 1); }
  }

  /** BitScanForward: the position of the lowest set bit, found by shifting one bit at a time. */
  method BitScanForward(mask: Word) returns (index: nat, found: bool)
    ensures found <==> mask != 0
    ensures found ==> index < WIDTH && Bit(mask, index) && forall k: nat :: k < index ==> !Bit(mask, k)
  {
    hide Bit;
    index := 0;
    var m := mask;
    if mask != 0 {
      Limit();
      ghost var k := SomeBit(mask, WIDTH);
      while m % 2 == 0
        invariant index <= k
        invariant m == ShiftRight(mask, index)
        invariant forall j: nat :: j < index ==> !Bit(mask, j)
        decreases k - index
      {
        LowBit(m);
        assert Bit(m, 0) <==> Bit(mask, 0 + index);
        ShiftOneMore(mask, index);
        m, index := m / 2, index + 1;
      }
      LowBit(m);
      assert Bit(m, 0) <==> Bit(mask, 0 + index);
    }
    found := m != 0;
  }

  lemma LowBit(w: nat)
    ensures Bit(w, 0) <==> w % 2 == 1
  {
  }
}
