/** get_order of src/buddy.c: round a size up to a power of two by smearing its top bit down. */
module BuddyOrder {
  import opened Params
  import opened Wrappers
  import opened Bits

  function Or(x: nat, y: nat): nat {
    if x == 0 && y == 0 then 0
    else 2 * Or(x / 2, y / 2) + if x % 2 == 1 || y % 2 == 1 then 1 else 0
  }

  /** v |= v >> k for k = 1, 2, 4, 8, 16. */
  function Smear(v: nat): nat {
    var a := Or(v, Shr(v, 1));
    var b := Or(a, Shr(a, 2));
    var c := Or(b, Shr(b, 4));
    var d := Or(c, Shr(c, 8));
    Or(d, Shr(d, 16))
  }

  /** Position of the highest set bit, plus one. */
  function BitLen(v: nat): nat {
    if v == 0 then 0 else 1 + BitLen(v / 2)
  }

  /** Bit j of w tells whether v has a bit among positions j .. j + len - 1. */
  ghost predicate Smeared(w: nat, v: nat, len: nat) {
    forall j: nat :: Bit(w, j) <==> HasBitIn(v, j, len)
  }

  ghost predicate HasBitIn(v: nat, j: nat, len: nat) {
    exists i :: j <= i < j + len && Bit(v, i)
  }

  lemma {:induction false} OrBit(x: nat, y: nat, j: nat)
    ensures Bit(Or(x, y), j) <==> Bit(x, j) || Bit(y, j)
  {
    if x == 0 && y == 0 {
      ZeroHasNoBit(j);
    } else if j > 0 {
      OrBit(x / 2, y / 2, j - 1);
    }
  }

  lemma {:induction false} ShrBit(x: nat, k: nat, j: nat)
    ensures Bit(Shr(x, k), j) <==> Bit(x, j + k)
  {
    if k > 0 { ShrBit(x / 2, k - 1, j); }
  }

  /** One or-shift step doubles the window. */
  lemma SmearStep(w: nat, v: nat, len: nat)
    requires Smeared(w, v, len)
    ensures Smeared(Or(w, Shr(w, len)), v, 2 * len)
  {
    forall j: nat
      ensures Bit(Or(w, Shr(w, len)), j) <==> HasBitIn(v, j, 2 * len)
    {
      OrBit(w, Shr(w, len), j);
      ShrBit(w, len, j);
      assert Bit(w, j) <==> HasBitIn(v, j, len);
      assert Bit(w, j + len) <==> HasBitIn(v, j + len, len);
      if HasBitIn(v, j, 2 * len) {
        var i :| j <= i < j + 2 * len && Bit(v, i);
        if i < j + len { assert HasBitIn(v, j, len); } else { assert HasBitIn(v, j + len, len); }
      }
      if HasBitIn(v, j, len) { var i :| j <= i < j + len && Bit(v, i); assert HasBitIn(v, j, 2 * len); }
      if HasBitIn(v, j + len, len) {
        var i :| j + len <= i < j + len + len && Bit(v, i);
        assert HasBitIn(v, j, 2 * len);
      }
    }
  }

  lemma SmearAll(v: nat)
    ensures Smeared(Smear(v), v, 32)
  {
    var a := Or(v, Shr(v, 1));
    var b := Or(a, Shr(a, 2));
    var c := Or(b, Shr(b, 4));
    var d := Or(c, Shr(c, 8));
    forall j: nat
      ensures Bit(v, j) <==> HasBitIn(v, j, 1)
    {
      if Bit(v, j) { assert HasBitIn(v, j, 1); }
    }
    SmearStep(v, v, 1);
    SmearStep(a, v, 2);
    SmearStep(b, v, 4);
    SmearStep(c, v, 8);
    SmearStep(d, v, 16);
  }

  lemma {:induction false} BitLenBounds(v: nat)
    ensures v < Pow2(BitLen(v)) && (v > 0 ==> Pow2(BitLen(v) - 1) <= v)
    ensures if v > 0 then Bit(v, BitLen(v) - 1) else BitLen(v) == 0
  {
    if v > 0 { BitLenBounds(v / 2); }
  }

  lemma {:induction false} PowersGrow(a: nat, b: nat)
    requires a <= b
    ensures Pow2(a) <= Pow2(b)
  {
    if a < b { PowersGrow(a, b - 1); }
  }

  lemma {:induction false} BitsOfMask(h: nat, j: nat)
    ensures Bit(Pow2(h) - 1, j) <==> j < h
  {
    if h == 0 {
      ZeroHasNoBit(j);
    } else if j > 0 {
      BitsOfMask(h - 1, j - 1);
      assert (Pow2(h) - 1) / 2 == Pow2(h - 1) - 1;
    }
  }

  lemma {:induction false} BitsOfPower(h: nat, j: nat)
    ensures Bit(Pow2(h), j) <==> j == h
  {
    if h == 0 {
      if j > 0 { ZeroHasNoBit(j - 1); }
    } else if j > 0 {
      BitsOfPower(h - 1, j - 1);
    }
  }

  /** Smearing a 32-bit word gives 2^h - 1, where h is its bit length. */
  lemma SmearIsMask(v: nat)
    requires v < UINT
    ensures Smear(v) == Pow2(BitLen(v)) - 1 && BitLen(v) <= 32
  {
    hide Smear;
    var h := BitLen(v);
    SmearAll(v);
    BitLenBounds(v);
    WordSize();
    FitsInIsBelow(v, 32);
    FitsInIsBelow(v, h);
    forall j: nat
      ensures Bit(Smear(v), j) <==> Bit(Pow2(h) - 1, j)
    {
      BitsOfMask(h, j);
      if j < h { assert j <= h - 1 < j + 32 && Bit(v, h - 1); assert HasBitIn(v, j, 32); }
    }
    SameBitsSameWord(Smear(v), Pow2(h) - 1);
  }

  /** get_order on a 32-bit size: the smallest order from MIN_ORD to MAX_ORD whose block holds v bytes.
      The "order too big" panic (None) is reached exactly for zero and for sizes above 2^MAX_ORD. */
  method GetOrder(v: nat) returns (r: Option<nat>)
    requires v < UINT
    ensures r.None? <==> v == 0 || v > Pow2(MAX_ORD)
    ensures r.Some? ==>
              && MIN_ORD <= r.value <= MAX_ORD
              && v <= Pow2(r.value)
              && (r.value == MIN_ORD || Pow2(r.value - 1) < v)
  {
    hide Smear, Bit, Pow2, BitLen;
    var x := (v + UINT - 1) % UINT;
    var p := (Smear(x) + 1) % UINT;
    ghost var h := BitLen(x);
    SmearIsMask(x);
    BitLenBounds(x);
    WordSize();
    if h < 32 { PowersGrow(h, 31); }
    assert p == if h < 32 then Pow2(h) else 0;
    var ord := 0;
    while ord < 32 && !Bit(p, ord)
      invariant 0 <= ord <= h
    {
      BitsOfPower(h, ord);
      ord := ord + 1;
    }
    if ord < 32 {
      if h == 32 { ZeroHasNoBit(ord); }
      BitsOfPower(h, ord);
    }
    assert ord == h;
    OrderInRange(v, x, h);
    if ord < MIN_ORD {
      r := Some(MIN_ORD);
    } else if ord > MAX_ORD {
      r := None;
    } else {
      r := Some(ord);
    }
  }

  lemma OrderInRange(v: nat, x: nat, h: nat)
    requires v < UINT && x == (v + UINT - 1) % UINT && h == BitLen(x)
    ensures v == 0 ==> h == 32
    ensures v > 0 ==> v <= Pow2(h) && (h > 0 ==> Pow2(h - 1) < v)
    ensures v > 0 ==> (v <= Pow2(MAX_ORD) <==> h <= MAX_ORD)
    ensures v > 0 && h <= MIN_ORD ==> v <= Pow2(MIN_ORD)
  {
    hide Pow2, BitLen;
    assert x == if v == 0 then UINT - 1 else v - 1;
    BitLenBounds(x);
    WordSize();
    if v == 0 {
      if h < 32 { PowersGrow(h, 31); }
      if h > 32 { PowersGrow(32, h - 1); }
    } else {
      if h <= MIN_ORD { PowersGrow(h, MIN_ORD); }
      if h <= MAX_ORD { PowersGrow(h, MAX_ORD); } else { PowersGrow(MAX_ORD, h - 1); }
    }
  }
}
