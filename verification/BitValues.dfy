/**
 The number that a 32-bit word stands for, and what shifting, adding and
 combining words does to it. Each fact about bits is proved alone; the facts
 about numbers follow one bit at a time, with the operations on words hidden.
 */
module BitValues {
  type Word = bv32

  /** The number. */
  function Val(x: Word): int {
    x as int
  }

  // ---- Operations, and what they do to bits

  function Half(x: Word): Word {
    x >> 1
  }

  function Twice(x: Word): Word {
    x << 1
  }

  function TwiceAndOne(x: Word): Word {
    (x << 1) | 1
  }

  function Sign(x: Word): Word {
    x >> 31
  }

  predicate Odd(x: Word) {
    x & 1 != 0
  }

  function Plus(x: Word, y: Word): Word {
    x + y
  }

  function Xored(x: Word, y: Word): Word {
    x ^ y
  }

  function Cleared(x: Word, y: Word): Word {
    x & !y
  }

  lemma Range(x: Word)
    ensures 0 <= Val(x) < 0x1_0000_0000
  {
  }

  lemma Zero(x: Word)
    ensures x == 0 <==> Val(x) == 0
  {
  }

  lemma One()
    ensures Val(1) == 1 && Odd(1)
  {
  }

  lemma TwiceVal(z: Word)
    ensures Val(Twice(z)) == 2 * Val(z) - 0x1_0000_0000 * Val(Sign(z))
  {
  }

  lemma TwiceAndOneVal(z: Word)
    ensures Val(TwiceAndOne(z)) == Val(Twice(z)) + 1
  {
  }

  lemma Joined(x: Word)
    ensures x == if Odd(x) then TwiceAndOne(Half(x)) else Twice(Half(x))
    ensures Sign(Half(x)) == 0
  {
  }

  lemma SignVal(z: Word)
    ensures Val(Sign(z)) == if Val(z) < 0x8000_0000 then 0 else 1
  {
    hide *;
    TwiceVal(z);
    Range(z);
    Range(Twice(z));
  }

  /** A word is its upper bits and its lowest bit. */
  lemma Halves(x: Word)
    ensures Val(x) == 2 * Val(Half(x)) + (if Odd(x) then 1 else 0) && 0 <= Val(Half(x)) < 0x8000_0000
  {
    hide *;
    Joined(x);
    TwiceVal(Half(x));
    TwiceAndOneVal(Half(x));
    Zero(Sign(Half(x)));
    Range(x);
    Range(Half(x));
  }

  // ---- Addition

  function Wrap(v: int): int {
    if v < 0x1_0000_0000 then v else v - 0x1_0000_0000
  }

  lemma EvenPlusOne(x: Word)
    requires !Odd(x)
    ensures Half(Plus(x, 1)) == Half(x) && Odd(Plus(x, 1))
  {
  }

  lemma OddPlusOne(x: Word)
    requires Odd(x)
    ensures Plus(x, 1) == Twice(Plus(Half(x), 1))
  {
  }

  lemma {:induction false} PlusOne(x: Word)
    ensures Val(Plus(x, 1)) == Wrap(Val(x) + 1)
    decreases Val(x)
  {
    hide Val, Half, Twice, Sign, Odd, Plus;
    Halves(x);
    if Odd(x) {
      OddPlusOne(x);
      PlusOne(Half(x));
      TwiceVal(Plus(Half(x), 1));
      SignVal(Plus(Half(x), 1));
    } else {
      EvenPlusOne(x);
      Halves(Plus(x, 1));
    }
  }

  /** The word whose bits are those of `v`. */
  function Bits(v: nat): Word {
    if v == 0 then 0 else if v % 2 == 1 then TwiceAndOne(Bits(v / 2)) else Twice(Bits(v / 2))
  }

  lemma {:induction false} BitsVal(v: nat)
    requires v < 0x1_0000_0000
    ensures Val(Bits(v)) == v
  {
    hide Val, Twice, TwiceAndOne, Sign;
    if v == 0 {
      Zero(0);
    } else {
      BitsVal(v / 2);
      TwiceVal(Bits(v / 2));
      TwiceAndOneVal(Bits(v / 2));
      SignVal(Bits(v / 2));
    }
  }

  // ---- Nibbles

  function Up(z: Word): Word {
    z << 4
  }

  function Down(w: Word): Word {
    w >> 4
  }

  function Nibble(w: Word): Word {
    w & 15
  }

  function Join(z: Word, w: Word): Word {
    (z << 4) | (w & 15)
  }

  function TopNibble(z: Word): Word {
    z >> 28
  }

  lemma UpVal(z: Word)
    ensures Val(Up(z)) == 16 * Val(z) - 0x1_0000_0000 * Val(TopNibble(z))
  {
  }

  lemma JoinVal(z: Word, w: Word)
    ensures Val(Join(z, w)) == Val(Up(z)) + Val(Nibble(w))
  {
  }

  lemma NibbleRange(w: Word)
    ensures 0 <= Val(Nibble(w)) < 16
  {
  }

  lemma Split(w: Word)
    ensures w == Join(Down(w), w) && TopNibble(Down(w)) == 0
  {
  }

  lemma DownVal(w: Word)
    ensures Val(Down(w)) == Val(w) / 16 && Val(Nibble(w)) == Val(w) % 16
  {
    hide *;
    Split(w);
    JoinVal(Down(w), w);
    UpVal(Down(w));
    Zero(TopNibble(Down(w)));
    NibbleRange(w);
  }

  /** The top four bits in place, and the others. */
  function TopPart(h: Word): Word {
    h & 0xf000_0000
  }

  function LowPart(h: Word): Word {
    h & 0x0fff_ffff
  }

  lemma PartsVal(h: Word)
    ensures Val(LowPart(h)) + Val(TopPart(h)) == Val(h)
  {
  }

  lemma TopPartIs(h: Word)
    ensures Val(TopPart(h)) == 0x1000_0000 * Val(TopNibble(h))
  {
  }

  lemma LowPartTop(h: Word)
    ensures TopNibble(LowPart(h)) == 0
  {
  }

  lemma TopPartVal(h: Word)
    ensures Val(TopPart(h)) == 0x1000_0000 * (Val(h) / 0x1000_0000)
  {
    hide *;
    PartsVal(h);
    TopPartIs(h);
    LowPartTop(h);
    UpVal(LowPart(h));
    Zero(TopNibble(LowPart(h)));
    Range(LowPart(h));
    Range(Up(LowPart(h)));
  }

  // ---- A word shifted up by four, plus a byte

  function UpPlus(h: Word, w: Word): Word {
    (h << 4) + w
  }

  function Extended(w: Word): Word {
    w | 0xffff_ff00
  }

  /** Adding a byte adds its upper nibble, from -8 to 7, to the word before the shift, and then joins its lower nibble. */
  lemma UpPlusLow(h: Word, w: Word)
    ensures Down(w) == 0 ==> UpPlus(h, w) == Join(h, w)
    ensures Down(w) == 1 ==> UpPlus(h, w) == Join(Plus(h, 1), w)
    ensures Down(w) == 2 ==> UpPlus(h, w) == Join(Plus(h, 2), w)
    ensures Down(w) == 3 ==> UpPlus(h, w) == Join(Plus(h, 3), w)
  {
  }

  lemma UpPlusHigh(h: Word, w: Word)
    ensures Down(w) == 4 ==> UpPlus(h, w) == Join(Plus(h, 4), w)
    ensures Down(w) == 5 ==> UpPlus(h, w) == Join(Plus(h, 5), w)
    ensures Down(w) == 6 ==> UpPlus(h, w) == Join(Plus(h, 6), w)
    ensures Down(w) == 7 ==> UpPlus(h, w) == Join(Plus(h, 7), w)
  {
  }

  lemma UpPlusFarBelow(h: Word, w: Word)
    ensures Down(w) == 8 ==> UpPlus(h, Extended(w)) == Join(Plus(h, 0xffff_fff8), w)
    ensures Down(w) == 9 ==> UpPlus(h, Extended(w)) == Join(Plus(h, 0xffff_fff9), w)
    ensures Down(w) == 10 ==> UpPlus(h, Extended(w)) == Join(Plus(h, 0xffff_fffa), w)
    ensures Down(w) == 11 ==> UpPlus(h, Extended(w)) == Join(Plus(h, 0xffff_fffb), w)
  {
  }

  lemma UpPlusBelow(h: Word, w: Word)
    ensures Down(w) == 12 ==> UpPlus(h, Extended(w)) == Join(Plus(h, 0xffff_fffc), w)
    ensures Down(w) == 13 ==> UpPlus(h, Extended(w)) == Join(Plus(h, 0xffff_fffd), w)
    ensures Down(w) == 14 ==> UpPlus(h, Extended(w)) == Join(Plus(h, 0xffff_fffe), w)
    ensures Down(w) == 15 ==> UpPlus(h, Extended(w)) == Join(Plus(h, 0xffff_ffff), w)
  {
  }

  /** The word for a number from -8 to 7. */
  function Small(k: int): Word {
    if k == 0 then 0 else if k == 1 then 1 else if k == 2 then 2 else if k == 3 then 3
    else if k == 4 then 4 else if k == 5 then 5 else if k == 6 then 6 else if k == 7 then 7
    else if k == -8 then 0xffff_fff8 else if k == -7 then 0xffff_fff9 else if k == -6 then 0xffff_fffa
    else if k == -5 then 0xffff_fffb else if k == -4 then 0xffff_fffc else if k == -3 then 0xffff_fffd
    else if k == -2 then 0xffff_fffe else 0xffff_ffff
  }

  lemma CountUp(h: Word, k: int)
    ensures k == 0 ==> Plus(Plus(h, 0), 1) == Plus(h, 1)
    ensures k == 1 ==> Plus(Plus(h, 1), 1) == Plus(h, 2)
    ensures k == 2 ==> Plus(Plus(h, 2), 1) == Plus(h, 3)
    ensures k == 3 ==> Plus(Plus(h, 3), 1) == Plus(h, 4)
  {
  }

  lemma CountFurther(h: Word, k: int)
    ensures k == 4 ==> Plus(Plus(h, 4), 1) == Plus(h, 5)
    ensures k == 5 ==> Plus(Plus(h, 5), 1) == Plus(h, 6)
    ensures k == 6 ==> Plus(Plus(h, 6), 1) == Plus(h, 7)
  {
  }

  lemma CountFromFar(h: Word, k: int)
    ensures k == -8 ==> Plus(Plus(h, 0xffff_fff8), 1) == Plus(h, 0xffff_fff9)
    ensures k == -7 ==> Plus(Plus(h, 0xffff_fff9), 1) == Plus(h, 0xffff_fffa)
    ensures k == -6 ==> Plus(Plus(h, 0xffff_fffa), 1) == Plus(h, 0xffff_fffb)
    ensures k == -5 ==> Plus(Plus(h, 0xffff_fffb), 1) == Plus(h, 0xffff_fffc)
  {
  }

  lemma CountToZero(h: Word, k: int)
    ensures k == -4 ==> Plus(Plus(h, 0xffff_fffc), 1) == Plus(h, 0xffff_fffd)
    ensures k == -3 ==> Plus(Plus(h, 0xffff_fffd), 1) == Plus(h, 0xffff_fffe)
    ensures k == -2 ==> Plus(Plus(h, 0xffff_fffe), 1) == Plus(h, 0xffff_ffff)
    ensures k == -1 ==> Plus(Plus(h, 0xffff_ffff), 1) == Plus(h, 0)
  {
  }

  lemma Count(h: Word, k: int)
    requires -8 <= k < 7
    ensures Plus(Plus(h, Small(k)), 1) == Plus(h, Small(k + 1))
  {
    hide Plus;
    CountUp(h, k);
    CountFurther(h, k);
    CountFromFar(h, k);
    CountToZero(h, k);
  }

  lemma PlusZero(h: Word)
    ensures Plus(h, Small(0)) == h
  {
  }

  lemma {:induction false} PlusSmall(h: Word, k: int)
    requires -8 <= k < 8
    ensures Val(Plus(h, Small(k))) == (Val(h) + k) % 0x1_0000_0000
    decreases if k < 0 then -k else k
  {
    hide Val, Plus, Small;
    Range(h);
    Range(Plus(h, Small(k)));
    if k == 0 {
      PlusZero(h);
    } else if k > 0 {
      Count(h, k - 1);
      PlusSmall(h, k - 1);
      PlusOne(Plus(h, Small(k - 1)));
    } else {
      Count(h, k);
      PlusSmall(h, k + 1);
      PlusOne(Plus(h, Small(k)));
    }
  }

  lemma SmallWord(x: Word)
    ensures Val(x) == 0 ==> x == 0
    ensures Val(x) == 1 ==> x == 1
    ensures Val(x) == 2 ==> x == 2
    ensures Val(x) == 3 ==> x == 3
    ensures Val(x) == 4 ==> x == 4
    ensures Val(x) == 5 ==> x == 5
    ensures Val(x) == 6 ==> x == 6
    ensures Val(x) == 7 ==> x == 7
    ensures Val(x) == 8 ==> x == 8
    ensures Val(x) == 9 ==> x == 9
    ensures Val(x) == 10 ==> x == 10
    ensures Val(x) == 11 ==> x == 11
    ensures Val(x) == 12 ==> x == 12
    ensures Val(x) == 13 ==> x == 13
    ensures Val(x) == 14 ==> x == 14
    ensures Val(x) == 15 ==> x == 15
  {
  }

  lemma ModIs(v: int, r: int, q: int)
    requires v == r + 0x1_0000_0000 * q && 0 <= r < 0x1_0000_0000
    ensures v % 0x1_0000_0000 == r
  {
  }

  lemma JoinIs(z: Word, w: Word, t: int)
    requires Val(z) == t % 0x1_0000_0000
    ensures Val(Join(z, w)) == (16 * t + Val(w) % 16) % 0x1_0000_0000
  {
    hide *;
    JoinVal(z, w);
    UpVal(z);
    DownVal(w);
    Range(Join(z, w));
    ModIs(16 * t + Val(w) % 16, Val(Join(z, w)), Val(TopNibble(z)) + 16 * (t / 0x1_0000_0000));
  }

  lemma UpPlusNibble(h: Word, w: Word)
    requires Val(w) < 256
    ensures Val(w) < 128 ==> UpPlus(h, w) == Join(Plus(h, Small(Val(w) / 16)), w)
    ensures Val(w) >= 128 ==> UpPlus(h, Extended(w)) == Join(Plus(h, Small(Val(w) / 16 - 16)), w)
  {
    hide Val, Plus, Down, Join, UpPlus, Extended;
    Range(w);
    DownVal(w);
    SmallWord(Down(w));
    PlusZero(h);
    UpPlusLow(h, w);
    UpPlusHigh(h, w);
    UpPlusFarBelow(h, w);
    UpPlusBelow(h, w);
  }

  /** Shifting up by four and adding a signed byte, in numbers modulo 2^32. */
  lemma UpPlusVal(h: Word, w: Word)
    requires Val(w) < 256
    ensures Val(w) < 128 ==> Val(UpPlus(h, w)) == (16 * Val(h) + Val(w)) % 0x1_0000_0000
    ensures Val(w) >= 128 ==> Val(UpPlus(h, Extended(w))) == (16 * Val(h) + Val(w) - 256) % 0x1_0000_0000
  {
    hide *;
    Range(w);
    UpPlusNibble(h, w);
    var k := if Val(w) < 128 then Val(w) / 16 else Val(w) / 16 - 16;
    PlusSmall(h, k);
    JoinIs(Plus(h, Small(k)), w, Val(h) + k);
  }

  // ---- Bits of numbers

  /** The exclusive or of two numbers, bit by bit. */
  function Xor(a: nat, b: nat): nat
    decreases a + b
  {
    if a == 0 && b == 0 then 0 else 2 * Xor(a / 2, b / 2) + (a % 2 + b % 2) % 2
  }

  /** The bits of `a` that `b` does not have. */
  function Without(a: nat, b: nat): nat {
    if a == 0 then 0 else 2 * Without(a / 2, b / 2) + if a % 2 == 1 && b % 2 == 0 then 1 else 0
  }

  lemma XoredBits(a: Word, b: Word)
    ensures Half(Xored(a, b)) == Xored(Half(a), Half(b))
    ensures Odd(Xored(a, b)) <==> Odd(a) != Odd(b)
  {
  }

  lemma XoredZero()
    ensures Xored(0, 0) == 0
  {
  }

  lemma HalfOf(v: int, h: int, odd: bool)
    requires v == 2 * h + if odd then 1 else 0
    ensures v / 2 == h && v % 2 == if odd then 1 else 0
  {
  }

  lemma {:induction false} XorVal(a: Word, b: Word)
    ensures Val(a) >= 0 && Val(b) >= 0 && Val(Xored(a, b)) == Xor(Val(a), Val(b))
    decreases Val(a) + Val(b)
  {
    hide Val, Half, Odd, Xored;
    Range(a);
    Range(b);
    Zero(a);
    Zero(b);
    if a == 0 && b == 0 {
      XoredZero();
    } else {
      Halves(a);
      Halves(b);
      HalfOf(Val(a), Val(Half(a)), Odd(a));
      HalfOf(Val(b), Val(Half(b)), Odd(b));
      Halves(Xored(a, b));
      XoredBits(a, b);
      XorVal(Half(a), Half(b));
    }
  }

  lemma ClearedBits(a: Word, b: Word)
    ensures Half(Cleared(a, b)) == Cleared(Half(a), Half(b))
    ensures Odd(Cleared(a, b)) <==> Odd(a) && !Odd(b)
  {
    ClearedHalf(a, b);
  }

  lemma ClearedHalf(a: Word, b: Word)
    ensures (a & !b) >> 1 == (a >> 1) & !(b >> 1)
  {
  }

  lemma ClearedZero(b: Word)
    ensures Cleared(0, b) == 0
  {
  }

  lemma {:induction false} WithoutVal(a: Word, b: Word)
    ensures Val(a) >= 0 && Val(b) >= 0 && Val(Cleared(a, b)) == Without(Val(a), Val(b))
    decreases Val(a)
  {
    hide Val, Half, Odd, Cleared;
    Range(a);
    Range(b);
    Zero(a);
    if a == 0 {
      ClearedZero(b);
    } else {
      Halves(a);
      Halves(b);
      HalfOf(Val(a), Val(Half(a)), Odd(a));
      HalfOf(Val(b), Val(Half(b)), Odd(b));
      Halves(Cleared(a, b));
      ClearedBits(a, b);
      WithoutVal(Half(a), Half(b));
    }
  }
}
