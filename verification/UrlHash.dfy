/**
 The hash of src/hash_table_operation.c, on 32-bit two's complement words.

 A C string is modelled as the sequence of its bytes before the terminator,
 one `char` below 256 for each byte.
 */
module UrlHash {
  import opened BitValues

  const HASH_LEN := 1000

  function Byte(c: char): bv32 {
    Bits(c as int % 256)
  }

  /** The byte `c` as C widens a signed `char`, as a 32-bit word. */
  function Widen(c: char): bv32 {
    if Byte(c) & 0x80 == 0 then Byte(c) else Byte(c) | 0xffff_ff00
  }

  /** The sign-copying right shift by 24 of a signed word. */
  function ShiftRight24(x: bv32): bv32 {
    if x & 0x8000_0000 == 0 then x >> 24 else (x >> 24) | 0xffff_ff00
  }

  /** The top four bits are folded down and cleared. */
  function Fold(h: bv32): bv32 {
    var x := h & 0xf000_0000;
    if x != 0 then (h ^ ShiftRight24(x)) & !x else h
  }

  /** The word just before the fold. */
  function Append(h: bv32, w: bv32): bv32 {
    (h << 4) + w
  }

  function Shifted(h: bv32, c: char): bv32 {
    Append(h, Widen(c))
  }

  function Hash(s: string): (h: bv32) {
    if s == [] then 0 else Fold(Shifted(Hash(s[..|s| - 1]), s[|s| - 1]))
  }

  /** The fold always leaves the sign bit clear. */
  lemma FoldClearsSign(h: bv32)
    ensures Fold(h) & 0x8000_0000 == 0
  {
  }

  /** For every string the sign bit is clear, so the final mask changes nothing. */
  lemma HashIsNonNegative(s: string)
    ensures Hash(s) & 0x8000_0000 == 0
    ensures Hash(s) & 0x7fff_ffff == Hash(s)
  {
    if s != [] {
      FoldClearsSign(Shifted(Hash(s[..|s| - 1]), s[|s| - 1]));
    }
    var h := Hash(s);
    assert h & 0x8000_0000 == 0;
  }

  function Index(h: bv32): (b: nat)
    ensures b < HASH_LEN
  {
    ((h & 0x7fff_ffff) as nat) % HASH_LEN
  }

  /** The bucket of a URL. */
  function Bucket(s: string): (b: nat)
    ensures b < HASH_LEN
  {
    Index(Hash(s))
  }

  lemma HashSnoc(s: string, i: nat)
    requires i < |s|
    ensures Hash(s[..i + 1]) == Fold(Shifted(Hash(s[..i]), s[i]))
  {
    assert s[..i + 1][..i] == s[..i];
  }

  lemma EmptyHash(s: string)
    ensures Hash(s[..0]) == 0
  {
  }

  // ---- The same in numbers

  /** The number that C reads from a byte of a string. */
  function SignedByte(c: char): int {
    var b := c as int % 256;
    if b < 128 then b else b - 256
  }

  /** The pattern of a number in 32 bits, and the number that a pattern stands for. */
  function Pattern(v: int): nat {
    v % 0x1_0000_0000
  }

  function Signed(u: nat): int {
    if u < 0x8000_0000 then u else u - 0x1_0000_0000
  }

  /** `x` is the top four bits in their place; shifted right by 24 bits with the sign they are xored in and then cleared. */
  function NumberFold(t: nat): nat {
    var x := 0x1000_0000 * (t / 0x1000_0000);
    if x == 0 then t else Without(Xor(t, Pattern(Signed(x) / 0x100_0000)), x)
  }

  /** The recurrence of the source in arithmetic: signed bytes, 32 bits, a fold after each. */
  function NumberHash(s: string): nat {
    if s == "" then 0 else NumberFold(Pattern(16 * NumberHash(s[..|s| - 1]) + SignedByte(s[|s| - 1])))
  }

  lemma ByteVal(c: char)
    ensures Val(Byte(c)) == c as int % 256 && Val(Byte(c)) < 256
  {
    BitsVal(c as int % 256);
  }

  lemma EighthBit(w: bv32)
    requires Val(w) < 256
    ensures w & 0x80 == 0 <==> Val(w) < 128
  {
    hide *;
    Range(w);
    DownVal(w);
    SmallWord(Down(w));
    NibbleOfBit(w);
  }

  lemma NibbleOfBit(w: bv32)
    ensures w & 0x80 == 0 <==> Down(w) & 8 == 0
  {
  }

  lemma AppendVal(h: bv32, c: char)
    ensures Val(Shifted(h, c)) == Pattern(16 * Val(h) + SignedByte(c))
  {
    ByteVal(c);
    EighthBit(Byte(c));
    ShiftedIs(h, c);
    hide Val, Byte, UpPlus, Extended, Shifted;
    UpPlusVal(h, Byte(c));
  }

  lemma AppendIs(h: bv32, w: bv32)
    ensures Append(h, w) == UpPlus(h, w)
  {
  }

  lemma WidenIs(c: char)
    ensures Widen(c) == if Byte(c) & 0x80 == 0 then Byte(c) else Extended(Byte(c))
  {
    hide Byte;
  }

  lemma ShiftedIs(h: bv32, c: char)
    ensures Shifted(h, c) == if Byte(c) & 0x80 == 0 then UpPlus(h, Byte(c)) else UpPlus(h, Extended(Byte(c)))
  {
    hide Byte, Append, Widen, UpPlus, Extended;
    WidenIs(c);
    AppendIs(h, Widen(c));
  }

  lemma TopShifted(h: bv32)
    ensures Val(TopPart(h)) == 0x100_0000 * Val(TopPart(h) >> 24)
  {
  }

  lemma ExtendedVal(x: bv32)
    ensures Val((x >> 24) | 0xffff_ff00) == Val(x >> 24) + 0xffff_ff00
  {
  }

  lemma SignBit(x: bv32)
    ensures Sign(x) == 0 <==> x & 0x8000_0000 == 0
  {
  }

  lemma ShiftVal(h: bv32)
    ensures Val(TopPart(h)) >= 0 && Val(ShiftRight24(TopPart(h))) == Pattern(Signed(Val(TopPart(h))) / 0x100_0000)
  {
    var x := TopPart(h);
    TopShifted(h);
    ExtendedVal(x);
    SignBit(x);
    hide Val, TopPart, Sign;
    Range(x);
    SignVal(x);
    Zero(Sign(x));
  }

  lemma NothingOnTop(t: bv32)
    ensures TopPart(t) == 0 <==> t & 0xf000_0000 == 0
    ensures TopPart(t) == 0 ==> Fold(t) == t
  {
  }

  lemma FoldWith(t: bv32, y: bv32)
    requires t & 0xf000_0000 != 0 && y == ShiftRight24(t & 0xf000_0000)
    ensures Fold(t) == Cleared(Xored(t, y), TopPart(t))
  {
    hide ShiftRight24;
  }

  lemma NamedShift(t: bv32)
    ensures ShiftRight24(t & 0xf000_0000) == ShiftRight24(TopPart(t))
  {
    hide ShiftRight24;
  }

  lemma SomethingOnTop(t: bv32)
    requires TopPart(t) != 0
    ensures Fold(t) == Cleared(Xored(t, ShiftRight24(TopPart(t))), TopPart(t))
  {
    hide *;
    NothingOnTop(t);
    NamedShift(t);
    FoldWith(t, ShiftRight24(TopPart(t)));
  }

  lemma FoldVal(t: bv32)
    ensures Val(t) >= 0 && Val(Fold(t)) == NumberFold(Val(t))
  {
    hide Val, TopPart, Xored, Cleared, ShiftRight24, Fold, Xor, Without;
    Range(t);
    NothingOnTop(t);
    var x := TopPart(t);
    TopPartVal(t);
    Zero(x);
    if x != 0 {
      SomethingOnTop(t);
      ShiftVal(t);
      XorVal(t, ShiftRight24(x));
      WithoutVal(Xored(t, ShiftRight24(x)), x);
    }
  }

  /** For every string of bytes the hash is the number that the recurrence gives. */
  lemma {:induction false} HashIsNumber(s: string)
    ensures Val(Hash(s)) == NumberHash(s)
  {
    hide Val, Fold, Shifted, NumberFold, Pattern, SignedByte;
    if s == "" {
      Zero(0);
    } else {
      var n := |s| - 1;
      HashIsNumber(s[..n]);
      AppendVal(Hash(s[..n]), s[n]);
      FoldVal(Shifted(Hash(s[..n]), s[n]));
    }
  }

  /** The bucket is the remainder of that number by a thousand. */
  lemma BucketIsRemainder(s: string)
    ensures Bucket(s) == NumberHash(s) % 1000
  {
    HashIsNumber(s);
    HashIsNonNegative(s);
    hide Hash, NumberHash;
  }

  /** The loop that `hash_push` and `hash_search` both contain. */
  method BucketOf(url: string) returns (node: nat)
    ensures node == Bucket(url) == NumberHash(url) % 1000 && node < HASH_LEN
  {
    hide Fold, Shifted, Hash;
    var hash: bv32 := 0;
    EmptyHash(url);
    var i := 0;
    while i < |url|
      invariant 0 <= i <= |url|
      invariant hash == Hash(url[..i])
    {
      HashSnoc(url, i);
      hash := Fold(Shifted(hash, url[i]));
      i := i + 1;
    }
    assert url[..i] == url;
    BucketIsRemainder(url);
    node := Index(hash);
  }

  // ---- Comparison with the hash of the System V ABI, chapter 5, "Hash Table"

  /** The fold of the ABI's unsigned hash. */
  function AbiFold(t: bv32): bv32 {
    var g := t & 0xf000_0000;
    (t ^ (g >> 24)) & !g
  }

  function AbiStep(h: bv32, c: char): bv32 {
    AbiFold(Append(h, Byte(c)))
  }

  function AbiHash(s: string): bv32 {
    if s == [] then 0 else AbiStep(AbiHash(s[..|s| - 1]), s[|s| - 1])
  }

  predicate Ascii(s: string) {
    forall i :: 0 <= i < |s| ==> Byte(s[i]) & 0x80 == 0
  }

  /** The step that appends the last byte of `s[..k+1]` leaves the sign bit clear before the fold. */
  predicate SignClearAt(s: string, k: nat)
    requires k < |s|
  {
    Shifted(Hash(s[..k]), s[k]) & 0x8000_0000 == 0
  }

  predicate SignNeverSet(s: string) {
    forall k: nat :: k < |s| ==> SignClearAt(s, k)
  }

  lemma FoldsDiffer(t: bv32)
    requires t & 0x8000_0000 != 0
    ensures Fold(t) & 0x100 != AbiFold(t) & 0x100
  {
  }

  lemma SignOfTop(t: bv32)
    requires t & 0x8000_0000 == 0
    ensures ShiftRight24(t & 0xf000_0000) == (t & 0xf000_0000) >> 24
  {
  }

  lemma FoldTop(t: bv32)
    requires t & 0xf000_0000 != 0
    ensures Fold(t) == (t ^ ShiftRight24(t & 0xf000_0000)) & !(t & 0xf000_0000)
  {
    hide ShiftRight24;
  }

  lemma AbiFoldTop(t: bv32)
    ensures AbiFold(t) == (t ^ ((t & 0xf000_0000) >> 24)) & !(t & 0xf000_0000)
  {
  }

  lemma NothingToFold(t: bv32)
    requires t & 0xf000_0000 == 0
    ensures Fold(t) == t == AbiFold(t)
  {
  }

  lemma TopFoldsAgree(t: bv32)
    requires t & 0xf000_0000 != 0 && t & 0x8000_0000 == 0
    ensures Fold(t) == AbiFold(t)
  {
    hide *;
    SignOfTop(t);
    FoldTop(t);
    AbiFoldTop(t);
  }

  lemma ClearFoldsAgree(t: bv32)
    requires t & 0x8000_0000 == 0
    ensures Fold(t) == AbiFold(t)
  {
    hide *;
    if t & 0xf000_0000 == 0 {
      NothingToFold(t);
    } else {
      TopFoldsAgree(t);
    }
  }

  /** The two folds agree exactly on words whose sign bit is clear. */
  lemma FoldsAgree(t: bv32)
    ensures Fold(t) == AbiFold(t) <==> t & 0x8000_0000 == 0
  {
    hide *;
    if t & 0x8000_0000 == 0 {
      ClearFoldsAgree(t);
    } else {
      FoldsDiffer(t);
    }
  }

  lemma AbiFoldBounded(t: bv32)
    ensures AbiFold(t) < 0x1000_0000
  {
    assert AbiFold(t) & 0xf000_0000 == 0;
  }

  lemma AbiHashBounded(s: string)
    ensures AbiHash(s) < 0x1000_0000
  {
    if s != [] {
      AbiFoldBounded(Append(AbiHash(s[..|s| - 1]), Byte(s[|s| - 1])));
    }
  }

  /** On equal values and an ASCII byte, the two steps agree exactly when the sign bit stays clear. */
  lemma StepsAgree(h: bv32, c: char)
    requires Byte(c) & 0x80 == 0
    ensures Fold(Shifted(h, c)) == AbiStep(h, c) <==> Shifted(h, c) & 0x8000_0000 == 0
  {
    hide Fold, AbiFold, Append;
    FoldsAgree(Shifted(h, c));
  }

  predicate AgreesOnPrefixes(s: string) {
    forall k: nat :: k <= |s| ==> Hash(s[..k]) == AbiHash(s[..k])
  }

  lemma AgreesOnPrefix(s: string, n: nat)
    requires |s| == n + 1
    ensures AgreesOnPrefixes(s) <==> AgreesOnPrefixes(s[..n]) && Hash(s) == AbiHash(s)
  {
    hide Hash, AbiHash;
    var u := s[..n];
    if AgreesOnPrefixes(s) {
      forall k: nat | k <= n ensures Hash(u[..k]) == AbiHash(u[..k]) {
        assert u[..k] == s[..k];
      }
      assert s[..n + 1] == s;
    }
    if AgreesOnPrefixes(u) && Hash(s) == AbiHash(s) {
      forall k: nat | k <= n + 1 ensures Hash(s[..k]) == AbiHash(s[..k]) {
        assert s[..k] == if k <= n then u[..k] else s;
      }
    }
  }

  lemma SignClearOnPrefix(s: string, n: nat, k: nat)
    requires k < n < |s|
    ensures SignClearAt(s, k) == SignClearAt(s[..n], k)
  {
    hide Hash, Shifted;
    assert s[..n][..k] == s[..k];
  }

  lemma SignOnPrefix(s: string, n: nat)
    requires |s| == n + 1
    ensures SignNeverSet(s) <==> SignNeverSet(s[..n]) && SignClearAt(s, n)
  {
    hide SignClearAt;
    forall k: nat | k < n ensures SignClearAt(s, k) == SignClearAt(s[..n], k) {
      SignClearOnPrefix(s, n, k);
    }
  }

  /** For ASCII strings the running value is the ABI's at every byte if and only if
      no step sets the sign bit, and then it stays below 2^28. */
  lemma {:induction false} AbiAgreement(s: string)
    requires Ascii(s)
    ensures AgreesOnPrefixes(s) <==> SignNeverSet(s)
    ensures SignNeverSet(s) ==> Hash(s) == AbiHash(s) && Hash(s) < 0x1000_0000
  {
    hide Fold, AbiFold, Shifted, AbiStep;
    AbiHashBounded(s);
    if s != [] {
      var n := |s| - 1;
      AbiAgreement(s[..n]);
      AgreesOnPrefix(s, n);
      SignOnPrefix(s, n);
      StepsAgree(AbiHash(s[..n]), s[n]);
    }
  }

  // ---- How long a string has to be for the sign bit to be set

  /** The largest value that `k` ASCII bytes can add up to while nothing is folded. */
  function Top(k: nat): bv32
    requires k <= 6
  {
    if k == 0 then 0 else if k == 1 then 0x7f else if k == 2 then 0x86f else if k == 3 then 0x876f
    else if k == 4 then 0x8776f else if k == 5 then 0x87776f else 0x877776f
  }

  predicate AtMost(h: bv32, k: nat)
    requires k <= 6
  {
    h <= Top(k)
  }

  predicate SevenBits(w: bv32) {
    w <= 0x7f
  }

  lemma LowByte(w: bv32)
    ensures Down(w) <= 7 ==> SevenBits(w)
  {
  }

  lemma AsciiWidens(c: char)
    requires Byte(c) & 0x80 == 0
    ensures SevenBits(Widen(c))
  {
    hide Byte, Val, Down, SevenBits;
    ByteVal(c);
    EighthBit(Byte(c));
    Range(Byte(c));
    DownVal(Byte(c));
    SmallWord(Down(Byte(c)));
    LowByte(Byte(c));
  }

  lemma AppendBelow(h: bv32, w: bv32)
    requires w <= 0x7f
    ensures h <= 0 ==> Append(h, w) <= 0x7f
    ensures h <= 0x7f ==> Append(h, w) <= 0x86f
    ensures h <= 0x86f ==> Append(h, w) <= 0x876f
    ensures h <= 0x876f ==> Append(h, w) <= 0x8776f
    ensures h <= 0x8776f ==> Append(h, w) <= 0x87776f
    ensures h <= 0x87776f ==> Append(h, w) <= 0x877776f
  {
  }

  lemma AppendAtMost(h: bv32, w: bv32, k: nat)
    requires k < 6 && AtMost(h, k) && SevenBits(w)
    ensures AtMost(Append(h, w), k + 1)
  {
    hide Append;
    AppendBelow(h, w);
  }

  lemma SmallIsClear(h: bv32, k: nat)
    requires k <= 6 && AtMost(h, k)
    ensures h & 0x8000_0000 == 0 && Fold(h) == h
  {
    assert h <= 0x877776f;
    assert h & 0xf000_0000 == 0;
  }

  lemma ShortStep(h: bv32, c: char, k: nat)
    requires k < 6 && AtMost(h, k) && Byte(c) & 0x80 == 0
    ensures AtMost(Fold(Shifted(h, c)), k + 1) && Shifted(h, c) & 0x8000_0000 == 0
  {
    hide Fold, Append, Byte, Widen, AtMost, SevenBits;
    AsciiWidens(c);
    AppendAtMost(h, Widen(c), k);
    SmallIsClear(Shifted(h, c), k + 1);
  }

  lemma {:induction false} ShortValue(s: string, k: nat)
    requires Ascii(s) && k <= |s| && k <= 6
    ensures AtMost(Hash(s[..k]), k)
    ensures k < 6 && k < |s| ==> SignClearAt(s, k)
  {
    hide Hash, Fold, Shifted, Byte;
    if k == 0 {
      EmptyHash(s);
      assert AtMost(0, 0);
    } else {
      ShortValue(s, k - 1);
      HashSnoc(s, k - 1);
      ShortStep(Hash(s[..k - 1]), s[k - 1], k - 1);
    }
    if k < 6 && k < |s| {
      ShortStep(Hash(s[..k]), s[k], k);
    }
  }

  /** Up to six ASCII bytes never set the sign bit, so their value is the ABI's. */
  lemma ShortIsAbi(s: string)
    requires Ascii(s) && |s| <= 6
    ensures SignNeverSet(s) && Hash(s) == AbiHash(s)
  {
    hide Hash, SignClearAt, AbiHash;
    forall k: nat | k < |s| ensures SignClearAt(s, k) {
      ShortValue(s, k);
    }
    AbiAgreement(s);
  }

  lemma LetterZ()
    ensures Byte('z') == 0x7a && Widen('z') == 0x7a
  {
    hide Byte;
    ByteVal('z');
    WordZ(Byte('z'));
  }

  lemma WordZ(x: bv32)
    ensures Val(x) == 0x7a ==> x == 0x7a
  {
  }

  lemma SomeSteps()
    ensures Fold(Append(0, 0x7a)) == 0x7a && Fold(Append(0x7a, 0x7a)) == 0x81a && Fold(Append(0x81a, 0x7a)) == 0x821a
    ensures Fold(Append(0x821a, 0x7a)) == 0x8221a && Fold(Append(0x8221a, 0x7a)) == 0x82221a
    ensures Fold(Append(0x82221a, 0x7a)) == 0x822221a
    ensures Append(0x822221a, 0x7a) & 0x8000_0000 != 0 && Fold(Append(0x822221a, 0x7a)) == 0x7ddd_dd9a
  {
  }

  /** Six is the longest length that is safe: seven letters set the sign bit and leave the ABI's range. */
  lemma SignCanBeSet(s: string)
    requires |s| == 7 && forall i :: 0 <= i < 7 ==> s[i] == 'z'
    ensures Ascii(s) && !SignNeverSet(s) && Hash(s) >= 0x1000_0000
  {
    hide Fold, Append, Byte, Widen, Hash;
    LetterZ();
    SomeSteps();
    EmptyHash(s);
    HashSnoc(s, 0);
    HashSnoc(s, 1);
    HashSnoc(s, 2);
    HashSnoc(s, 3);
    HashSnoc(s, 4);
    HashSnoc(s, 5);
    HashSnoc(s, 6);
    assert s[..7] == s;
    assert !SignClearAt(s, 6);
  }
}
