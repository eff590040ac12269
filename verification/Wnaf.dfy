/**
  ethminer/secp256k1/ecmult_impl.h, secp256k1_ecmult_wnaf: a scalar as a sum of few odd digits,
  some of them negative, at least a window apart.
 */
module Wnaf {
  import opened Arithmetic
  import opened Scalar

  /** The number that digits stand for, the first weighing one. */
  function Value(ds: seq<int>): int {
    if ds == [] then 0 else Value(ds[..|ds| - 1]) + ds[|ds| - 1] * Pow2(|ds| - 1)
  }

  /** A digit is zero, or odd and less than half a window in magnitude. */
  predicate IsDigit(d: int, w: nat)
    requires w > 0
  {
    d == 0 || (d % 2 == 1 && Abs(d) < Pow2(w - 1))
  }

  /** Digits, and at least w - 1 zeros after each that is not zero. */
  predicate IsWnaf(ds: seq<int>, w: nat)
    requires w > 0
  {
    && (forall i | 0 <= i < |ds| :: IsDigit(ds[i], w))
    && (forall i, j | 0 <= i < j < |ds| && ds[i] != 0 && ds[j] != 0 :: i + w <= j)
  }

  /** The representative of a scalar that is encoded: below zero for those with the highest bit set. */
  function Signed(a: nat): int { if a < Two255 then a else a - N }

  function Abs(x: int): nat { if x < 0 then -x else x }

  function WithSign(sign: int, x: int): int { if sign == 1 then x else -x }

  function BitLength(x: nat): nat { if x == 0 then 0 else 1 + BitLength(x / 2) }

  lemma {:induction false} BitLengthBounds(x: nat)
    ensures x < Pow2(BitLength(x))
  {
    if x > 0 { BitLengthBounds(x / 2); }
  }

  lemma {:induction false} BitLengthAtMost(x: nat, k: nat)
    requires x < Pow2(k)
    ensures BitLength(x) <= k
  {
    if x > 0 { BitLengthAtMost(x / 2, k - 1); }
  }

  lemma ValueAppend(ds: seq<int>, d: int)
    ensures Value(ds + [d]) == Value(ds) + d * Pow2(|ds|)
  {
    assert (ds + [d])[..|ds|] == ds;
  }

  /** How many are left at `bit`, of a number of `len` bits with perhaps one carry. */
  function Cap(len: nat, bit: nat): nat { if bit <= len then Pow2(len - bit) else 0 }

  /** The loop at `bit`: digits and rest balance to `v`, and the rest is small enough. */
  ghost predicate Walk(ds: seq<int>, s: nat, bit: nat, sign: int, v: int, len: nat, w: nat)
    requires w > 0
  {
    && |ds| <= bit <= 256 && |ds| <= len + 1 && len <= 255
    && Value(ds) + WithSign(sign, Rest(s, bit)) == v
    && High(s, bit) <= Cap(len, bit)
    && IsWnaf(ds, w)
    && (forall i | 0 <= i < |ds| && ds[i] != 0 :: i + w <= bit || bit == 256)
  }

  method Wnaf(wnaf: array<int>, a: nat, w: nat) returns (setBits: nat)
    requires a < N && 2 <= w <= 31 && wnaf.Length >= 256
    modifies wnaf
    ensures setBits <= 256 && setBits <= BitLength(Abs(Signed(a))) + 1
    ensures Value(wnaf[..setBits]) == Signed(a) && IsWnaf(wnaf[..setBits], w)
    ensures setBits > 0 ==> wnaf[setBits - 1] != 0
  {
    hide Bits, Low, High, IsWnaf, Value, Pow2, Rest, BitLength, Signed;
    var s: nat := a;
    setBits := 0;
    var bit: nat := 0;
    var sign := 1;
    if Bits(s, 255, 1) != 0 {
      s := Negate(s);
      sign := -1;
    }
    ghost var len := BitLength(s);
    TopBit(a, s, sign, len);
    WalkStarts(s, sign, Signed(a), len, w);
    while bit < 256
      invariant (sign == 1 || sign == -1) && setBits <= wnaf.Length
      invariant Walk(wnaf[..setBits], s, bit, sign, Signed(a), len, w)
      invariant setBits > 0 ==> wnaf[setBits - 1] != 0
      decreases 256 - bit
    {
      ghost var ds := wnaf[..setBits];
      if Bits(s, bit, 1) == 0 {
        WalkSkips(ds, s, bit, sign, Signed(a), len, w);
        bit := bit + 1;
      } else {
        PadZeros(wnaf, setBits, bit);
        WalkPads(ds, wnaf[..bit], s, bit, sign, Signed(a), len, w);
        var now;
        s, now := WriteDigit(wnaf, s, bit, sign, Signed(a), len, w);
        setBits := bit + 1;
        bit := bit + now;
      }
    }
    WalkEnds(wnaf[..setBits], s, sign, Signed(a), len, w);
  }

  /** The round at a set bit: one digit, made of the next `now` bits. */
  method WriteDigit(wnaf: array<int>, s: nat, bit: nat, sign: int, ghost v: int, ghost len: nat, w: nat)
    returns (next: nat, now: nat)
    requires w >= 2 && bit < 256 <= wnaf.Length && (sign == 1 || sign == -1) && Bits(s, bit, 1) != 0
    requires Walk(wnaf[..bit], s, bit, sign, v, len, w) && bit <= len
    modifies wnaf
    ensures 1 <= now && bit + now <= 256 && Walk(wnaf[..bit + 1], next, bit + now, sign, v, len, w)
    ensures wnaf[bit] != 0
  {
    hide Walk, Bits, Low, High, IsWnaf, Value, Pow2;
    ghost var ds := wnaf[..bit];
    now := if bit + w > 256 then 256 - bit else w;
    var word := Bits(s, bit, now);
    WalkTakes(ds, s, bit, sign, v, len, w);
    if (word / Pow2(w - 1)) % 2 != 0 {
      next := s + Pow2(bit + w);
      wnaf[bit] := sign * (word - Pow2(w));
    } else {
      next := s;
      wnaf[bit] := sign * word;
    }
    assert wnaf[..bit + 1] == ds + [WithSign(sign, Digit(word, w))];
  }

  /** The inner loop: zeros up to `bit`. */
  method PadZeros(wnaf: array<int>, setBits: nat, bit: nat)
    requires setBits <= bit <= wnaf.Length
    modifies wnaf
    ensures wnaf[..bit] == old(wnaf[..setBits]) + seq(bit - setBits, _ => 0)
  {
    var i := setBits;
    while i < bit
      invariant setBits <= i <= bit
      invariant wnaf[..i] == old(wnaf[..setBits]) + seq(i - setBits, _ => 0)
    {
      wnaf[i] := 0;
      i := i + 1;
    }
  }

  // ---------------------------------------------------------------- the steps of the loop

  /** The sign test: what is left to encode has at most 255 bits. */
  lemma TopBit(a: nat, s: nat, sign: int, len: nat)
    requires a < N && len == BitLength(s)
    requires if Bits(a, 255, 1) != 0 then s == Negate(a) && sign == -1 else s == a && sign == 1
    ensures WithSign(sign, s) == Signed(a) && s == Abs(Signed(a)) && s < Pow2(len) && len <= 255
  {
    Pow2Of255();
    OneBit(a, 255);
    HighAndLow(a, 255);
    BitLengthBounds(s);
    BitLengthAtMost(s, 255);
  }

  lemma WalkStarts(s: nat, sign: int, v: int, len: nat, w: nat)
    requires w > 0 && WithSign(sign, s) == v && s < Pow2(len) && len <= 255
    ensures Walk([], s, 0, sign, v, len, w)
  {
  }

  lemma WalkSkips(ds: seq<int>, s: nat, bit: nat, sign: int, v: int, len: nat, w: nat)
    requires w > 0 && bit < 256 && Walk(ds, s, bit, sign, v, len, w) && Bits(s, bit, 1) == 0
    ensures Walk(ds, s, bit + 1, sign, v, len, w)
  {
    OneBit(s, bit);
    assert Cap(len, len) == 1;
  }

  lemma {:induction false} ValueOfZeros(ds: seq<int>, k: nat)
    ensures Value(ds + seq(k, _ => 0)) == Value(ds)
  {
    if k == 0 {
      assert ds + seq(k, _ => 0) == ds;
    } else {
      ValueOfZeros(ds, k - 1);
      var shorter := ds + seq(k - 1, _ => 0);
      assert ds + seq(k, _ => 0) == shorter + [0];
      ValueAppend(shorter, 0);
    }
  }

  lemma WalkPads(ds: seq<int>, padded: seq<int>, s: nat, bit: nat, sign: int, v: int, len: nat, w: nat)
    requires w > 0 && bit < 256 && Walk(ds, s, bit, sign, v, len, w) && Bits(s, bit, 1) != 0
    requires padded == ds + seq(bit - |ds|, _ => 0)
    ensures Walk(padded, s, bit, sign, v, len, w) && |padded| == bit <= len
  {
    ValueOfZeros(ds, bit - |ds|);
    OneBit(s, bit);
    forall i | |ds| <= i < bit ensures padded[i] == 0 {}
    forall i | 0 <= i < |ds| ensures padded[i] == ds[i] {}
  }

  /** The digit made of a word, and whether it borrows from the rest. */
  predicate Borrows(word: nat, w: nat)
    requires w > 0
  {
    word >= Pow2(w - 1)
  }

  function Digit(word: nat, w: nat): int
    requires w > 0
  {
    if Borrows(word, w) then word - Pow2(w) else word
  }

  function WindowAt(bit: nat, w: nat): nat
    requires bit <= 256
  {
    if bit + w > 256 then 256 - bit else w
  }

  /** Halves of an even power. */
  lemma Pow2Halves(w: nat)
    requires w > 0
    ensures Pow2(w) == 2 * Pow2(w - 1) && Pow2(w) % 2 == 0
  {
    DivUnique(Pow2(w), 2, Pow2(w - 1), 0);
  }

  /** The test of the top bit of the word. */
  lemma BorrowTest(word: nat, w: nat)
    requires w > 0 && word < Pow2(w)
    ensures (word / Pow2(w - 1)) % 2 != 0 <==> Borrows(word, w)
  {
    var p := Pow2(w - 1);
    Pow2Halves(w);
    if word < p { DivUnique(word, p, 0, word); } else { DivUnique(word, p, 1, word - p); }
  }

  lemma DigitIsOdd(word: nat, w: nat)
    requires w >= 2 && word < Pow2(w) && word % 2 == 1
    ensures IsDigit(Digit(word, w), w) && Digit(word, w) % 2 == 1 && -Digit(word, w) % 2 == 1
    ensures IsDigit(-Digit(word, w), w)
  {
    Pow2Halves(w);
    Pow2Halves(w - 1);
  }

  /** An odd rest has an odd last word. */
  lemma WordIsOdd(s: nat, bit: nat, now: nat)
    requires now > 0 && Bits(s, bit, 1) != 0
    ensures Bits(s, bit, now) % 2 == 1 && High(s, bit) % 2 == 1
  {
    OneBit(s, bit);
  }

  /** What a borrowing or plain digit leaves is small enough again, and no borrow leaves the number. */
  lemma CapShrinks(s: nat, bit: nat, len: nat, w: nat)
    requires w >= 2 && bit <= len <= 255 && High(s, bit) <= Cap(len, bit) && Bits(s, bit, 1) != 0
    ensures var now := WindowAt(bit, w); var word := Bits(s, bit, now);
      && now >= 1 && word < Pow2(now) <= Pow2(w)
      && (Borrows(word, w) ==> now == w && bit + w <= len)
      && High(s, bit + now) + (if Borrows(word, w) then 1 else 0) <= Cap(len, bit + now)
  {
    var now := WindowAt(bit, w);
    var word := Bits(s, bit, now);
    WordIsOdd(s, bit, now);
    BitsSplit(s, bit, now);
    Pow2Monotone(now, w);
    if bit + now <= len {
      Pow2Adds(len - bit - now, now);
      NotAbove(High(s, bit + now), Pow2(len - bit - now), Pow2(now), word, High(s, bit));
    } else {
      LastWord(High(s, bit), High(s, bit + now), word, len - bit, now, w);
    }
  }

  /** The last word takes all that is left, and does not borrow. */
  lemma LastWord(h: nat, h': nat, word: nat, room: nat, now: nat, w: nat)
    requires h == h' * Pow2(now) + word && h % 2 == 1 && h <= Pow2(room) && room < now <= w && w >= 2
    ensures h' == 0 && !Borrows(word, w)
  {
    hide Pow2;
    Pow2Monotone(room, now - 1);
    Pow2Monotone(room, w - 1);
    Pow2Halves(now);
    Pow2Halves(w - 1);
    if h' > 0 { MulMonotone(Pow2(now), 1, h'); }
  }

  lemma NotAbove(h': nat, c: nat, p: nat, word: nat, h: nat)
    requires h == h' * p + word && 0 < word && h <= c * p
    ensures h' + 1 <= c
  {
    if h' >= c { MulMonotone(p, c, h'); }
  }

  /** A round that writes a digit. */
  lemma WalkTakes(ds: seq<int>, s: nat, bit: nat, sign: int, v: int, len: nat, w: nat)
    requires w >= 2 && bit < 256 && (sign == 1 || sign == -1) && Bits(s, bit, 1) != 0
    requires Walk(ds, s, bit, sign, v, len, w) && |ds| == bit <= len
    ensures var now := WindowAt(bit, w); var word := Bits(s, bit, now);
      && now >= 1 && ((word / Pow2(w - 1)) % 2 != 0 <==> Borrows(word, w)) && WithSign(sign, Digit(word, w)) != 0
      && Walk(ds + [WithSign(sign, Digit(word, w))], if Borrows(word, w) then s + Pow2(bit + w) else s, bit + now, sign, v, len, w)
  {
    hide High, Rest, Bits, Low, Value, Pow2;
    var now := WindowAt(bit, w);
    var word := Bits(s, bit, now);
    CapShrinks(s, bit, len, w);
    WordIsOdd(s, bit, now);
    BorrowTest(word, w);
    DigitIsOdd(word, w);
    var d := WithSign(sign, Digit(word, w));
    assert IsDigit(d, w) && d != 0;
    Balances(ds, s, bit, sign, v, w, now, word);
    var s' := if Borrows(word, w) then s + Pow2(bit + w) else s;
    if Borrows(word, w) { HighCarries(s, bit + w); }
    assert High(s', bit + now) <= Cap(len, bit + now);
    SpacedOut(ds, d, w);
  }

  lemma SpacedOut(ds: seq<int>, d: int, w: nat)
    requires w > 0 && IsWnaf(ds, w) && IsDigit(d, w)
    requires forall i | 0 <= i < |ds| && ds[i] != 0 :: i + w <= |ds|
    ensures IsWnaf(ds + [d], w)
  {
  }

  lemma Balances(ds: seq<int>, s: nat, bit: nat, sign: int, v: int, w: nat, now: nat, word: nat)
    requires w >= 2 && (sign == 1 || sign == -1) && |ds| == bit && word == Bits(s, bit, now)
    requires Value(ds) + WithSign(sign, Rest(s, bit)) == v && (Borrows(word, w) ==> now == w)
    ensures var s' := if Borrows(word, w) then s + Pow2(bit + w) else s;
      Value(ds + [WithSign(sign, Digit(word, w))]) + WithSign(sign, Rest(s', bit + now)) == v
  {
    var p := Pow2(bit);
    ValueAppend(ds, WithSign(sign, Digit(word, w)));
    RestTaken(s, bit, now);
    if Borrows(word, w) {
      HighCarries(s, bit + w);
      Pow2Adds(bit, w);
    }
    DigitWeighs(p, word, Pow2(w));
  }

  lemma DigitWeighs(p: int, word: int, window: int)
    ensures word * p == p * word && (-word) * p == -(p * word)
    ensures (word - window) * p == p * word - p * window && (-(word - window)) * p == p * window - p * word
  {
  }

  lemma WalkEnds(ds: seq<int>, s: nat, sign: int, v: int, len: nat, w: nat)
    requires w > 0 && Walk(ds, s, 256, sign, v, len, w)
    ensures Value(ds) == v && IsWnaf(ds, w) && |ds| <= 256 && |ds| <= len + 1
  {
    hide IsWnaf, Value;
    NothingLeft(s, 256);
  }

  lemma {:induction false} NothingLeft(s: nat, bit: nat)
    requires High(s, bit) == 0
    ensures Rest(s, bit) == 0
    decreases bit
  {
    if bit > 0 { NothingLeft(s / 2, bit - 1); }
  }
}
