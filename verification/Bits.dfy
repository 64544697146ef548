/** C's unsigned words as numbers, and its bitwise operators on them, each
    characterised bit by bit. */
module Bits {

  function Pow2(n: nat): (r: nat)
    ensures r >= 1
  {
    if n == 0 then 1 else 2 * Pow2(n - 1)
  }

  /** Bit k of a word. */
  predicate Bit(w: nat, k: nat)
    decreases k
  {
    if k == 0 then w % 2 == 1 else Bit(w / 2, k - 1)
  }

  /** a | b */
  function Or(a: nat, b: nat): nat {
    if a == 0 then b
    else (if a % 2 == 1 || b % 2 == 1 then 1 else 0) + 2 * Or(a / 2, b / 2)
  }

  /** a & ~b */
  function AndNot(a: nat, b: nat): nat {
    if a == 0 then 0
    else (if a % 2 == 1 && b % 2 == 0 then 1 else 0) + 2 * AndNot(a / 2, b / 2)
  }

  /** w << s in a word of the given width in bits. */
  function Shl(w: nat, s: nat, width: nat): nat {
    w * Pow2(s) % Pow2(width)
  }

  lemma {:induction false} BitOfZero(k: nat)
    ensures !Bit(0, k)
  {
    if k > 0 { BitOfZero(k - 1); }
  }

  lemma {:induction false} BitOfOr(a: nat, b: nat, k: nat)
    ensures Bit(Or(a, b), k) <==> Bit(a, k) || Bit(b, k)
    decreases k
  {
    if a == 0 {
      BitOfZero(k);
    } else {
      assert Or(a, b) / 2 == Or(a / 2, b / 2);
      if k > 0 { BitOfOr(a / 2, b / 2, k - 1); }
    }
  }

  lemma {:induction false} BitOfAndNot(a: nat, b: nat, k: nat)
    ensures Bit(AndNot(a, b), k) <==> Bit(a, k) && !Bit(b, k)
    decreases k
  {
    if a == 0 {
      BitOfZero(k);
    } else {
      assert AndNot(a, b) / 2 == AndNot(a / 2, b / 2);
      if k > 0 { BitOfAndNot(a / 2, b / 2, k - 1); }
    }
  }

  /** 1 << n */
  lemma {:induction false} BitOfPow2(n: nat, k: nat)
    ensures Bit(Pow2(n), k) <==> k == n
    decreases k
  {
    if n == 0 {
      if k > 0 { BitOfZero(k - 1); }
    } else if k > 0 {
      BitOfPow2(n - 1, k - 1);
    }
  }

  /** (1 << n) - 1 */
  lemma {:induction false} BitOfLowOnes(n: nat, k: nat)
    ensures Bit(Pow2(n) - 1, k) <==> k < n
    decreases k
  {
    if n == 0 {
      BitOfZero(k);
    } else {
      assert (Pow2(n) - 1) / 2 == Pow2(n - 1) - 1;
      if k > 0 { BitOfLowOnes(n - 1, k - 1); }
    }
  }

  /** A word has no bit at or above its width. */
  lemma {:induction false} HighBitsClear(w: nat, n: nat, k: nat)
    requires w < Pow2(n) && n <= k
    ensures !Bit(w, k)
    decreases k
  {
    if n == 0 {
      BitOfZero(k);
    } else {
      HighBitsClear(w / 2, n - 1, k - 1);
    }
  }

  /** Two words of n bits with the same bits are equal. */
  lemma {:induction false} SameBitsEqual(v: nat, w: nat, n: nat)
    requires v < Pow2(n) && w < Pow2(n)
    requires forall k :: 0 <= k < n ==> Bit(v, k) == Bit(w, k)
    ensures v == w
  {
    if n > 0 {
      assert Bit(v, 0) == Bit(w, 0);
      forall k | 0 <= k < n - 1 ensures Bit(v / 2, k) == Bit(w / 2, k) {
        assert Bit(v, k + 1) == Bit(w, k + 1);
      }
      SameBitsEqual(v / 2, w / 2, n - 1);
    }
  }

  lemma {:induction false} OrBound(a: nat, b: nat, n: nat)
    requires a < Pow2(n) && b < Pow2(n)
    ensures Or(a, b) < Pow2(n)
  {
    if a != 0 && n > 0 { OrBound(a / 2, b / 2, n - 1); }
  }

  lemma {:induction false} AndNotBound(a: nat, b: nat)
    ensures AndNot(a, b) <= a
  {
    if a != 0 { AndNotBound(a / 2, b / 2); }
  }

  lemma {:induction false} Pow2Monotone(m: nat, n: nat)
    requires m <= n
    ensures Pow2(m) <= Pow2(n)
    ensures m < n ==> Pow2(m) < Pow2(n)
  {
    if m < n { Pow2Monotone(m, n - 1); }
  }

  lemma {:induction false} Pow2Add(m: nat, n: nat)
    ensures Pow2(m + n) == Pow2(m) * Pow2(n)
  {
    if m > 0 {
      Pow2Add(m - 1, n);
      assert Pow2(m + n) == 2 * Pow2(m - 1 + n);
      assert 2 * (Pow2(m - 1) * Pow2(n)) == (2 * Pow2(m - 1)) * Pow2(n);
    }
  }

  lemma {:induction false} BitOfProduct(w: nat, s: nat, k: nat)
    ensures Bit(w * Pow2(s), k) <==> k >= s && Bit(w, k - s)
    decreases s
  {
    if s > 0 {
      var v := w * Pow2(s - 1);
      assert w * Pow2(s) == 2 * v by { assert Pow2(s) == 2 * Pow2(s - 1); }
      if k > 0 { BitOfProduct(w, s - 1, k - 1); }
    }
  }

  lemma {:induction false} BitOfMod(w: nat, n: nat, k: nat)
    ensures Bit(w % Pow2(n), k) <==> k < n && Bit(w, k)
    decreases n
  {
    if n == 0 {
      BitOfZero(k);
    } else {
      HalvesMod(w, Pow2(n - 1));
      if k > 0 { BitOfMod(w / 2, n - 1, k - 1); }
    }
  }

  lemma HalvesMod(w: nat, m: nat)
    requires m >= 1
    ensures w % (2 * m) == w % 2 + 2 * ((w / 2) % m)
    ensures (w % (2 * m)) / 2 == (w / 2) % m && (w % (2 * m)) % 2 == w % 2
  {
    var q, r := (w / 2) / m, (w / 2) % m;
    assert w / 2 == q * m + r;
    assert w == (2 * m) * q + (2 * r + w % 2);
    ModUnique(w, 2 * m, q, 2 * r + w % 2);
  }

  lemma ModUnique(w: int, m: int, q: int, r: int)
    requires m > 0 && w == m * q + r && 0 <= r < m
    ensures w % m == r && w / m == q
  {
    var d := w / m - q;
    assert m * d == r - w % m;
    assert d >= 1 ==> m * d >= m;
    assert d <= -1 ==> m * d <= -m;
  }

  /** w << s keeps bit k - s at bit k, and loses what leaves the word. */
  lemma BitOfShl(w: nat, s: nat, width: nat, k: nat)
    ensures Bit(Shl(w, s, width), k) <==> s <= k < width && Bit(w, k - s)
  {
    BitOfMod(w * Pow2(s), width, k);
    BitOfProduct(w, s, k);
  }

  /** Or-ing in bits above those already there is adding. */
  lemma {:induction false} OrAboveIsPlus(a: nat, n: nat, b: nat)
    requires a < Pow2(n)
    ensures Or(a, b * Pow2(n)) == a + b * Pow2(n)
  {
    if a != 0 {
      var c := b * Pow2(n - 1);
      assert b * Pow2(n) == 2 * c by { assert Pow2(n) == 2 * Pow2(n - 1); }
      OrAboveIsPlus(a / 2, n - 1, b);
    }
  }

  lemma Distribute(a: int, b: int, m: int)
    ensures (a + b) * m == a * m + b * m
  {
  }

  lemma Associate(q: int, h: int, m: int)
    ensures (q * h) * m == (h * m) * q
  {
  }

  lemma NonNegative(a: nat, b: nat)
    ensures a * b >= 0
  {
  }

  lemma ProductDivMod(b: nat, m: nat, h: nat)
    requires m >= 1 && h >= 1
    ensures b * m == (h * m) * (b / h) + (b % h) * m
    ensures 0 <= (b % h) * m <= h * m - m
  {
    var q, r := b / h, b % h;
    assert b == q * h + r;
    Distribute(q * h, r, m);
    Associate(q, h, m);
    NonNegative(r, m);
    NonNegative(h - 1 - r, m);
    Distribute(h - 1 - r, r, m);
    Distribute(h - 1, 1, m);
  }

  /** Or-ing a shifted group into a word that is still empty from there on. */
  lemma OrShiftedIn(a: nat, n: nat, b: nat, width: nat)
    requires n <= width && a < Pow2(n)
    ensures Or(a, b * Pow2(n) % Pow2(width)) == (a + b * Pow2(n)) % Pow2(width)
  {
    hide Pow2, Or;
    var m, h := Pow2(n), Pow2(width - n);
    Pow2Add(n, width - n);
    assert Pow2(width) == m * h == h * m;
    var q, c := b / h, b % h;
    ProductDivMod(b, m, h);
    ModUnique(b * m, h * m, q, c * m);
    ModUnique(a + b * m, h * m, q, a + c * m);
    OrAboveIsPlus(a, n, c);
  }

  /** Of its first n bits, a word has exactly the low r set. */
  predicate LowBitsSet(w: nat, n: nat, r: nat) {
    forall k :: 0 <= k < n ==> Bit(w, k) == (k < r)
  }

  /** That makes a word of n bits equal to (1 << r) - 1. */
  lemma LowOnesExactly(w: nat, n: nat, r: nat)
    requires w < Pow2(n) && r <= n
    ensures w == Pow2(r) - 1 <==> LowBitsSet(w, n, r)
  {
    var ones := Pow2(r) - 1;
    Pow2Monotone(r, n);
    forall k | 0 <= k < n ensures Bit(ones, k) == (k < r) { BitOfLowOnes(r, k); }
    if LowBitsSet(w, n, r) { SameBitsEqual(w, ones, n); }
  }

  /** All ones of a word shifted right. */
  lemma AllOnesShr(n: nat, s: nat)
    requires s <= n
    ensures (Pow2(n) - 1) / Pow2(s) == Pow2(n - s) - 1
  {
    Pow2Add(s, n - s);
    OnesShifted(Pow2(s), Pow2(n - s));
  }

  lemma OnesShifted(m: nat, h: nat)
    requires m >= 1 && h >= 1
    ensures (m * h - 1) / m == h - 1
  {
    Distribute(h - 1, 1, m);
    assert m * h - 1 == m * (h - 1) + (m - 1);
    ModUnique(m * h - 1, m, h - 1, m - 1);
  }
}
