/** Netmasks as 32-bit words: library/io_ipv4.c. */
module MaskWords {
  import opened Bytes

  /** The low bit as a number. */
  function Bit(w: word): nat {
    if w & 1 == 1 then 1 else 0
  }

  /** The reference: set bits counted one at a time, from the lowest of the k that are looked at. */
  function Ones(w: word, k: nat): nat {
    if k == 0 then 0 else Bit(w) + Ones(w >> 1, k - 1)
  }

  // ipv4_itow, one step to a function.

  function Halve(n: word): word {
    (n >> 1) & 0x7777_7777
  }

  function Less(mask: word, n: word): word {
    mask - n
  }

  /** Three rounds of halving and subtracting. */
  function PerNibble(mask: word): word {
    var n1 := Halve(mask);
    var n2 := Halve(n1);
    var n3 := Halve(n2);
    Less(Less(Less(mask, n1), n2), n3)
  }

  function PerByte(nibbles: word): word {
    (nibbles + (nibbles >> 4)) & 0x0F0F_0F0F
  }

  function Total(bytes: word): word {
    (bytes * 0x101_0101) >> 24
  }

  function Width(mask: word): word {
    Total(PerByte(PerNibble(mask)))
  }

  /** ipv4_wtoi; wider shifts are undefined in C. */
  function Mask(width: word): word
    requires width <= 32
  {
    if width != 0 then 0xFFFF_FFFF << (32 - width) else 0
  }

  /** The test of ipv4_ismask. */
  predicate IsMask(w: word) {
    var m := !w;
    m & (m + 1) == 0
  }

  /** ipv4_wtoi makes w of some width. */
  ghost predicate IsMade(w: word) {
    exists width :: width <= 32 && w == Mask(width)
  }

  method CheckWord(w: word) returns (ok: bool)
    ensures ok <==> IsMade(w)
  {
    IsMaskIff(w);
    var m := !w;
    return m & (m + 1) == 0;
  }

  /** Bit i of every nibble. */
  function Plane(w: word, i: word): word
    requires i < 4
  {
    (w >> i) & 0x1111_1111
  }

  /** The nibbles of w after one round, after two, and after all three, when each holds its count. */
  function Round1(w: word): word {
    Plane(w, 0) + Plane(w, 1) + 2 * Plane(w, 2) + 4 * Plane(w, 3)
  }

  function Round2(w: word): word {
    Plane(w, 0) + Plane(w, 1) + Plane(w, 2) + 2 * Plane(w, 3)
  }

  function Tally(w: word): word {
    Plane(w, 0) + Plane(w, 1) + Plane(w, 2) + Plane(w, 3)
  }

  lemma FirstRound(w: word)
    ensures Less(w, Halve(w)) == Round1(w)
  {
  }

  lemma SecondRound(w: word)
    ensures Less(Round1(w), Halve(Halve(w))) == Round2(w)
  {
  }

  lemma ThirdRound(w: word)
    ensures Less(Round2(w), Halve(Halve(Halve(w)))) == Tally(w)
  {
  }

  lemma Rounds(w: word)
    ensures PerNibble(w) == Tally(w)
  {
    FirstRound(w);
    SecondRound(w);
    ThirdRound(w);
  }

  /** The set bits of the low byte, as a word and as a number. */
  function Eight(w: word): word {
    (w & 1) + ((w >> 1) & 1) + ((w >> 2) & 1) + ((w >> 3) & 1)
    + ((w >> 4) & 1) + ((w >> 5) & 1) + ((w >> 6) & 1) + ((w >> 7) & 1)
  }

  function EightBits(w: word): nat {
    Bit(w) + Bit(w >> 1) + Bit(w >> 2) + Bit(w >> 3) + Bit(w >> 4) + Bit(w >> 5) + Bit(w >> 6) + Bit(w >> 7)
  }

  lemma TallyBytes(w: word)
    ensures PerByte(Tally(w)) & 0xFF == Eight(w) <= 8
    ensures (PerByte(Tally(w)) >> 8) & 0xFF == Eight(w >> 8) <= 8
    ensures (PerByte(Tally(w)) >> 16) & 0xFF == Eight(w >> 16) <= 8
    ensures PerByte(Tally(w)) >> 24 == Eight(w >> 24) <= 8
  {
  }

  function Four(a: word, b: word, c: word, d: word): word {
    a + b + c + d
  }

  lemma TotalOf(w: word)
    requires w & 0xFF <= 8 && (w >> 8) & 0xFF <= 8 && (w >> 16) & 0xFF <= 8 && w >> 24 <= 8
    ensures Total(w) == Four(w & 0xFF, (w >> 8) & 0xFF, (w >> 16) & 0xFF, w >> 24)
  {
  }

  /** ipv4_itow adds up the set bits of the four bytes. */
  lemma WidthOfBytes(w: word)
    ensures Width(w) == Four(Eight(w), Eight(w >> 8), Eight(w >> 16), Eight(w >> 24))
  {
    Rounds(w);
    TallyBytes(w);
    TotalOf(PerByte(Tally(w)));
  }

  // From words to numbers: no sum below overflows.

  lemma FourAsNat(a: word, b: word, c: word, d: word)
    requires a <= 8 && b <= 8 && c <= 8 && d <= 8
    ensures Four(a, b, c, d) as nat == a as nat + b as nat + c as nat + d as nat
  {
  }

  lemma EightAsNat(w: word)
    ensures Eight(w) as nat == EightBits(w) && Eight(w) <= 8
  {
  }

  lemma EightOnes(w: word, k: nat)
    requires k >= 8
    ensures Ones(w, k) == EightBits(w) + Ones(w >> 8, k - 8)
  {
    assert Ones(w, k) == Bit(w) + Ones(w >> 1, k - 1);
    assert Ones(w >> 1, k - 1) == Bit(w >> 1) + Ones(w >> 2, k - 2) by { assert w >> 1 >> 1 == w >> 2; }
    assert Ones(w >> 2, k - 2) == Bit(w >> 2) + Ones(w >> 3, k - 3) by { assert w >> 2 >> 1 == w >> 3; }
    assert Ones(w >> 3, k - 3) == Bit(w >> 3) + Ones(w >> 4, k - 4) by { assert w >> 3 >> 1 == w >> 4; }
    assert Ones(w >> 4, k - 4) == Bit(w >> 4) + Ones(w >> 5, k - 5) by { assert w >> 4 >> 1 == w >> 5; }
    assert Ones(w >> 5, k - 5) == Bit(w >> 5) + Ones(w >> 6, k - 6) by { assert w >> 5 >> 1 == w >> 6; }
    assert Ones(w >> 6, k - 6) == Bit(w >> 6) + Ones(w >> 7, k - 7) by { assert w >> 6 >> 1 == w >> 7; }
    assert Ones(w >> 7, k - 7) == Bit(w >> 7) + Ones(w >> 8, k - 8) by { assert w >> 7 >> 1 == w >> 8; }
  }

  lemma OnesOfBytes(w: word)
    ensures Ones(w, 32) == EightBits(w) + EightBits(w >> 8) + EightBits(w >> 16) + EightBits(w >> 24)
  {
    EightOnes(w, 32);
    assert Ones(w >> 8, 24) == EightBits(w >> 8) + Ones(w >> 16, 16) by {
      EightOnes(w >> 8, 24);
      assert w >> 8 >> 8 == w >> 16;
    }
    assert Ones(w >> 16, 16) == EightBits(w >> 16) + Ones(w >> 24, 8) by {
      EightOnes(w >> 16, 16);
      assert w >> 16 >> 8 == w >> 24;
    }
    EightOnes(w >> 24, 8);
  }

  /** ipv4_itow counts the set bits of every 32-bit word. */
  lemma WidthCountsOnes(w: word)
    ensures Width(w) as nat == Ones(w, 32)
  {
    OnesOfBytes(w);
    WidthOfBytes(w);
    EightAsNat(w);
    EightAsNat(w >> 8);
    EightAsNat(w >> 16);
    EightAsNat(w >> 24);
    FourAsNat(Eight(w), Eight(w >> 8), Eight(w >> 16), Eight(w >> 24));
  }

  /** ipv4_itow undoes ipv4_wtoi, and every word that ipv4_wtoi makes passes the test for a mask. */
  lemma WidthOfMask(width: word)
    requires width <= 32
    ensures Width(Mask(width)) == width && IsMask(Mask(width))
  {
  }

  /** A word that passes has its bits on the left, and still passes without the first of them. */
  lemma TopBit(w: word)
    requires IsMask(w) && w != 0
    ensures w >= 0x8000_0000 && IsMask(w << 1) && w << 1 < w
    ensures w == ((w << 1) >> 1) + 0x8000_0000
  {
  }

  lemma OneWider(width: word)
    requires width < 32
    ensures Mask(width + 1) == (Mask(width) >> 1) + 0x8000_0000
  {
  }

  lemma {:induction false} WidthFound(w: word) returns (width: word)
    requires IsMask(w)
    ensures width <= 32 && Mask(width) == w
    decreases w
  {
    if w == 0 {
      width := 0;
    } else {
      TopBit(w);
      var rest := WidthFound(w << 1);
      assert rest != 32;
      OneWider(rest);
      width := rest + 1;
    }
  }

  /** Nothing else passes the test: a word is a mask exactly when ipv4_wtoi makes it, of its own width. */
  lemma IsMaskIff(w: word)
    ensures IsMask(w) <==> IsMade(w)
    ensures IsMask(w) ==> Width(w) <= 32 && w == Mask(Width(w))
  {
    if IsMask(w) {
      var width := WidthFound(w);
      WidthOfMask(width);
    }
    if width :| width <= 32 && w == Mask(width) {
      WidthOfMask(width);
    }
  }
}
