/**
 The Variable Byte Integer of MQTT with the shifts and masks of examples/mqtt.c, on 32-bit words; and that
 they amount to the divisions, remainders and sums with which VarInt models the bytes in memory.
 */
module VarIntWords {
  import opened Bytes
  import V = VarInt

  const LIMIT: word := 0x1000_0000

  /** One to four bytes, promoted to unsigned. */
  datatype Code =
    | One(a: word)
    | Two(a: word, b: word)
    | Three(a: word, b: word, c: word)
    | Four(a: word, b: word, c: word, d: word)

  /** The bytes that mqtt_put_var_int and mqtt_rev_put_var_int store. */
  function Put(n: word): Code {
    if n < 16384 then
      if n < 128 then One(((n) & 0xFF)) else Two(((n | 128) & 0xFF), ((n >> 7) & 0xFF))
    else if n < 2097152 then
      Three(((n | 128) & 0xFF), (((n >> 7) | 128) & 0xFF), ((n >> 14) & 0xFF))
    else
      Four(((n | 128) & 0xFF), (((n >> 7) | 128) & 0xFF), (((n >> 14) | 128) & 0xFF), ((n >> 21) & 0xFF))
  }

  /** What the loop of mqtt_get_var_int has gathered after two, three and four bytes. */
  function Gather2(a: word, b: word): word {
    (a & 127) | ((b & 127) << 7)
  }

  function Gather3(a: word, b: word, c: word): word {
    (a & 127) | ((b & 127) << 7) | ((c & 127) << 14)
  }

  function Gather4(a: word, b: word, c: word, d: word): word {
    (a & 127) | ((b & 127) << 7) | ((c & 127) << 14) | ((d & 127) << 21)
  }

  function Gather(code: Code): word {
    match code
    case One(a) => a
    case Two(a, b) => Gather2(a, b)
    case Three(a, b, c) => Gather3(a, b, c)
    case Four(a, b, c, d) => Gather4(a, b, c, d)
  }

  /** All bytes but the last have the top bit set, and the last, unless it is alone, is not zero. */
  predicate Canonical(c: Code) {
    match c
    case One(a) => a < 128
    case Two(a, b) => 128 <= a < 256 && 0 < b < 128
    case Three(a, b, c) => 128 <= a < 256 && 128 <= b < 256 && 0 < c < 128
    case Four(a, b, c, d) => 128 <= a < 256 && 128 <= b < 256 && 128 <= c < 256 && 0 < d < 128
  }

  // one lemma for each length

  lemma GatherPut2(n: word)
    requires 128 <= n < 0x4000
    ensures 128 <= (n | 128) & 0xFF < 256 && 0 < (n >> 7) & 0xFF < 128
    ensures Gather2((n | 128) & 0xFF, (n >> 7) & 0xFF) == n
  {
  }

  lemma Bits3(n: word)
    requires n < 0x20_0000
    ensures (((n | 128) & 0xFF) & 127) | (((((n >> 7) | 128) & 0xFF) & 127) << 7)
            | ((((n >> 14) & 0xFF) & 127) << 14) == n
  {
  }

  lemma Bits4(n: word)
    ensures (((n | 128) & 0xFF) & 127) | (((((n >> 7) | 128) & 0xFF) & 127) << 7)
            | (((((n >> 14) | 128) & 0xFF) & 127) << 14) | ((((n >> 21) & 0xFF) & 127) << 21) == n & 0xFFF_FFFF
  {
  }

  lemma GatherPut3(n: word)
    requires 0x4000 <= n < 0x20_0000
    ensures 128 <= (n | 128) & 0xFF < 256 && 128 <= ((n >> 7) | 128) & 0xFF < 256 && 0 < (n >> 14) & 0xFF < 128
    ensures Gather3((n | 128) & 0xFF, ((n >> 7) | 128) & 0xFF, (n >> 14) & 0xFF) == n
  {
    Bits3(n);
  }

  lemma Ranges4(n: word)
    requires 0x20_0000 <= n
    ensures 128 <= (n | 128) & 0xFF < 256 && 128 <= ((n >> 7) | 128) & 0xFF < 256
    ensures 128 <= ((n >> 14) | 128) & 0xFF < 256
    ensures n < LIMIT ==> 0 < (n >> 21) & 0xFF < 128 && n & 0xFFF_FFFF == n
    ensures n >= LIMIT ==> n & 0xFFF_FFFF != n
  {
  }

  lemma GatherPut4(n: word)
    ensures Gather4((n | 128) & 0xFF, ((n >> 7) | 128) & 0xFF, ((n >> 14) | 128) & 0xFF, (n >> 21) & 0xFF)
            == n & 0xFFF_FFFF
  {
    Bits4(n);
  }

  lemma PutGather2(a: word, b: word)
    requires 128 <= a < 256 && 0 < b < 128
    ensures var n := Gather2(a, b); 128 <= n < 0x4000 && Put(n) == Two(a, b)
  {
  }

  lemma PutGather3(a: word, b: word, c: word)
    requires 128 <= a < 256 && 128 <= b < 256 && 0 < c < 128
    ensures var n := Gather3(a, b, c); 0x4000 <= n < 0x20_0000 && Put(n) == Three(a, b, c)
  {
  }

  lemma PutGather4(a: word, b: word, c: word, d: word)
    requires 128 <= a < 256 && 128 <= b < 256 && 128 <= c < 256 && 0 < d < 128
    ensures var n := Gather4(a, b, c, d); 0x20_0000 <= n < LIMIT && Put(n) == Four(a, b, c, d)
  {
  }

  lemma FourBytes(n: word)
    requires 0x20_0000 <= n
    ensures Canonical(Put(n)) && Gather(Put(n)) == n <==> n < LIMIT
  {
    Ranges4(n);
    GatherPut4(n);
  }

  /** With the operators of the source: gathering undoes putting, exactly below the limit. */
  lemma GatherPutIff(n: word)
    ensures Canonical(Put(n)) && Gather(Put(n)) == n <==> n < LIMIT
  {
    if n < 128 {
    } else if n < 0x4000 {
      GatherPut2(n);
    } else if n < 0x20_0000 {
      GatherPut3(n);
    } else {
      FourBytes(n);
    }
  }

  /** And putting undoes gathering, on all bytes the reader accepts. */
  lemma PutGather(code: Code)
    requires Canonical(code)
    ensures Gather(code) < LIMIT && Put(Gather(code)) == code
  {
    match code
    case One(_) =>
    case Two(a, b) => PutGather2(a, b);
    case Three(a, b, c) => PutGather3(a, b, c);
    case Four(a, b, c, d) => PutGather4(a, b, c, d);
  }

  // ----- words as numbers

  /** The lowest bit of a word. */
  function Bit(w: word): nat {
    if w & 1 == 1 then 1 else 0
  }

  /** The number that a word holds: bit k counts 2 to the k. */
  function Number(w: word): nat
    decreases w
  {
    if w == 0 then 0 else Bit(w) + 2 * Number(w >> 1)
  }

  lemma NumberHalves(w: word, half: word)
    requires half == w >> 1
    ensures Number(w) == Bit(w) + 2 * Number(half)
  {
  }

  /** From a split of the upper bits to one of all: the low part gets one bit more. */
  lemma SplitMore(w: word, half: word, low: word, lowHalf: word, n: nat, m: nat, upper: nat)
    requires half == w >> 1 && lowHalf == low >> 1 && low & 1 == w & 1
    requires n == Number(half) && m == Number(lowHalf) && n == m + upper
    ensures Number(w) == Number(low) + 2 * upper
  {
    NumberHalves(w, half);
    NumberHalves(low, lowHalf);
  }

  // one lemma for each place of the split

  lemma Split1(w: word, upper: word)
    requires upper == w >> 1
    ensures Number(w) == Number(w & 1) + 2 * Number(upper)
  {
    SplitMore(w, upper, w & 1, 0, Number(upper), 0, Number(upper));
  }

  lemma Split2(w: word, upper: word)
    requires upper == w >> 2
    ensures Number(w) == Number(w & 3) + 4 * Number(upper)
  {
    var half := w >> 1;
    var n, m := Number(half), Number(half & 1);
    Split1(half, upper);
    SplitMore(w, half, w & 3, half & 1, n, m, 2 * Number(upper));
  }

  lemma Split3(w: word, upper: word)
    requires upper == w >> 3
    ensures Number(w) == Number(w & 7) + 8 * Number(upper)
  {
    var half := w >> 1;
    var n, m := Number(half), Number(half & 3);
    Split2(half, upper);
    SplitMore(w, half, w & 7, half & 3, n, m, 4 * Number(upper));
  }

  lemma Split4(w: word, upper: word)
    requires upper == w >> 4
    ensures Number(w) == Number(w & 15) + 16 * Number(upper)
  {
    var half := w >> 1;
    var n, m := Number(half), Number(half & 7);
    Split3(half, upper);
    SplitMore(w, half, w & 15, half & 7, n, m, 8 * Number(upper));
  }

  lemma Split5(w: word, upper: word)
    requires upper == w >> 5
    ensures Number(w) == Number(w & 31) + 32 * Number(upper)
  {
    var half := w >> 1;
    var n, m := Number(half), Number(half & 15);
    Split4(half, upper);
    SplitMore(w, half, w & 31, half & 15, n, m, 16 * Number(upper));
  }

  lemma Split6(w: word, upper: word)
    requires upper == w >> 6
    ensures Number(w) == Number(w & 63) + 64 * Number(upper)
  {
    var half := w >> 1;
    var n, m := Number(half), Number(half & 31);
    Split5(half, upper);
    SplitMore(w, half, w & 63, half & 31, n, m, 32 * Number(upper));
  }

  lemma Split7(w: word, upper: word)
    requires upper == w >> 7
    ensures Number(w) == Number(w & 127) + 128 * Number(upper)
  {
    var half := w >> 1;
    var n, m := Number(half), Number(half & 63);
    Split6(half, upper);
    SplitMore(w, half, w & 127, half & 63, n, m, 64 * Number(upper));
  }

  lemma {:induction false} NumberIsZero(w: word)
    ensures Number(w) == 0 <==> w == 0
    decreases w
  {
    if w != 0 {
      NumberIsZero(w >> 1);
      assert w & 1 == 1 || w >> 1 != 0;
    }
  }


  lemma PartOfHalf(w: word, b: word)
    requires w & b == w
    ensures (w >> 1) & (b >> 1) == w >> 1 && Bit(w) <= Bit(b)
  {
  }

  /** A word whose bits are all among those of b. */
  lemma {:induction false} NumberOfPart(w: word, b: word)
    requires w & b == w
    ensures Number(w) <= Number(b)
    decreases b
  {
    if b != 0 {
      PartOfHalf(w, b);
      NumberOfPart(w >> 1, b >> 1);
      NumberHalves(w, w >> 1);
      NumberHalves(b, b >> 1);
    }
  }

  lemma MasksCount()
    ensures Number(1) == 1 && Number(15) == 15 && Number(127) == 127
  {
    NumberHalves(1, 0);
    NumberHalves(3, 1);
    NumberHalves(7, 3);
    NumberHalves(15, 7);
    NumberHalves(31, 15);
    NumberHalves(63, 31);
    NumberHalves(127, 63);
  }

  /** A shift by seven divides by 128, and a mask of seven bits is the remainder. */
  lemma ShiftDivides(w: word, upper: word)
    requires upper == w >> 7
    ensures Number(upper) == Number(w) / 128 && Number(w & 127) == Number(w) % 128
  {
    MasksCount();
    Split7(w, upper);
    NumberOfPart(w & 127, 127);
  }

  lemma HighBit(w: word)
    ensures ((w | 128) & 0xFF) & 127 == w & 127 && ((w | 128) & 0xFF) >> 7 == 1
  {
  }

  /** What is stored of a word with bit 7 set. */
  lemma StoredContinued(w: word)
    ensures Number((w | 128) & 0xFF) == Number(w) % 128 + 128
  {
    MasksCount();
    HighBit(w);
    Split7((w | 128) & 0xFF, 1);
    ShiftDivides(w, w >> 7);
  }

  lemma LowBit(w: word)
    ensures (w & 0xFF) & 127 == w & 127 && (w & 0xFF) >> 7 == (w >> 7) & 1
  {
  }

  lemma LastOf(w: word, stored: word, low: word, upper: word, bit: word, rest: word)
    requires low == w & 127 == stored & 127 && upper == w >> 7 && bit == stored >> 7 == upper & 1 && rest == upper >> 1
    ensures Number(stored) == Number(w) % 256
  {
    MasksCount();
    NumberOfPart(bit, 1);
    Split7(stored, bit);
    Split7(w, upper);
    Split1(upper, rest);
    NumberOfPart(low, 127);
    Remainder(Number(w), Number(low), Number(bit), Number(rest));
  }

  lemma Remainder(n: nat, low: nat, bit: nat, rest: nat)
    requires n == 256 * rest + (low + 128 * bit) && low < 128 && bit <= 1
    ensures n % 256 == low + 128 * bit
  {
    LastByte(low + 128 * bit, rest);
  }

  lemma LastByte(r: nat, rest: nat)
    requires r < 256
    ensures (256 * rest + r) % 256 == r
  {
  }

  /** And as it is. */
  lemma StoredLast(w: word)
    ensures Number(w & 0xFF) == Number(w) % 256
  {
    LowBit(w);
    LastOf(w, w & 0xFF, w & 127, w >> 7, (w >> 7) & 1, (w >> 7) >> 1);
  }

  lemma DividedAgain(n: nat, n7: nat, n14: nat, n21: nat, n28: nat)
    requires n7 == n / 128 && n14 == n7 / 128 && n21 == n14 / 128 && n28 == n21 / 128
    ensures n14 == n / 0x4000 && n21 == n / 0x20_0000 && n28 == n / 0x1000_0000
  {
  }

  // the divisions of the writers, one lemma for each shift

  lemma Shift14(w: word, upper: word)
    requires upper == w >> 14
    ensures Number(upper) == Number(w) / 0x4000
  {
    ShiftDivides(w, w >> 7);
    ShiftDivides(w >> 7, upper);
    DividedAgain(Number(w), Number(w >> 7), Number(upper), Number(upper) / 128, Number(upper) / 128 / 128);
  }

  lemma Shift21(w: word, upper: word)
    requires upper == w >> 21
    ensures Number(upper) == Number(w) / 0x20_0000
  {
    Shift14(w, w >> 14);
    ShiftDivides(w >> 14, upper);
    DividedAgain(Number(w), Number(w) / 128, Number(w >> 14), Number(upper), Number(upper) / 128);
  }

  lemma Shift28(w: word, upper: word)
    requires upper == w >> 28
    ensures Number(upper) == Number(w) / 0x1000_0000
  {
    Shift21(w, w >> 21);
    ShiftDivides(w >> 21, upper);
    DividedAgain(Number(w), Number(w) / 128, Number(w) / 128 / 128, Number(w >> 21), Number(upper));
  }

  /** A word is an unsigned int. */
  lemma NumberIsUint(w: word)
    ensures Number(w) < 0x1_0000_0000
  {
    var upper := w >> 28;
    assert upper & 15 == upper;
    MasksCount();
    NumberOfPart(upper, 15);
    Shift28(w, upper);
  }

  /** The comparisons. */
  lemma Thresholds(w: word)
    ensures w < 128 <==> Number(w) < 128
    ensures w < 16384 <==> Number(w) < 16384
    ensures w < 2097152 <==> Number(w) < 2097152
    ensures w < LIMIT <==> Number(w) < V.LIMIT
  {
    ShiftedOut(w);
    ShiftDivides(w, w >> 7);
    Shift14(w, w >> 14);
    Shift21(w, w >> 21);
    NumberIsZero(w >> 7);
    NumberIsZero(w >> 14);
    NumberIsZero(w >> 21);
    Shift28(w, w >> 28);
    NumberIsZero(w >> 28);
  }

  lemma ShiftedOut(w: word)
    ensures (w >> 7 == 0 <==> w < 128) && (w >> 14 == 0 <==> w < 16384) && (w >> 21 == 0 <==> w < 2097152)
    ensures w >> 28 == 0 <==> w < LIMIT
  {
  }

  /** The bytes of a code as they lie in memory. */
  function Stored(w: word): byte {
    Number(w) % 0x100
  }

  function InMemory(code: Code): seq<byte> {
    match code
    case One(a) => [Stored(a)]
    case Two(a, b) => [Stored(a), Stored(b)]
    case Three(a, b, c) => [Stored(a), Stored(b), Stored(c)]
    case Four(a, b, c, d) => [Stored(a), Stored(b), Stored(c), Stored(d)]
  }

  lemma StoresAgree(w: word, n: uint)
    requires n == Number(w)
    ensures Stored(w & 0xFF) == V.Low(n) && Stored((w | 128) & 0xFF) == V.LowOr128(n)
  {
    StoredLast(w);
    StoredContinued(w);
  }

  lemma FirstStored(w: word)
    ensures Number(w) < 0x1_0000_0000
    ensures Stored(w & 0xFF) == V.Low(Number(w)) && Stored((w | 128) & 0xFF) == V.LowOr128(Number(w))
  {
    NumberIsUint(w);
    StoresAgree(w, Number(w));
  }

  lemma SecondStored(w: word)
    ensures Number(w) < 0x1_0000_0000
    ensures Stored((w >> 7) & 0xFF) == V.Low(Number(w) / 0x80)
    ensures Stored(((w >> 7) | 128) & 0xFF) == V.LowOr128(Number(w) / 0x80)
  {
    NumberIsUint(w);
    ShiftDivides(w, w >> 7);
    StoresAgree(w >> 7, Number(w) / 0x80);
  }

  lemma ThirdStored(w: word)
    ensures Number(w) < 0x1_0000_0000
    ensures Stored((w >> 14) & 0xFF) == V.Low(Number(w) / 0x4000)
    ensures Stored(((w >> 14) | 128) & 0xFF) == V.LowOr128(Number(w) / 0x4000)
  {
    NumberIsUint(w);
    Shift14(w, w >> 14);
    StoresAgree(w >> 14, Number(w) / 0x4000);
  }

  lemma FourthStored(w: word)
    ensures Number(w) < 0x1_0000_0000 && Stored((w >> 21) & 0xFF) == V.Low(Number(w) / 0x20_0000)
  {
    NumberIsUint(w);
    Shift21(w, w >> 21);
    StoresAgree(w >> 21, Number(w) / 0x20_0000);
  }

  /** The writers of the source store what VarInt says, for every unsigned. */
  lemma PutAgrees(w: word)
    ensures Number(w) < 0x1_0000_0000 && InMemory(Put(w)) == V.Put(Number(w))
  {
    Thresholds(w);
    FirstStored(w);
    SecondStored(w);
    ThirdStored(w);
    FourthStored(w);
  }

  lemma UpperHalf(w: word)
    ensures w < 0x8000_0000 <==> Number(w) < 0x8000_0000
  {
    var upper := w >> 28;
    Shift28(w, upper);
    assert upper >> 3 == 0 <==> w < 0x8000_0000;
    Split3(upper, upper >> 3);
    NumberIsZero(upper >> 3);
    NumberOfPart(upper & 7, 7);
    assert Number(7) == 7 by {
      NumberHalves(1, 0);
      NumberHalves(3, 1);
      NumberHalves(7, 3);
    }
  }

  lemma Doubled(half: word, w: word, bit: word)
    requires half < 0x8000_0000 && bit <= 1 && w == (half << 1) | bit
    ensures w >> 1 == half && w & 1 == bit
  {
  }

  /** Every unsigned int is a word. */
  lemma {:induction false} WordOf(n: uint) returns (w: word)
    ensures Number(w) == n
    decreases n
  {
    w := 0;
    if n > 0 {
      var half := WordOf(n / 2);
      var bit: word := if n % 2 == 1 then 1 else 0;
      UpperHalf(half);
      w := (half << 1) | bit;
      Doubled(half, w, bit);
      NumberHalves(w, half);
    }
  }

  /** The reader finds these bytes, and gathers this number from them. */
  predicate Gathers(s: seq<byte>, begin: nat, n: nat, length: nat, code: Code) {
    && Canonical(code) && Holds(s, begin, InMemory(code))
    && n == Number(Gather(code)) && length == |InMemory(code)|
  }

  /** The reader of the source gathers what VarInt says, from any bytes. */
  lemma GetAgreesIff(s: seq<byte>, begin: nat, n: uint, length: nat)
    requires begin < |s|
    ensures V.Get(s, begin) == V.Value(n, length) <==> exists code :: Gathers(s, begin, n, length, code)
  {
    V.PutIsEncodeIff(n);
    V.ReadIffPut(s, begin, n);
    if V.Get(s, begin) == V.Value(n, length) {
      V.ReadIsPut(s, begin);
      var w := WordOf(n);
      Thresholds(w);
      GatherPutIff(w);
      PutAgrees(w);
      assert Gathers(s, begin, n, length, Put(w));
    }
    forall code | Gathers(s, begin, n, length, code)
      ensures V.Get(s, begin) == V.Value(n, length)
    {
      PutGather(code);
      Thresholds(Gather(code));
      PutAgrees(Gather(code));
    }
  }
}
