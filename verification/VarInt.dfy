/** The MQTT Variable Byte Integer (section 1.5.5 of MQTT Version 5.0). */
module VarInt {
  import opened Bytes

  /** The first number with no encoding: 2 to the 28th. */
  const LIMIT: uint := 0x1000_0000

  /** NOT_COMPLETE and MALFORMED are ~1 and ~0, which no encoding can stand for. */
  datatype Reading = Value(n: uint, length: nat) | NotComplete | Malformed

  // The shifts and masks of the source are written here as divisions, remainders and sums. PutAgrees and
  // GetAgreesIff of VarIntWords say that they come to the same for every word and for all bytes.

  /** What a store into a uint8_t keeps of a number, and of the number with bit 7 set. */
  function Low(n: uint): byte {
    n % 0x100
  }

  function LowOr128(n: uint): byte {
    n % 0x80 + 0x80
  }

  /** The bytes mqtt_put_var_int writes, for any unsigned. */
  function Put(n: uint): seq<byte> {
    if n < 128 then [Low(n)]
    else if n < 16384 then [LowOr128(n), Low(n / 0x80)]
    else if n < 2097152 then [LowOr128(n), LowOr128(n / 0x80), Low(n / 0x4000)]
    else [LowOr128(n), LowOr128(n / 0x80), LowOr128(n / 0x4000), Low(n / 0x20_0000)]
  }

  /** mqtt_get_var_int_size; ~0 above the greatest number that can be encoded. */
  function SizeOf(n: uint): nat {
    if n < 16384 then if n < 128 then 1 else 2
    else if n < 268435456 then if n < 2097152 then 3 else 4
    else 0xFFFF_FFFF
  }

  /** The encoding as section 1.5.5 gives it: seven bits a byte, the least significant first. */
  function Encode(n: nat): (s: seq<byte>)
    ensures s != []
  {
    if n < 128 then [n] else [n % 128 + 128] + Encode(n / 128)
  }

  /** 2 to the `bit`, at the three places a later byte can take. */
  function Place(bit: nat): nat {
    if bit == 7 then 0x80 else if bit == 14 then 0x4000 else 0x20_0000
  }

  /** mqtt_get_var_int on the bytes s[begin..]. */
  function Get(s: seq<byte>, begin: nat): Reading
    requires begin < |s|
  {
    if s[begin] < 128 then Value(s[begin], 1) else GetMore(s, begin, begin + 1, s[begin] % 128, 7)
  }

  /** The rest of it: n holds the low `bit` bits, found in the bytes before p. */
  function GetMore(s: seq<byte>, begin: nat, p: nat, n: uint, bit: nat): Reading
    requires begin < p <= |s| && 7 <= bit <= 21 && bit % 7 == 0 && n < Place(bit)
    decreases |s| - p
  {
    if p == |s| then NotComplete
    else if s[p] == 0 then Malformed
    else
      var n' := n + s[p] % 128 * Place(bit);
      if s[p] < 128 then Value(n', p + 1 - begin)
      else if bit + 7 > 21 then Malformed
      else GetMore(s, begin, p + 1, n', bit + 7)
  }

  method GetVarInt(s: seq<byte>, begin: nat) returns (r: Reading, p: nat)
    requires begin < |s|
    ensures r == Get(s, begin)
    ensures p == if r.Value? then begin + r.length else begin
  {
    p := begin;
    var b := s[begin];
    if b < 128 {
      return Value(b, 1), begin + 1;
    }
    var n: uint, bit, q := b % 128, 7, begin + 1;
    while true
      invariant begin < q <= |s| && 7 <= bit <= 21 && bit % 7 == 0 && n < Place(bit)
      invariant Get(s, begin) == GetMore(s, begin, q, n, bit)
      decreases |s| - q
    {
      if q >= |s| {
        return NotComplete, begin;
      }
      b := s[q];
      q := q + 1;
      if b == 0 {
        return Malformed, begin;
      }
      n := n + b % 128 * Place(bit);
      if b < 128 {
        break;
      }
      if bit + 7 > 21 {
        return Malformed, begin;
      }
      bit := bit + 7;
    }
    return Value(n, q - begin), q;
  }

  /** `after` is `before` with `bytes` stored at p. */
  ghost predicate StoredAt(before: seq<byte>, after: seq<byte>, p: nat, bytes: seq<byte>) {
    && p + |bytes| <= |before| == |after|
    && (forall i :: 0 <= i < |bytes| ==> after[p + i] == bytes[i])
    && (forall i :: 0 <= i < |before| && !(p <= i < p + |bytes|) ==> after[i] == before[i])
  }

  /** mqtt_put_var_int: forwards from p. */
  method PutVarInt(a: array<byte>, p: nat, n: uint) returns (size: nat)
    requires p + |Put(n)| <= a.Length
    modifies a
    ensures size == |Put(n)| && StoredAt(old(a[..]), a[..], p, Put(n))
  {
    if n < 16384 {
      if n < 128 {
        a[p] := Low(n);
        return 1;
      }
      a[p] := LowOr128(n);
      a[p + 1] := Low(n / 0x80);
      return 2;
    }
    if n < 2097152 {
      a[p] := LowOr128(n);
      a[p + 1] := LowOr128(n / 0x80);
      a[p + 2] := Low(n / 0x4000);
      return 3;
    }
    a[p] := LowOr128(n);
    a[p + 1] := LowOr128(n / 0x80);
    a[p + 2] := LowOr128(n / 0x4000);
    a[p + 3] := Low(n / 0x20_0000);
    return 4;
  }

  /** mqtt_rev_put_var_int: backwards from p, leaving the same bytes just before it. */
  method RevPutVarInt(a: array<byte>, p: nat, n: uint) returns (size: nat)
    requires |Put(n)| <= p <= a.Length
    modifies a
    ensures size == |Put(n)| && StoredAt(old(a[..]), a[..], p - size, Put(n))
  {
    if n < 16384 {
      if n < 128 {
        a[p - 1] := Low(n);
        return 1;
      }
      a[p - 1] := Low(n / 0x80);
      a[p - 2] := LowOr128(n);
      return 2;
    }
    if n < 2097152 {
      a[p - 1] := Low(n / 0x4000);
      a[p - 2] := LowOr128(n / 0x80);
      a[p - 3] := LowOr128(n);
      return 3;
    }
    a[p - 1] := Low(n / 0x20_0000);
    a[p - 2] := LowOr128(n / 0x4000);
    a[p - 3] := LowOr128(n / 0x80);
    a[p - 4] := LowOr128(n);
    return 4;
  }

  /** The four branches write what the standard asks for, and claim the right size, exactly below the limit. */
  lemma PutIsEncodeIff(n: uint)
    ensures Put(n) == Encode(n) <==> n < 0x1000_0000
    ensures |Put(n)| == SizeOf(n) <==> n < 0x1000_0000
    ensures SizeOf(n) == if n < 0x1000_0000 then |Encode(n)| else 0xFFFF_FFFF
  {
    var n1, n2, n3 := n / 128, n / 128 / 128, n / 128 / 128 / 128;
    assert n2 == n / 0x4000 && n3 == n / 0x20_0000;
  }

  /** Seven bits of m move from the bits to come to the bits already held. */
  lemma MovesSevenBits(n: uint, bit: nat, m: nat)
    requires 7 <= bit <= 21 && bit % 7 == 0 && n < Place(bit) && 128 <= m && m * Place(bit) < LIMIT
    ensures bit <= 14 && n + m % 128 * Place(bit) < Place(bit + 7)
    ensures n + m % 128 * Place(bit) + m / 128 * Place(bit + 7) == n + m * Place(bit)
    ensures 0 < m / 128 && m / 128 * Place(bit + 7) < LIMIT
  {
    if bit == 7 {
      assert n + m % 128 * 0x80 + m / 128 * 0x4000 == n + m * 0x80;
    } else if bit == 14 {
      assert n + m % 128 * 0x4000 + m / 128 * 0x20_0000 == n + m * 0x4000;
    }
  }

  /** What is encoded at p is read, whatever follows it. */
  lemma {:induction false} ReadsEncoded(s: seq<byte>, begin: nat, p: nat, n: uint, bit: nat, m: nat)
    requires begin < p <= |s| && 7 <= bit <= 21 && bit % 7 == 0 && n < Place(bit)
    requires 0 < m && m * Place(bit) < LIMIT && Holds(s, p, Encode(m))
    ensures n + m * Place(bit) < LIMIT
    ensures GetMore(s, begin, p, n, bit) == Value(n + m * Place(bit), p - begin + |Encode(m)|)
    decreases m
  {
    if m < 128 {
    } else {
      MovesSevenBits(n, bit, m);
      HoldsRest(s, p, m % 128 + 128, Encode(m / 128));
      assert s[p] % 128 == m % 128;
      ReadsEncoded(s, begin, p + 1, n + s[p] % 128 * Place(bit), bit + 7, m / 128);
    }
  }

  lemma EncodeByte(b: byte, m: nat)
    requires b >= 128 && m > 0
    ensures Encode(b % 128 + 128 * m) == [b] + Encode(m)
  {
    var n := b % 128 + 128 * m;
    assert n % 128 == b % 128 && n / 128 == m;
  }

  /** Only what is encoded is read. */
  lemma {:induction false} ReadsOnlyEncoded(s: seq<byte>, begin: nat, p: nat, n: uint, bit: nat) returns (m: nat)
    requires begin < p <= |s| && 7 <= bit <= 21 && bit % 7 == 0 && n < Place(bit)
    requires GetMore(s, begin, p, n, bit).Value?
    ensures 0 < m && n + m * Place(bit) < LIMIT && Holds(s, p, Encode(m))
    ensures GetMore(s, begin, p, n, bit) == Value(n + m * Place(bit), p - begin + |Encode(m)|)
    decreases |s| - p
  {
    if s[p] < 128 {
      m := s[p];
    } else {
      var high := ReadsOnlyEncoded(s, begin, p + 1, n + s[p] % 128 * Place(bit), bit + 7);
      m := s[p] % 128 + 128 * high;
      EncodeByte(s[p], high);
      HoldsRest(s, p, s[p], Encode(high));
    }
  }

  lemma PutIsRead(s: seq<byte>, begin: nat, n: uint)
    requires n < LIMIT && Holds(s, begin, Encode(n))
    ensures begin < |s| && Get(s, begin) == Value(n, |Encode(n)|)
  {
    if n >= 128 {
      HoldsRest(s, begin, n % 128 + 128, Encode(n / 128));
      ReadsEncoded(s, begin, begin + 1, n % 128, 7, n / 128);
    }
  }

  lemma ReadIsPut(s: seq<byte>, begin: nat)
    requires begin < |s| && Get(s, begin).Value?
    ensures var n := Get(s, begin).n; n < LIMIT && Holds(s, begin, Encode(n))
  {
    if s[begin] < 128 {
    } else {
      var m := ReadsOnlyEncoded(s, begin, begin + 1, s[begin] % 128, 7);
      EncodeByte(s[begin], m);
      HoldsRest(s, begin, s[begin], Encode(m));
    }
  }

  /**
   * Encoding and decoding are inverse: at any place in any message, n is read exactly when it is
   * below the limit and the bytes there are the ones its put writes.
   */
  lemma ReadIffPut(s: seq<byte>, begin: nat, n: uint)
    requires begin < |s|
    ensures Get(s, begin) == Value(n, SizeOf(n)) <==> n < LIMIT && Holds(s, begin, Put(n))
    ensures Get(s, begin).Value? ==> Get(s, begin).length == SizeOf(Get(s, begin).n)
  {
    PutIsEncodeIff(n);
    if n < LIMIT && Holds(s, begin, Put(n)) {
      PutIsRead(s, begin, n);
    }
    if Get(s, begin).Value? {
      ReadIsPut(s, begin);
      PutIsRead(s, begin, Get(s, begin).n);
      PutIsEncodeIff(Get(s, begin).n);
    }
  }

  /** All but the last byte of an encoding have their top bit set. */
  lemma {:induction false} EncodeContinues(n: nat, i: nat)
    requires i < |Encode(n)|
    ensures Encode(n)[i] >= 128 <==> i < |Encode(n)| - 1
  {
    if n >= 128 && i > 0 {
      EncodeContinues(n / 128, i - 1);
    }
  }

  /** At most three bytes with their top bit set, and then the end, are what is read as incomplete. */
  lemma {:induction false} IncompleteIff(s: seq<byte>, begin: nat, p: nat, n: uint, bit: nat)
    requires begin < p <= |s| && 7 <= bit <= 21 && bit % 7 == 0 && n < Place(bit)
    ensures GetMore(s, begin, p, n, bit) == NotComplete
            <==> |s| - p < 4 - bit / 7 && forall i :: p <= i < |s| ==> s[i] >= 128
    decreases |s| - p
  {
    if p < |s| && s[p] >= 128 && bit <= 14 {
      IncompleteIff(s, begin, p + 1, n + s[p] % 128 * Place(bit), bit + 7);
    }
  }

  /** Some number below the limit has an encoding that s[begin..] starts and does not finish. */
  ghost predicate Starts(s: seq<byte>, begin: nat) {
    begin < |s| && exists n: uint :: n < LIMIT && s[begin..] < Put(n)
  }

  /** The least number whose encoding goes on after `bytes`. */
  function Completed(bytes: seq<byte>): nat {
    if bytes == [] then 1 else bytes[0] % 128 + 128 * Completed(bytes[1..])
  }

  lemma {:induction false} CompletedBelow(bytes: seq<byte>)
    requires |bytes| <= 3
    ensures |bytes| == 0 ==> Completed(bytes) < 0x2
    ensures |bytes| <= 1 ==> Completed(bytes) < 0x100
    ensures |bytes| <= 2 ==> Completed(bytes) < 0x8000
    ensures Completed(bytes) < 0x40_0000
  {
    if bytes != [] {
      CompletedBelow(bytes[1..]);
    }
  }

  lemma {:induction false} CompletedContinues(bytes: seq<byte>)
    requires forall i :: 0 <= i < |bytes| ==> bytes[i] >= 128
    ensures Completed(bytes) > 0 && Encode(Completed(bytes)) == bytes + [1]
  {
    if bytes != [] {
      CompletedContinues(bytes[1..]);
      EncodeByte(bytes[0], Completed(bytes[1..]));
    }
  }

  lemma StartsContinues(s: seq<byte>, begin: nat)
    requires Starts(s, begin)
    ensures |s| - begin <= 3 && forall i :: begin <= i < |s| ==> s[i] >= 128
  {
    var n: uint :| n < LIMIT && s[begin..] < Put(n);
    PutIsEncodeIff(n);
    forall i | begin <= i < |s| ensures s[i] >= 128 {
      assert s[i] == s[begin..][i - begin] == Encode(n)[i - begin];
      EncodeContinues(n, i - begin);
    }
  }

  /** NOT_COMPLETE is answered exactly when more bytes could still complete an encoding. */
  lemma NotCompleteIff(s: seq<byte>, begin: nat)
    requires begin < |s|
    ensures Get(s, begin) == NotComplete <==> Starts(s, begin)
  {
    IncompleteIff(s, begin, begin + 1, s[begin] % 128, 7);
    if Get(s, begin) == NotComplete {
      var rest := s[begin..];
      var n := Completed(rest);
      CompletedBelow(rest);
      CompletedContinues(rest);
      PutIsEncodeIff(n);
      assert rest < Put(n);
    } else if Starts(s, begin) {
      StartsContinues(s, begin);
      assert false;
    }
  }
}
