/** Bytes, words and options, and the concatenation of a list of byte strings. */
module Bytes {
  type byte = x: int | 0 <= x < 256

  /** An unsigned int, which has 32 bits, as a number. */
  type uint = n: nat | n < 0x1_0000_0000

  /** And with its bits. */
  type word = bv32

  /** What a uint16_t, the size of a queued block, cannot hold. */
  const SIZE_LIMIT: nat := 0x1_0000

  datatype Option<+T> = None | Some(value: T)

  /** A character of a C string; behind the last one is the NUL. */
  function CharAt(s: seq<byte>, i: nat): byte {
    if i < |s| then s[i] else 0
  }

  /** The concatenation of all strings in `chunks`. */
  function Join<T>(chunks: seq<seq<T>>): (r: seq<T>) {
    if chunks == [] then [] else chunks[0] + Join(chunks[1..])
  }

  lemma JoinFirst<T>(chunks: seq<seq<T>>)
    requires chunks != [] && (chunks[0] == [] ==> |chunks| == 1)
    ensures Join(chunks) == chunks[0] + Join(chunks[1..])
    ensures Join(chunks) == [] <==> chunks[0] == []
  {
    assert |chunks| == 1 ==> Join(chunks[1..]) == [];
  }

  lemma {:induction false} JoinAppend<T>(a: seq<seq<T>>, b: seq<seq<T>>)
    ensures Join(a + b) == Join(a) + Join(b)
  {
    if a == [] {
      assert a + b == b;
    } else {
      assert (a + b)[1..] == a[1..] + b;
      JoinAppend(a[1..], b);
    }
  }

  lemma JoinSnoc<T>(a: seq<seq<T>>, x: seq<T>)
    ensures Join(a + [x]) == Join(a) + x
  {
    JoinAppend(a, [x]);
    assert Join([x]) == x;
  }

  /** Growing the last chunk grows the concatenation at its end. */
  lemma JoinGrowLast<T>(a: seq<seq<T>>, x: seq<T>)
    requires a != []
    ensures Join(a[|a| - 1 := a[|a| - 1] + x]) == Join(a) + x
  {
    var init := a[..|a| - 1];
    var last := a[|a| - 1];
    assert a == init + [last];
    assert a[|a| - 1 := last + x] == init + [last + x];
    JoinSnoc(init, last);
    JoinSnoc(init, last + x);
  }

  /** Moving a prefix of `right` to the end of `left` keeps the concatenation. */
  lemma MovePrefix<T>(left: seq<T>, right: seq<T>, n: nat)
    requires n <= |right|
    ensures (left + right[..n]) + right[n..] == left + right
  {
    assert right[..n] + right[n..] == right;
  }

  /** A split of `base + all` is known from the length of its first part. */
  lemma SplitAt<T>(left: seq<T>, right: seq<T>, base: seq<T>, all: seq<T>, n: nat)
    requires left + right == base + all && |left| == |base| + n && n <= |all|
    ensures left == base + all[..n] && right == all[n..]
  {
    assert left == (left + right)[..|left|];
    assert right == (left + right)[|left|..];
  }

  lemma NextMoved<T>(done: seq<T>, x: T, rest: seq<T>)
    ensures done + ([x] + rest) == done + [x] + rest
  {
  }

  lemma SliceOfSlice<T>(s: seq<T>, at: nat, end: nat, from: nat, to: nat)
    requires at <= end <= |s| && from <= to <= end - at
    ensures s[at..end][from..to] == s[at + from..at + to]
  {
    var whole := s[at..end];
    var part := s[at + from..at + to];
    assert whole[from..to] == part by {
      assert forall i :: 0 <= i < to - from ==> whole[from..to][i] == whole[from + i] == s[at + (from + i)] == part[i];
    }
  }

  /** `bytes` stands in s at p. */
  predicate Holds(s: seq<byte>, p: nat, bytes: seq<byte>)
    decreases |bytes|
  {
    bytes == [] || (p < |s| && s[p] == bytes[0] && Holds(s, p + 1, bytes[1..]))
  }

  lemma {:induction false} HoldsSlice(s: seq<byte>, p: nat, bytes: seq<byte>)
    requires p <= |s| || bytes != []
    ensures Holds(s, p, bytes) <==> p + |bytes| <= |s| && s[p..p + |bytes|] == bytes
    decreases |bytes|
  {
    if bytes != [] && p < |s| {
      HoldsSlice(s, p + 1, bytes[1..]);
      if p + |bytes| <= |s| {
        assert s[p..p + |bytes|] == [s[p]] + s[p + 1..p + |bytes|];
        assert bytes == [bytes[0]] + bytes[1..];
      }
    }
  }

  lemma HoldsRest(s: seq<byte>, p: nat, first: byte, rest: seq<byte>)
    ensures Holds(s, p, [first] + rest) <==> p < |s| && s[p] == first && Holds(s, p + 1, rest)
  {
    assert ([first] + rest)[1..] == rest;
  }

  lemma {:induction false} HoldsBoth(s: seq<byte>, p: nat, a: seq<byte>, b: seq<byte>)
    ensures Holds(s, p, a + b) <==> Holds(s, p, a) && Holds(s, p + |a|, b)
    decreases |a|
  {
    if a == [] {
      assert a + b == b;
    } else {
      assert a + b == [a[0]] + (a[1..] + b);
      HoldsRest(s, p, a[0], a[1..] + b);
      HoldsBoth(s, p + 1, a[1..], b);
    }
  }
}
