/** io_oheap and io_hmap: a case-insensitive map whose strings live on a bump heap. */
module HeaderMap {
  import opened Bytes

  /** The C string at `at`: the bytes up to the next NUL. */
  function CString(mem: seq<byte>, at: nat): seq<byte>
    decreases |mem| - at
  {
    if at >= |mem| || mem[at] == 0 then [] else [mem[at]] + CString(mem, at + 1)
  }

  /** tolower, in the C locale. */
  function Lower(ch: byte): byte {
    if 65 <= ch <= 90 then ch + 32 else ch
  }

  function Fold(s: seq<byte>): (r: seq<byte>)
    ensures |r| == |s| && forall i :: 0 <= i < |s| ==> r[i] == Lower(s[i])
  {
    if s == [] then [] else [Lower(s[0])] + Fold(s[1..])
  }

  /** strcasecmp(a, b) == 0 */
  predicate SameIgnoringCase(a: seq<byte>, b: seq<byte>) {
    Fold(a) == Fold(b)
  }

  /** The same character, or the two cases of one of the 26 letters. */
  predicate SameLetter(a: byte, b: byte) {
    || a == b
    || ('A' as int <= a <= 'Z' as int && b - a == 'a' as int - 'A' as int)
    || ('A' as int <= b <= 'Z' as int && a - b == 'a' as int - 'A' as int)
  }

  /** Two keys are the same exactly when they are as long and differ in the case of letters at most. */
  lemma SameIgnoringCaseIff(a: seq<byte>, b: seq<byte>)
    ensures SameIgnoringCase(a, b) <==> |a| == |b| && forall i :: 0 <= i < |a| ==> SameLetter(a[i], b[i])
  {
    if |a| == |b| {
      forall i | 0 <= i < |a|
        ensures Fold(a)[i] == Fold(b)[i] <==> SameLetter(a[i], b[i])
      {
      }
    }
  }

  /** strncasecmp(a, b, n) == 0: equal in the first `n` characters, or up to a common end. */
  predicate SamePrefixIgnoringCase(a: seq<byte>, b: seq<byte>, n: nat) {
    n == 0
    || (Lower(CharAt(a, 0)) == Lower(CharAt(b, 0))
        && (CharAt(a, 0) == 0 || SamePrefixIgnoringCase(a[1..], b[1..], n - 1)))
  }

  predicate NoNul(s: seq<byte>) {
    0 !in s
  }

  /** The sized comparison of a lookup agrees with the unsized one on the sized part of the key. */
  lemma {:induction false} SizedAgrees(a: seq<byte>, b: seq<byte>, n: nat)
    requires NoNul(a) && NoNul(b) && n <= |a|
    ensures (SamePrefixIgnoringCase(a, b, n) && CharAt(b, n) == 0) <==> SameIgnoringCase(a[..n], b)
    decreases n
  {
    if n == 0 {
    } else if b == [] {
      assert Lower(a[0]) != 0 by { assert a[0] in a; }
      assert |Fold(a[..n])| != |Fold(b)|;
    } else {
      assert a[0] in a && b[0] in b;
      SizedAgrees(a[1..], b[1..], n - 1);
      assert a[..n][1..] == a[1..][..n - 1];
      assert Fold(a[..n]) == [Lower(a[0])] + Fold(a[1..][..n - 1]);
      assert Fold(b) == [Lower(b[0])] + Fold(b[1..]);
      assert CharAt(b, n) == CharAt(b[1..], n - 1);
    }
  }

  // ----- the heap

  class Heap {
    const buf: array<byte>
    const end: nat
    var data: nat

    predicate Valid()
      reads this
    {
      data <= end <= buf.Length
    }

    /** io_oheap_init */
    constructor (buf: array<byte>)
      ensures Valid() && this.buf == buf && data == 0 && end == buf.Length
    {
      this.buf, end, data := buf, buf.Length, 0;
    }

    /** io_oheap_strdup of the C string `v`, or of its first `length` characters; a zero length means all of it. */
    method StrDup(v: seq<byte>, length: nat) returns (m: Option<nat>)
      requires Valid() && length <= |v|
      modifies this`data, buf
      ensures Valid()
      ensures
        var s := Duplicated(v, length);
        if |s| + 1 <= end - old(data) then
          m == Some(old(data)) && data == old(data) + |s| + 1 && buf[..data] == old(buf[..data]) + (s + [0])
        else
          m == None && data == old(data) && buf[..] == old(buf[..])
    {
      var n := if length == 0 then |v| else length;
      var size := n + 1;
      if end - data < size {
        return None;
      }
      var at := data;
      data := data + size;
      forall i | 0 <= i < n {
        buf[at + i] := v[i];
      }
      buf[at + n] := 0;
      m := Some(at);
    }
  }

  function Duplicated(v: seq<byte>, length: nat): seq<byte>
    requires length <= |v|
  {
    if length == 0 then v else v[..length]
  }

  // ----- the map

  datatype Entry = Entry(key: seq<byte>, value: seq<byte>)

  /** The two strings of an entry, each behind the other in the order in which C evaluates two arguments. */
  function EntryBytes(e: Entry, keyFirst: bool): seq<byte> {
    if keyFirst then e.key + [0] + (e.value + [0]) else e.value + [0] + (e.key + [0])
  }

  /** The used part of the heap. */
  function Layout(entries: seq<Entry>, keyFirst: bool): seq<byte> {
    if entries == [] then [] else EntryBytes(entries[0], keyFirst) + Layout(entries[1..], keyFirst)
  }

  lemma {:induction false} LayoutAppend(a: seq<Entry>, b: seq<Entry>, keyFirst: bool)
    ensures Layout(a + b, keyFirst) == Layout(a, keyFirst) + Layout(b, keyFirst)
  {
    if a == [] {
      assert a + b == b;
    } else {
      assert (a + b)[1..] == a[1..] + b;
      LayoutAppend(a[1..], b, keyFirst);
    }
  }

  /** Where the key of the i-th entry lies. */
  function KeyAt(entries: seq<Entry>, i: nat, keyFirst: bool): nat
    requires i < |entries|
  {
    |Layout(entries[..i], keyFirst)| + if keyFirst then 0 else |entries[i].value| + 1
  }

  function ValueAt(entries: seq<Entry>, i: nat, keyFirst: bool): nat
    requires i < |entries|
  {
    |Layout(entries[..i], keyFirst)| + if keyFirst then |entries[i].key| + 1 else 0
  }

  lemma {:induction false} CStringIn(mem: seq<byte>, at: nat, s: seq<byte>)
    requires NoNul(s) && Holds(mem, at, s) && CharAt(mem, at + |s|) == 0
    ensures CString(mem, at) == s
    decreases |s|
  {
    if s != [] {
      assert s[0] in s;
      CStringIn(mem, at + 1, s[1..]);
    }
  }

  lemma StringHeld(mem: seq<byte>, at: nat, s: seq<byte>)
    requires NoNul(s) && Holds(mem, at, s + [0])
    ensures CString(mem, at) == s
  {
    HoldsBoth(mem, at, s, [0]);
    CStringIn(mem, at, s);
  }

  lemma TwoStringsHeld(mem: seq<byte>, at: nat, first: seq<byte>, second: seq<byte>)
    requires NoNul(first) && NoNul(second) && Holds(mem, at, first + [0] + (second + [0]))
    ensures CString(mem, at) == first && CString(mem, at + |first| + 1) == second
  {
    HoldsBoth(mem, at, first + [0], second + [0]);
    StringHeld(mem, at, first);
    StringHeld(mem, at + |first| + 1, second);
  }

  lemma LayoutAt(entries: seq<Entry>, i: nat, keyFirst: bool)
    requires i < |entries|
    ensures Layout(entries, keyFirst)
            == Layout(entries[..i], keyFirst) + EntryBytes(entries[i], keyFirst) + Layout(entries[i + 1..], keyFirst)
  {
    assert entries == entries[..i] + ([entries[i]] + entries[i + 1..]);
    LayoutAppend(entries[..i], [entries[i]] + entries[i + 1..], keyFirst);
    LayoutAppend([entries[i]], entries[i + 1..], keyFirst);
    assert Layout([entries[i]], keyFirst) == EntryBytes(entries[i], keyFirst);
  }

  lemma MiddleHeld(mem: seq<byte>, before: seq<byte>, here: seq<byte>, after: seq<byte>)
    requires before + here + after <= mem
    ensures Holds(mem, |before|, here)
  {
    HoldsSlice(mem, 0, before + here + after);
    HoldsBoth(mem, 0, before + here, after);
    HoldsBoth(mem, 0, before, here);
  }

  lemma EntryHeld(mem: seq<byte>, entries: seq<Entry>, i: nat, keyFirst: bool, at: nat, e: Entry)
    requires i < |entries| && Layout(entries, keyFirst) <= mem
    requires at == |Layout(entries[..i], keyFirst)| && e == entries[i]
    ensures Holds(mem, at, EntryBytes(e, keyFirst))
  {
    LayoutAt(entries, i, keyFirst);
    var before, after := Layout(entries[..i], keyFirst), Layout(entries[i + 1..], keyFirst);
    MiddleHeld(mem, before, EntryBytes(e, keyFirst), after);
  }

  /** The two strings of an entry that the heap holds. */
  lemma EntryRead(mem: seq<byte>, at: nat, e: Entry, keyFirst: bool)
    requires NoNul(e.key) && NoNul(e.value) && Holds(mem, at, EntryBytes(e, keyFirst))
    ensures CString(mem, at + if keyFirst then 0 else |e.value| + 1) == e.key
    ensures CString(mem, at + if keyFirst then |e.key| + 1 else 0) == e.value
  {
    if keyFirst {
      TwoStringsHeld(mem, at, e.key, e.value);
    } else {
      TwoStringsHeld(mem, at, e.value, e.key);
    }
  }

  /** Whatever the heap holds behind them, the strings of every entry are read back. */
  lemma StringsOf(mem: seq<byte>, entries: seq<Entry>, i: nat, keyFirst: bool, e: Entry, keyAt: nat, valueAt: nat)
    requires i < |entries| && e == entries[i] && Layout(entries, keyFirst) <= mem && NoNul(e.key) && NoNul(e.value)
    requires keyAt == KeyAt(entries, i, keyFirst) && valueAt == ValueAt(entries, i, keyFirst)
    ensures CString(mem, keyAt) == e.key && CString(mem, valueAt) == e.value
  {
    var at := |Layout(entries[..i], keyFirst)|;
    EntryHeld(mem, entries, i, keyFirst, at, e);
    EntryRead(mem, at, e, keyFirst);
  }

  /** The heap an entry takes: its two strings, each with its NUL. */
  function Size(e: Entry): nat {
    |e.key| + 1 + |e.value| + 1
  }

  function Use(entries: seq<Entry>): nat {
    if entries == [] then 0 else Size(entries[0]) + Use(entries[1..])
  }

  /** Heap use: every string and its NUL, and nothing else. */
  lemma {:induction false} LayoutSize(entries: seq<Entry>, keyFirst: bool)
    ensures |Layout(entries, keyFirst)| == Use(entries)
  {
    if entries != [] {
      LayoutSize(entries[1..], keyFirst);
    }
  }

  /** The memory of different entries does not overlap: each ends where the next begins, or before. */
  lemma EntriesDisjoint(entries: seq<Entry>, i: nat, j: nat, keyFirst: bool)
    requires i < j < |entries|
    ensures |Layout(entries[..i], keyFirst)| + |EntryBytes(entries[i], keyFirst)| <= |Layout(entries[..j], keyFirst)|
  {
    LayoutAt(entries[..j], i, keyFirst);
    assert entries[..j][..i] == entries[..i];
  }

  /** The index of the entry a lookup finds: the first with this key in any casing. */
  function Find(entries: seq<Entry>, key: seq<byte>): (i: Option<nat>)
    ensures i.Some? ==> i.value < |entries|
  {
    if entries == [] then None
    else if SameIgnoringCase(key, entries[0].key) then Some(0)
    else
      match Find(entries[1..], key)
      case None => None
      case Some(i) => Some(i + 1)
  }

  lemma {:induction false} FindSpec(entries: seq<Entry>, key: seq<byte>)
    ensures
      var i := Find(entries, key);
      && (i.Some? ==> SameIgnoringCase(key, entries[i.value].key))
      && forall k :: 0 <= k < (if i.Some? then i.value else |entries|) ==> !SameIgnoringCase(key, entries[k].key)
  {
    if entries != [] {
      FindSpec(entries[1..], key);
      assert forall k :: 0 < k < |entries| ==> entries[k] == entries[1..][k - 1];
    }
  }

  ghost predicate DistinctKeys(entries: seq<Entry>) {
    forall i, j :: 0 <= i < j < |entries| ==> !SameIgnoringCase(entries[i].key, entries[j].key)
  }

  /** With distinct keys a lookup in any casing finds the entry, wherever it stands. */
  lemma FindsAnyCasing(entries: seq<Entry>, i: nat, key: seq<byte>)
    requires DistinctKeys(entries) && i < |entries| && SameIgnoringCase(key, entries[i].key)
    ensures Find(entries, key) == Some(i)
  {
    forall k | 0 <= k < i
      ensures !SameIgnoringCase(key, entries[k].key)
    {
      assert !SameIgnoringCase(entries[k].key, entries[i].key);
    }
    FindIsFirst(entries, i, key);
  }

  lemma FindIsFirst(entries: seq<Entry>, i: nat, key: seq<byte>)
    requires i < |entries| && SameIgnoringCase(key, entries[i].key)
    requires forall k :: 0 <= k < i ==> !SameIgnoringCase(key, entries[k].key)
    ensures Find(entries, key) == Some(i)
  {
    FindSpec(entries, key);
  }

  /** A pointer pair; a null pointer is what a full heap gives. */
  datatype KeyValue = KeyValue(key: Option<nat>, value: Option<nat>)

  function PairOf(entries: seq<Entry>, i: nat, keyFirst: bool): KeyValue
    requires i < |entries|
  {
    KeyValue(Some(KeyAt(entries, i, keyFirst)), Some(ValueAt(entries, i, keyFirst)))
  }

  /** A new entry lies behind the others, and leaves them where they are. */
  lemma PairsWithNew(entries: seq<Entry>, e: Entry, keyFirst: bool)
    ensures forall i :: 0 <= i < |entries| ==> PairOf(entries + [e], i, keyFirst) == PairOf(entries, i, keyFirst)
    ensures
      var at := |Layout(entries, keyFirst)|;
      PairOf(entries + [e], |entries|, keyFirst)
      == KeyValue(Some(at + if keyFirst then 0 else |e.value| + 1), Some(at + if keyFirst then |e.key| + 1 else 0))
  {
    forall i | 0 <= i <= |entries|
      ensures (entries + [e])[..i] == entries[..i]
    {
    }
    assert entries[..|entries|] == entries;
  }

  lemma LayoutWithNew(mem: seq<byte>, entries: seq<Entry>, e: Entry, keyFirst: bool)
    requires mem == Layout(entries, keyFirst)
    ensures mem + EntryBytes(e, keyFirst) == Layout(entries + [e], keyFirst)
  {
    LayoutAppend(entries, [e], keyFirst);
    assert Layout([e], keyFirst) == EntryBytes(e, keyFirst);
  }

  /** The pairs point at the strings of `entries`, which `mem` begins with. */
  ghost predicate Laid(pairs: seq<KeyValue>, mem: seq<byte>, entries: seq<Entry>, keyFirst: bool) {
    && |pairs| == |entries| && Layout(entries, keyFirst) <= mem
    && (forall i :: 0 <= i < |entries| ==> pairs[i] == PairOf(entries, i, keyFirst))
    && (forall i :: 0 <= i < |entries| ==> NoNul(entries[i].key) && NoNul(entries[i].value))
  }

  lemma PairLaid(pairs: seq<KeyValue>, mem: seq<byte>, entries: seq<Entry>, keyFirst: bool, i: nat)
    requires Laid(pairs, mem, entries, keyFirst) && i < |pairs|
    ensures i < |entries| && pairs[i].key.Some? && CString(mem, pairs[i].key.value) == entries[i].key
    ensures pairs[i].value == Some(ValueAt(entries, i, keyFirst))
    ensures CString(mem, ValueAt(entries, i, keyFirst)) == entries[i].value
  {
    StringsOf(mem, entries, i, keyFirst, entries[i], pairs[i].key.value, pairs[i].value.value);
  }

  /** More memory in use leaves the entries where they are. */
  lemma LaidFurther(pairs: seq<KeyValue>, mem: seq<byte>, more: seq<byte>, entries: seq<Entry>, keyFirst: bool)
    requires Laid(pairs, mem, entries, keyFirst) && mem <= more
    ensures Laid(pairs, more, entries, keyFirst)
  {
  }

  lemma LaidWithNew(pairs: seq<KeyValue>, mem: seq<byte>, entries: seq<Entry>, keyFirst: bool, e: Entry)
    requires Laid(pairs, mem, entries, keyFirst) && |mem| == |Layout(entries, keyFirst)|
    requires NoNul(e.key) && NoNul(e.value)
    ensures
      var pair := PairOf(entries + [e], |entries|, keyFirst);
      Laid(pairs + [pair], mem + EntryBytes(e, keyFirst), entries + [e], keyFirst)
    ensures |mem + EntryBytes(e, keyFirst)| == |Layout(entries + [e], keyFirst)|
    ensures PairOf(entries + [e], |entries|, keyFirst)
            == KeyValue(Some(|mem| + if keyFirst then 0 else |e.value| + 1),
                        Some(|mem| + if keyFirst then |e.key| + 1 else 0))
  {
    assert mem == Layout(entries, keyFirst);
    PairsWithNew(entries, e, keyFirst);
    LayoutWithNew(mem, entries, e, keyFirst);
  }

  class Map {
    const heap: Heap
    const kvs: array<KeyValue>
    // the order in which the compiler evaluates the two strdup arguments
    const keyFirst: bool
    var last: nat
    ghost var entries: seq<Entry>

    /** The strings of `entries` fill the heap up to `data` while the map has room. */
    ghost predicate Sound()
      reads this, heap, heap.buf, kvs
    {
      && heap.Valid() && last <= kvs.Length
      && Laid(kvs[..last], heap.buf[..heap.data], entries, keyFirst)
      && (last < kvs.Length ==> heap.data == |Layout(entries, keyFirst)|)
    }

    /** io_hmap_create */
    constructor (limit: nat, heapSize: nat, keyFirst: bool)
      ensures Sound() && entries == [] && kvs.Length == limit && heap.end == heapSize && heap.data == 0
      ensures this.keyFirst == keyFirst
      ensures fresh(heap) && fresh(heap.buf) && fresh(kvs)
    {
      var buf := new byte[heapSize];
      heap := new Heap(buf);
      kvs := new KeyValue[limit](_ => KeyValue(None, None));
      this.keyFirst := keyFirst;
      last, entries := 0, [];
    }

    /** io_map_getc */
    method Get(key: seq<byte>) returns (value: Option<nat>)
      requires Sound()
      ensures match Find(entries, key)
              case None => value == None
              case Some(i) => value == Some(ValueAt(entries, i, keyFirst))
                              && CString(heap.buf[..heap.data], value.value) == entries[i].value
    {
      var i := 0;
      while i < last
        invariant i <= last
        invariant forall k :: 0 <= k < i ==> !SameIgnoringCase(key, entries[k].key)
      {
        var kv := kvs[i];
        PairLaid(kvs[..last], heap.buf[..heap.data], entries, keyFirst, i);
        if SameIgnoringCase(key, CString(heap.buf[..heap.data], kv.key.value)) {
          FindIsFirst(entries, i, key);
          return kv.value;
        }
        i := i + 1;
      }
      FindSpec(entries, key);
      value := None;
    }

    /** io_map_getcs: the key is the first `size` characters of `key`. */
    method GetSized(key: seq<byte>, size: nat) returns (value: Option<nat>)
      requires Sound() && NoNul(key) && size <= |key|
      ensures match Find(entries, key[..size])
              case None => value == None
              case Some(i) => value == Some(ValueAt(entries, i, keyFirst))
                              && CString(heap.buf[..heap.data], value.value) == entries[i].value
    {
      var i := 0;
      while i < last
        invariant i <= last
        invariant forall k :: 0 <= k < i ==> !SameIgnoringCase(key[..size], entries[k].key)
      {
        var kv := kvs[i];
        PairLaid(kvs[..last], heap.buf[..heap.data], entries, keyFirst, i);
        var stored := CString(heap.buf[..heap.data], kv.key.value);
        SizedAgrees(key, stored, size);
        if SamePrefixIgnoringCase(key, stored, size) && CharAt(stored, size) == 0 {
          FindIsFirst(entries, i, key[..size]);
          return kv.value;
        }
        i := i + 1;
      }
      FindSpec(entries, key[..size]);
      value := None;
    }

    /** io_map_new_kv */
    method NewPair(kv: KeyValue) returns (result: int)
      requires last <= kvs.Length
      modifies this`last, kvs
      ensures result == if old(last) < kvs.Length then 0 else -1
      ensures last == if result == 0 then old(last) + 1 else old(last)
      ensures kvs[..last] == old(kvs[..last]) + (if result == 0 then [kv] else [])
    {
      if last >= kvs.Length {
        return -1;
      }
      kvs[last] := kv;
      last := last + 1;
      result := 0;
    }

    /** Copies both strings to the heap, in the order of the compiler. */
    method StrDupBoth(key: seq<byte>, keyLength: nat, value: seq<byte>, valueLength: nat) returns (kv: KeyValue)
      requires heap.Valid() && keyLength <= |key| && valueLength <= |value|
      modifies heap`data, heap.buf
      ensures heap.Valid() && old(heap.data) <= heap.data && old(heap.buf[..heap.data]) <= heap.buf[..heap.data]
      ensures
        var e := Entry(Duplicated(key, keyLength), Duplicated(value, valueLength));
        var at, need := old(heap.data), |e.key| + 1 + |e.value| + 1;
        if need <= heap.end - at then
          && heap.data == at + need && heap.buf[..heap.data] == old(heap.buf[..heap.data]) + EntryBytes(e, keyFirst)
          && kv == KeyValue(Some(at + if keyFirst then 0 else |e.value| + 1),
                            Some(at + if keyFirst then |e.key| + 1 else 0))
        else
          kv.key == None || kv.value == None
    {
      var k, v;
      if keyFirst {
        k := heap.StrDup(key, keyLength);
        v := heap.StrDup(value, valueLength);
      } else {
        v := heap.StrDup(value, valueLength);
        k := heap.StrDup(key, keyLength);
      }
      kv := KeyValue(k, v);
    }

    /** The heap has room for both strings. */
    ghost predicate HasRoom(e: Entry)
      reads this, heap
    {
      Size(e) <= heap.end - heap.data
    }

    /** What every addition does once it has found no such key; a full heap leaves a null pointer in the map. */
    method Append(key: seq<byte>, keyLength: nat, value: seq<byte>, valueLength: nat) returns (result: int)
      requires Sound() && NoNul(key) && NoNul(value) && keyLength <= |key| && valueLength <= |value|
      modifies this, heap`data, heap.buf, kvs
      ensures result == if old(last) < kvs.Length then 0 else -1
      ensures
        var e := Entry(Duplicated(key, keyLength), Duplicated(value, valueLength));
        if old(HasRoom(e)) || result == -1 then
          && Sound() && entries == old(entries) + (if result == 0 then [e] else [])
          && (result == 0 ==> heap.data == old(heap.data) + Size(e))
        else
          last == old(last) + 1 && (kvs[old(last)].key == None || kvs[old(last)].value == None)
    {
      ghost var e := Entry(Duplicated(key, keyLength), Duplicated(value, valueLength));
      ghost var pairs, mem := kvs[..last], heap.buf[..heap.data];
      assert NoNul(e.key) && NoNul(e.value);
      var kv := StrDupBoth(key, keyLength, value, valueLength);
      result := NewPair(kv);
      if result == 0 {
        LaidWithNew(pairs, mem, entries, keyFirst, e);
        entries := entries + [e];
        assert kvs[..last] == pairs + [kv];
        assert old(HasRoom(e)) ==> heap.buf[..heap.data] == mem + EntryBytes(e, keyFirst);
      } else {
        LaidFurther(pairs, mem, heap.buf[..heap.data], entries, keyFirst);
      }
    }

    /** What an addition promises; -1 stands for EEXIST and for ENOMEM. */
    twostate predicate Added(sought: seq<byte>, e: Entry, result: int)
      reads this, heap, heap.buf, kvs
    {
      if old(Find(entries, sought)).Some? then
        result == -1 && Sound() && entries == old(entries) && heap.data == old(heap.data)
      else if old(last) >= kvs.Length then
        result == -1 && Sound() && entries == old(entries)
      else if old(HasRoom(e)) then
        result == 0 && Sound() && entries == old(entries) + [e] && heap.data == old(heap.data) + Size(e)
      else
        result == 0 && last == old(last) + 1 && (kvs[old(last)].key == None || kvs[old(last)].value == None)
    }

    /** io_hmap_add */
    method Add(key: seq<byte>, value: seq<byte>) returns (result: int)
      requires Sound() && NoNul(key) && NoNul(value)
      modifies this, heap`data, heap.buf, kvs
      ensures Added(key, Entry(key, value), result)
    {
      var found := Get(key);
      if found.Some? {
        return -1;
      }
      result := Append(key, 0, value, 0);
    }

    /** io_hmap_addl: the key and the value are the first characters of longer strings. */
    method AddSized(key: seq<byte>, keyLength: nat, value: seq<byte>, valueLength: nat) returns (result: int)
      requires Sound() && NoNul(key) && NoNul(value) && keyLength <= |key| && valueLength <= |value|
      modifies this, heap`data, heap.buf, kvs
      ensures Added(key[..keyLength], Entry(Duplicated(key, keyLength), Duplicated(value, valueLength)), result)
    {
      var found := GetSized(key, keyLength);
      if found.Some? {
        return -1;
      }
      result := Append(key, keyLength, value, valueLength);
    }

    /** A run of additions, for which the heap has room. */
    method AddEach(additions: seq<Entry>)
      requires Sound() && forall i :: 0 <= i < |additions| ==> NoNul(additions[i].key) && NoNul(additions[i].value)
      requires Use(AddAll(entries, kvs.Length, additions)) - Use(entries) <= heap.end - heap.data
      modifies this, heap`data, heap.buf, kvs
      ensures Sound() && entries == AddAll(old(entries), kvs.Length, additions)
      decreases |additions|
    {
      if additions == [] {
        return;
      }
      var e := additions[0];
      AddAllRoom(entries, kvs.Length, additions);
      var result := Add(e.key, e.value);
      if last >= kvs.Length {
        FullStays(entries, kvs.Length, additions[1..]);
      }
      AddEach(additions[1..]);
    }
  }

  /** An addition that found no such key keeps the keys distinct exactly when it stores the key it looked for. */
  lemma AdditionKeepsDistinctIff(entries: seq<Entry>, sought: seq<byte>, e: Entry)
    requires DistinctKeys(entries) && Find(entries, sought) == None
    requires e.key == sought || sought == []
    ensures DistinctKeys(entries + [e]) <==> (e.key == sought || Find(entries, e.key) == None)
  {
    var all := entries + [e];
    FindSpec(entries, e.key);
    if e.key == sought || Find(entries, e.key) == None {
      forall i, j | 0 <= i < j < |all|
        ensures !SameIgnoringCase(all[i].key, all[j].key)
      {
        assert j == |entries| ==> !SameIgnoringCase(e.key, all[i].key);
      }
    } else {
      var i := Find(entries, e.key).value;
      assert all[i] == entries[i] && all[|entries|] == e;
      assert SameIgnoringCase(all[i].key, all[|entries|].key);
    }
  }

  /** The first successful addition of a key wins: what a lookup finds, later additions do not change. */
  lemma FirstAdditionWins(entries: seq<Entry>, e: Entry, key: seq<byte>)
    requires Find(entries, key).Some?
    ensures Find(entries + [e], key) == Find(entries, key)
  {
    FindSpec(entries, key);
    var i := Find(entries, key).value;
    forall k | 0 <= k < i
      ensures !SameIgnoringCase(key, (entries + [e])[k].key)
    {
    }
    FindIsFirst(entries + [e], i, key);
  }

  /** A run of additions with enough heap: what the map holds afterwards. */
  function AddAll(entries: seq<Entry>, limit: nat, additions: seq<Entry>): seq<Entry>
    decreases |additions|
  {
    if additions == [] then entries
    else
      var e := additions[0];
      var next := if Find(entries, e.key).Some? || |entries| >= limit then entries else entries + [e];
      AddAll(next, limit, additions[1..])
  }

  lemma {:induction false} UseAppend(a: seq<Entry>, b: seq<Entry>)
    ensures Use(a + b) == Use(a) + Use(b)
  {
    if a == [] {
      assert a + b == b;
    } else {
      assert (a + b)[1..] == a[1..] + b;
      UseAppend(a[1..], b);
    }
  }

  lemma {:induction false} AddAllExtends(entries: seq<Entry>, limit: nat, additions: seq<Entry>)
    ensures entries <= AddAll(entries, limit, additions)
    decreases |additions|
  {
    if additions != [] {
      var e := additions[0];
      var refused := Find(entries, e.key).Some? || |entries| >= limit;
      AddAllExtends(if refused then entries else entries + [e], limit, additions[1..]);
    }
  }

  lemma {:induction false} FullStays(entries: seq<Entry>, limit: nat, additions: seq<Entry>)
    requires |entries| >= limit
    ensures AddAll(entries, limit, additions) == entries
    decreases |additions|
  {
    if additions != [] {
      FullStays(entries, limit, additions[1..]);
    }
  }

  /** Room for what a run adds is room for its first addition. */
  lemma AddAllRoom(entries: seq<Entry>, limit: nat, additions: seq<Entry>)
    requires additions != []
    ensures Use(entries) <= Use(AddAll(entries, limit, additions))
    ensures !(Find(entries, additions[0].key).Some? || |entries| >= limit) ==>
              && Use(entries + [additions[0]]) == Use(entries) + Size(additions[0])
              && Use(entries) + Size(additions[0]) <= Use(AddAll(entries, limit, additions))
  {
    var all, more := AddAll(entries, limit, additions), entries + [additions[0]];
    AddAllExtends(entries, limit, additions);
    UseAppend(entries, all[|entries|..]);
    assert entries + all[|entries|..] == all;
    UseAppend(entries, [additions[0]]);
    assert Use([additions[0]]) == Size(additions[0]);
    if !(Find(entries, additions[0].key).Some? || |entries| >= limit) {
      AddAllExtends(more, limit, additions[1..]);
      UseAppend(more, all[|more|..]);
      assert more + all[|more|..] == all;
    }
  }

  /** After any run of additions the keys are distinct, and every key keeps the value it first got. */
  lemma {:induction false} RunOfAdditions(entries: seq<Entry>, limit: nat, additions: seq<Entry>, key: seq<byte>)
    requires DistinctKeys(entries)
    ensures DistinctKeys(AddAll(entries, limit, additions)) && entries <= AddAll(entries, limit, additions)
    ensures Find(entries, key).Some? ==> Find(AddAll(entries, limit, additions), key) == Find(entries, key)
    ensures |entries| + |additions| <= limit ==>
              (Find(AddAll(entries, limit, additions), key).Some? <==>
               Find(entries, key).Some? || exists i :: 0 <= i < |additions| && SameIgnoringCase(key, additions[i].key))
    decreases |additions|
  {
    if additions != [] {
      var e := additions[0];
      if Find(entries, e.key).Some? || |entries| >= limit {
        RunOfAdditions(entries, limit, additions[1..], key);
        if SameIgnoringCase(key, e.key) && Find(entries, e.key).Some? {
          FindSpec(entries, e.key);
          FindSpec(entries, key);
          var i := Find(entries, e.key).value;
          assert SameIgnoringCase(key, entries[i].key);
        }
      } else {
        AdditionKeepsDistinctIff(entries, e.key, e);
        RunOfAdditions(entries + [e], limit, additions[1..], key);
        if Find(entries, key).Some? {
          FirstAdditionWins(entries, e, key);
        }
        FindWithNew(entries, e, key);
      }
      assert additions == [e] + additions[1..];
    }
  }

  lemma FindWithNew(entries: seq<Entry>, e: Entry, key: seq<byte>)
    ensures Find(entries + [e], key).Some? <==> Find(entries, key).Some? || SameIgnoringCase(key, e.key)
  {
    var all := entries + [e];
    FindSpec(entries, key);
    FindSpec(all, key);
    if Find(entries, key).Some? {
      assert SameIgnoringCase(key, all[Find(entries, key).value].key);
    }
    assert all[|entries|] == e;
    forall k | 0 <= k < |entries|
      ensures all[k] == entries[k]
    {
    }
  }
}
