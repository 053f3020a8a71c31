/**
 What the field scan makes of bytes that no writer emits: messages cut off inside their last field, wire
 types it does not know, and numbers above 2^53.
 */
module WireEdges {
  import opened Wrappers
  import opened Wire

  // ---------- a message cut off ----------

  /** What comes before the bytes of a field that holds bytes. */
  function Head(f: WireField): (bs: Bytes)
    requires !f.VarintField?
    ensures |bs| >= 1
  {
    EncodeVarint(f.number * 8 + WireType(f)) + if f.LenField? then EncodeVarint(|f.bytes|) else []
  }

  lemma HeadIs(f: WireField)
    requires !f.VarintField?
    ensures EncodeField(f) == Head(f) + f.bytes
  {
    hide EncodeVarint;
    var key := EncodeVarint(f.number * 8 + WireType(f));
    if f.LenField? {
      assert key + (EncodeVarint(|f.bytes|) + f.bytes) == key + EncodeVarint(|f.bytes|) + f.bytes;
    } else {
      assert key + [] == key;
    }
  }

  lemma SubarrayCut(buf: Bytes, start: nat, end: nat)
    requires start <= |buf| < end
    ensures Subarray(buf, start, end) == buf[start..]
  {
  }

  lemma CutValue(buf: Bytes, f: WireField, n: nat)
    requires Writable(f) && !f.VarintField? && n < |f.bytes| && buf == Head(f) + f.bytes[..n]
    ensures var at := |EncodeVarint(f.number * 8 + WireType(f))|;
            Varint(buf, 0) == VarintRead(Fin(f.number * 8 + WireType(f)), at) &&
            ValueAt(buf, WireType(f), at) == Ok(ValueRead(Buffer(f.bytes[..n]), |Head(f)| + |f.bytes|))
  {
    hide EncodeVarint, Varint;
    var key := EncodeVarint(f.number * 8 + WireType(f));
    assert buf[..|key|] == key;
    assert Occurs(buf, 0, key);
    VarintRoundTrip(buf, 0, f.number * 8 + WireType(f));
    if f.LenField? {
      var len := EncodeVarint(|f.bytes|);
      assert buf[|key|..|key| + |len|] == len;
      assert Occurs(buf, |key|, len);
      VarintRoundTrip(buf, |key|, |f.bytes|);
    }
    assert buf[|Head(f)|..] == f.bytes[..n];
    SubarrayCut(buf, |Head(f)|, |Head(f)| + |f.bytes|);
  }

  lemma OnlyField(buf: Bytes, field: Field, next: nat)
    requires 0 < |buf| <= next && FieldAt(buf, 0) == Ok(FieldRead(field, next))
    ensures FieldsOf(Buffer(buf)) == Ok([field])
  {
    hide FieldAt;
    assert FieldsFrom(buf, next) == Ok([]);
    assert [field] + [] == [field];
  }

  lemma CutField(f: WireField, n: nat)
    requires Writable(f) && !f.VarintField? && n < |f.bytes|
    ensures FieldsOf(Buffer(Head(f) + f.bytes[..n])) == Ok([Field(f.number, Buffer(f.bytes[..n]))])
  {
    hide *;
    var buf := Head(f) + f.bytes[..n];
    CutValue(buf, f, n);
    FieldAtIs(buf, 0, f, |EncodeVarint(f.number * 8 + WireType(f))|);
    OnlyField(buf, Field(f.number, Buffer(f.bytes[..n])), |Head(f)| + |f.bytes|);
  }

  /** A message cut off inside the bytes of its last field is no error: the field comes back with the bytes
      that are left. */
  lemma CutOffIsAccepted(fs: seq<WireField>, f: WireField, n: nat)
    requires forall i :: 0 <= i < |fs| ==> Writable(fs[i])
    requires Writable(f) && !f.VarintField? && n < |f.bytes|
    ensures var whole := EncodeFields(fs) + EncodeField(f);
            FieldsOf(Buffer(whole[..|whole| - |f.bytes| + n])) ==
            Ok(AsFields(fs) + [Field(f.number, Buffer(f.bytes[..n]))])
  {
    hide FieldsOf, EncodeFields, ExactFrom, Head, EncodeField;
    HeadIs(f);
    CutField(f, n);
    FieldsRoundTrip(fs);
    FieldsConcat(EncodeFields(fs), Head(f) + f.bytes[..n]);
    var whole := EncodeFields(fs) + EncodeField(f);
    assert whole[..|whole| - |f.bytes| + n] == EncodeFields(fs) + (Head(f) + f.bytes[..n]);
  }

  // ---------- wire types the scan does not know ----------

  lemma UnknownField(number: nat, wire: nat, rest: Bytes)
    requires number * 8 + 7 < EXACT && wire in {3, 4, 6, 7}
    ensures FieldsOf(Buffer(EncodeVarint(number * 8 + wire) + rest)) == Err(UnsupportedWireType)
  {
    hide EncodeVarint, Varint;
    var key := EncodeVarint(number * 8 + wire);
    var buf := key + rest;
    assert buf[..|key|] == key;
    assert Occurs(buf, 0, key);
    VarintRoundTrip(buf, 0, number * 8 + wire);
    KeyParts(number, wire);
  }

  /** Any other wire type fails the whole message, whatever came before and whatever follows. */
  lemma UnknownWireTypeFails(fs: seq<WireField>, number: nat, wire: nat, rest: Bytes)
    requires forall i :: 0 <= i < |fs| ==> Writable(fs[i])
    requires number * 8 + 7 < EXACT && wire in {3, 4, 6, 7}
    ensures FieldsOf(Buffer(EncodeFields(fs) + (EncodeVarint(number * 8 + wire) + rest))) == Err(UnsupportedWireType)
  {
    hide FieldsOf, EncodeFields, ExactFrom, EncodeVarint;
    UnknownField(number, wire, rest);
    FieldsRoundTrip(fs);
    FieldsConcat(EncodeFields(fs), EncodeVarint(number * 8 + wire) + rest);
  }

  // ---------- numbers that are not exact ----------

  function Distance(a: nat, b: nat): nat {
    if a <= b then b - a else a - b
  }

  /** m * 2^k is a nearest number of at most 53 significant bits to x, the even one of two. */
  ghost predicate NearestEven(x: nat, m: nat, k: nat) {
    && m <= 0x20_0000_0000_0000 && (k > 0 ==> m >= 0x10_0000_0000_0000)
    && 2 * Distance(x, m * Shl(1, k)) <= Shl(1, k)
    && (2 * Distance(x, m * Shl(1, k)) == Shl(1, k) ==> m % 2 == 0)
  }

  lemma LastOfLoop(n: nat, half: bool, sticky: bool, p: nat, low: nat)
    requires low < p && (p == 1 || p % 2 == 0) && n < EXACT
    requires half == (p > 1 && 2 * low >= p) && sticky == (low != 0 && 2 * low != p)
    ensures var r := Rounded(n, half, sticky);
            n <= r <= EXACT && 2 * Distance(n * p + low, r * p) <= p &&
            (2 * Distance(n * p + low, r * p) == p ==> r % 2 == 0)
  {
    var r := Rounded(n, half, sticky);
    assert r == n || r == n + 1;
    if r == n + 1 { assert r * p == n * p + p; }
  }

  /** One bit more dropped. */
  lemma DropBit(n: nat, p: nat, low: nat)
    requires low < p
    ensures var low' := if n % 2 == 1 then p + low else low;
            low' < 2 * p && n * p + low == n / 2 * (2 * p) + low' && (n % 2 == 1 <==> low' >= p) &&
            (low' != 0 && low' != p <==> low != 0)
  {
    var h := n / 2;
    assert n == 2 * h + n % 2;
    assert h * (2 * p) == 2 * h * p;
    if n % 2 == 1 { assert (2 * h + 1) * p == 2 * h * p + p; }
  }

  lemma TimesTwo(r: nat, p: nat)
    ensures 2 * r * p == r * (2 * p)
  {
  }

  /** half and sticky say what the dropped bits come to: low of p = 2^j. */
  predicate Dropped(half: bool, sticky: bool, j: nat, low: nat) {
    low < Shl(1, j) && half == (j > 0 && 2 * low >= Shl(1, j)) && sticky == (low != 0 && 2 * low != Shl(1, j))
  }

  lemma DroppedMore(n: nat, half: bool, sticky: bool, j: nat, low: nat) returns (low': nat)
    requires Dropped(half, sticky, j, low)
    ensures Dropped(n % 2 == 1, half || sticky, j + 1, low')
    ensures n * Shl(1, j) + low == n / 2 * Shl(1, j + 1) + low'
  {
    var p := Shl(1, j);
    DropBit(n, p, low);
    low' := if n % 2 == 1 then p + low else low;
    assert Shl(1, j + 1) == 2 * p && (j == 0 ==> p == 1);
    hide Shl;
  }

  lemma LastDropped(n: nat, half: bool, sticky: bool, j: nat, low: nat)
    requires Dropped(half, sticky, j, low) && n < EXACT && (j > 0 ==> 2 * n + 1 >= EXACT)
    ensures NearestEven(n * Shl(1, j) + low, Rounded(n, half, sticky), j)
  {
    assert Shl(1, j) == (if j == 0 then 1 else 2 * Shl(1, j - 1)) && Shl(1, j) >= 1;
    assert j > 0 ==> Shl(1, j - 1) >= 1;
    LastOfLoop(n, half, sticky, Shl(1, j), low);
    hide Shl, Rounded, Distance;
  }

  /** The dropping of bits, j of them already gone: n * 2^j + low is the number so far. */
  lemma {:induction false} RoundedFrom(n: nat, half: bool, sticky: bool, j: nat, low: nat)
    returns (m: nat, k: nat)
    requires Dropped(half, sticky, j, low) && (j > 0 ==> 2 * n + 1 >= EXACT)
    ensures Rounded(n, half, sticky) * Shl(1, j) == m * Shl(1, k)
    ensures NearestEven(n * Shl(1, j) + low, m, k)
    decreases n
  {
    hide Dropped, NearestEven;
    if n < EXACT {
      LastDropped(n, half, sticky, j, low);
      m, k := Rounded(n, half, sticky), j;
    } else {
      var low' := DroppedMore(n, half, sticky, j, low);
      m, k := RoundedFrom(n / 2, n % 2 == 1, half || sticky, j + 1, low');
      TimesTwo(Rounded(n / 2, n % 2 == 1, half || sticky), Shl(1, j));
    }
  }

  /** Numbers above 2^53 are read as the nearest double, ties to even, as long as one is large enough. */
  lemma DoubleIsNearest(n: nat) returns (m: nat, k: nat)
    ensures NearestEven(n, m, k)
    ensures var nearest := m * Shl(1, k);
            ToDouble(n) == if n < 0x20_0000_0000_0000 || BitLength(nearest) <= 1024 then Fin(nearest) else Inf
  {
    m, k := RoundedFrom(n, false, false, 0, 0);
    assert Rounded(n, false, false) * Shl(1, 0) == Rounded(n, false, false);
    hide NearestEven, BitLength;
  }
}
