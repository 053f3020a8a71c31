/**
 Base-128 varints and the tag/length/value fields of the Protocol Buffers encoding, as the
 release guard reads them.  Numbers are JavaScript doubles: exact below 2^53, rounded to even
 above, infinite from 2^1024 on, and NaN where 0 is multiplied by an infinite power.
 */
module Wire {
  import opened Wrappers

  type Byte = b: int | 0 <= b < 256
  type Bytes = seq<Byte>

  // ---------- non-negative doubles ----------

  datatype Num = Fin(n: nat) | Inf | NaN

  const EXACT: nat := 0x20_0000_0000_0000

  /** n * 2 ** k. */
  function Shl(n: nat, k: nat): nat {
    if k == 0 then n else 2 * Shl(n, k - 1)
  }

  function BitLength(n: nat): (k: nat)
    ensures n < 128 ==> k <= 7
    ensures n < 64 ==> k <= 6
    ensures n < 32 ==> k <= 5
    ensures n < 16 ==> k <= 4
    ensures n < 8 ==> k <= 3
    ensures n < 4 ==> k <= 2
    ensures n < 2 ==> k <= 1
  {
    if n == 0 then 0 else 1 + BitLength(n / 2)
  }

  /** Round to nearest, ties to even: bits below the 53 significant ones are dropped one by one,
      half being the last one dropped and sticky whether an earlier one was set. */
  function Rounded(n: nat, half: bool, sticky: bool): nat {
    if n < EXACT then n + (if half && (sticky || n % 2 == 1) then 1 else 0)
    else 2 * Rounded(n / 2, n % 2 == 1, half || sticky)
  }

  function ToDouble(n: nat): Num {
    if n < EXACT then Fin(n)
    else if BitLength(Rounded(n, false, false)) <= 1024 then Fin(Rounded(n, false, false))
    else Inf
  }

  function Add(a: Num, b: Num): Num {
    if a.NaN? || b.NaN? then NaN
    else if a.Inf? || b.Inf? then Inf
    else ToDouble(a.n + b.n)
  }

  /** digit * 2 ** shift for a seven-bit digit. */
  function Scale(digit: nat, shift: nat): Num
    requires digit < 128
  {
    if shift >= 1024 then (if digit == 0 then NaN else Inf)
    else if BitLength(digit) + shift <= 1024 then Fin(Shl(digit, shift))
    else Inf
  }

  // ---------- reading ----------

  datatype VarintRead = VarintRead(value: Num, next: nat)

  /** A byte read past the end behaves as 0 in the reader's bit operations. */
  function ByteAt(buf: Bytes, pos: nat): Byte {
    if pos < |buf| then buf[pos] else 0
  }

  function VarintFrom(buf: Bytes, pos: nat, acc: Num, shift: nat): (r: VarintRead)
    ensures pos < r.next
    ensures r.next <= (if pos < |buf| then |buf| + 1 else pos + 1)
    decreases if pos < |buf| then |buf| - pos else 0
  {
    var b := ByteAt(buf, pos);
    var acc' := Add(acc, Scale(b % 128, shift));
    if b < 128 then VarintRead(acc', pos + 1) else VarintFrom(buf, pos + 1, acc', shift + 7)
  }

  function Varint(buf: Bytes, pos: nat): VarintRead {
    VarintFrom(buf, pos, Fin(0), 0)
  }

  method ReadVarint(buf: Bytes, start: nat) returns (result: Num, pos: nat)
    ensures VarintRead(result, pos) == Varint(buf, start)
  {
    pos := start;
    result := Fin(0);
    var shift := 0;
    while true
      invariant VarintFrom(buf, pos, result, shift) == Varint(buf, start)
      decreases if pos < |buf| then |buf| - pos else 0
    {
      var byte := ByteAt(buf, pos);
      pos := pos + 1;
      result := Add(result, Scale(byte % 128, shift));
      if byte < 128 {
        return;
      }
      shift := shift + 7;
    }
  }

  /** What a field holds: a number for wire type 0, a view of the buffer for the others. */
  datatype Value = Number(num: Num) | Buffer(bytes: Bytes)

  datatype Field = Field(number: nat, value: Value)

  datatype DecodeError = UnsupportedWireType | RadixOutOfRange

  /** Buffer.subarray: both ends are clamped to the buffer. */
  function Subarray(buf: Bytes, start: nat, end: nat): Bytes {
    var lo := if start < |buf| then start else |buf|;
    var hi := if end < |buf| then end else |buf|;
    if lo <= hi then buf[lo..hi] else []
  }

  datatype ValueRead = ValueRead(value: Value, next: nat)

  datatype FieldRead = FieldRead(field: Field, next: nat)

  function Size(v: Value): nat {
    match v
    case Number(_) => 0
    case Buffer(b) => |b|
  }

  /** The value of a field of the given wire type, read from position at.  A position that becomes
      infinite or NaN ends the scan like any position past the end, and is written |buf| + 1. */
  function ValueAt(buf: Bytes, wire: nat, at: nat): (r: Result<ValueRead, DecodeError>)
    ensures r.Ok? ==> at <= r.value.next || |buf| < r.value.next
    ensures r.Ok? ==> Size(r.value.value) <= (if at < |buf| then |buf| - at else 0)
    ensures r.Ok? && r.value.next <= |buf| ==> at + Size(r.value.value) <= r.value.next
  {
    if wire == 0 then
      var v := Varint(buf, at);
      Ok(ValueRead(Number(v.value), v.next))
    else if wire == 2 then
      var len := Varint(buf, at);
      match len.value {
        case Fin(n) => Ok(ValueRead(Buffer(Subarray(buf, len.next, len.next + n)), len.next + n))
        case Inf => Ok(ValueRead(Buffer(Subarray(buf, len.next, |buf|)), |buf| + 1))
        case NaN => Ok(ValueRead(Buffer([]), |buf| + 1))
      }
    else if wire == 1 then
      Ok(ValueRead(Buffer(Subarray(buf, at, at + 8)), at + 8))
    else if wire == 5 then
      Ok(ValueRead(Buffer(Subarray(buf, at, at + 4)), at + 4))
    else
      Err(UnsupportedWireType)
  }

  /** The field whose key starts at pos. */
  function FieldAt(buf: Bytes, pos: nat): (r: Result<FieldRead, DecodeError>)
    requires pos < |buf|
    ensures r.Ok? ==> pos < r.value.next && Size(r.value.field.value) < |buf| - pos
    ensures r.Ok? && r.value.next <= |buf| ==> pos + Size(r.value.field.value) < r.value.next
  {
    var key := Varint(buf, pos);
    if !key.value.Fin? then Err(UnsupportedWireType) else
    var v :- ValueAt(buf, key.value.n % 8, key.next);
    Ok(FieldRead(Field(key.value.n / 8, v.value), v.next))
  }

  /** One more than its value's size for every field: at most the bytes the fields were read from. */
  function Total(fs: seq<Field>): nat {
    if fs == [] then 0 else Size(fs[0].value) + 1 + Total(fs[1..])
  }

  function FieldsFrom(buf: Bytes, pos: nat): (r: Result<seq<Field>, DecodeError>)
    ensures r.Ok? ==> Total(r.value) <= (if pos < |buf| then |buf| - pos else 0)
    decreases if pos < |buf| then |buf| - pos else 0
  {
    if pos >= |buf| then Ok([]) else
    var f :- FieldAt(buf, pos);
    var rest :- FieldsFrom(buf, f.next);
    Ok([f.field] + rest)
  }

  /** The fields of a value: a number has no length, so the scan of it never starts. */
  function FieldsOf(v: Value): (r: Result<seq<Field>, DecodeError>)
    ensures r.Ok? ==> Total(r.value) <= Size(v)
  {
    match v
    case Number(_) => Ok([])
    case Buffer(b) => FieldsFrom(b, 0)
  }

  function Prepend(out: seq<Field>, r: Result<seq<Field>, DecodeError>): (p: Result<seq<Field>, DecodeError>)
    ensures out == [] ==> p == r
    ensures r == Ok([]) ==> p == Ok(out)
  {
    match r
    case Ok(fs) =>
      assert (out == [] ==> out + fs == fs) && (fs == [] ==> out + fs == out);
      Ok(out + fs)
    case Err(e) => Err(e)
  }

  /** The four cases of the field loop. */
  method ReadValue(buf: Bytes, wire: nat, at: nat) returns (r: Result<ValueRead, DecodeError>)
    ensures r == ValueAt(buf, wire, at)
  {
    if wire == 0 {
      var value, pos := ReadVarint(buf, at);
      return Ok(ValueRead(Number(value), pos));
    } else if wire == 2 {
      var len, pos := ReadVarint(buf, at);
      match len {
        case Fin(n) => return Ok(ValueRead(Buffer(Subarray(buf, pos, pos + n)), pos + n));
        case Inf => return Ok(ValueRead(Buffer(Subarray(buf, pos, |buf|)), |buf| + 1));
        case NaN => return Ok(ValueRead(Buffer([]), |buf| + 1));
      }
    } else if wire == 1 {
      return Ok(ValueRead(Buffer(Subarray(buf, at, at + 8)), at + 8));
    } else if wire == 5 {
      return Ok(ValueRead(Buffer(Subarray(buf, at, at + 4)), at + 4));
    }
    return Err(UnsupportedWireType);
  }

  lemma PrependStep(buf: Bytes, pos: nat, out: seq<Field>)
    requires pos < |buf|
    ensures match FieldAt(buf, pos)
            case Err(e) => Prepend(out, FieldsFrom(buf, pos)) == Err(e)
            case Ok(f) => Prepend(out, FieldsFrom(buf, pos)) == Prepend(out + [f.field], FieldsFrom(buf, f.next))
  {
    hide FieldAt;
    if FieldAt(buf, pos).Err? { return; }
    var f := FieldAt(buf, pos).value;
    var rest := FieldsFrom(buf, f.next);
    if rest.Ok? {
      assert out + ([f.field] + rest.value) == out + [f.field] + rest.value;
    }
  }

  method ReadFields(value: Value) returns (r: Result<seq<Field>, DecodeError>)
    ensures r == FieldsOf(value)
  {
    if value.Number? {
      return Ok([]);
    }
    var buf := value.bytes;
    var out: seq<Field> := [];
    var pos := 0;
    while pos < |buf|
      invariant FieldsOf(value) == Prepend(out, FieldsFrom(buf, pos))
      decreases if pos < |buf| then |buf| - pos else 0
    {
      PrependStep(buf, pos, out);
      var key;
      key, pos := ReadVarint(buf, pos);
      if !key.Fin? {
        return Err(UnsupportedWireType);
      }
      var item :- ReadValue(buf, key.n % 8, pos);
      pos := item.next;
      out := out + [Field(key.n / 8, item.value)];
    }
    return Ok(out);
  }

  // ---------- writing ----------

  function EncodeVarint(n: nat): (bs: Bytes)
    ensures |bs| >= 1
  {
    if n < 128 then [n] else [n % 128 + 128] + EncodeVarint(n / 128)
  }

  /** A field as a Protocol Buffers writer emits it. */
  datatype WireField =
    | VarintField(number: nat, n: nat)
    | LenField(number: nat, bytes: Bytes)
    | Fixed64Field(number: nat, bytes: Bytes)
    | Fixed32Field(number: nat, bytes: Bytes)

  /** Every varint stays in the range where doubles are exact. */
  predicate Writable(f: WireField) {
    f.number * 8 + 7 < EXACT &&
    match f
    case VarintField(_, n) => n < EXACT
    case LenField(_, bs) => |bs| < EXACT
    case Fixed64Field(_, bs) => |bs| == 8
    case Fixed32Field(_, bs) => |bs| == 4
  }

  function WireType(f: WireField): nat {
    match f
    case VarintField(_, _) => 0
    case LenField(_, _) => 2
    case Fixed64Field(_, _) => 1
    case Fixed32Field(_, _) => 5
  }

  function EncodeValue(f: WireField): Bytes {
    match f
    case VarintField(_, n) => EncodeVarint(n)
    case LenField(_, bs) => EncodeVarint(|bs|) + bs
    case Fixed64Field(_, bs) => bs
    case Fixed32Field(_, bs) => bs
  }

  function EncodeField(f: WireField): (bs: Bytes)
    ensures |bs| >= 1
  {
    EncodeVarint(f.number * 8 + WireType(f)) + EncodeValue(f)
  }

  function EncodeFields(fs: seq<WireField>): Bytes {
    if fs == [] then [] else EncodeField(fs[0]) + EncodeFields(fs[1..])
  }

  function AsField(f: WireField): Field {
    if f.VarintField? then Field(f.number, Number(Fin(f.n))) else Field(f.number, Buffer(f.bytes))
  }

  function AsFields(fs: seq<WireField>): (r: seq<Field>)
    ensures |r| == |fs|
  {
    if fs == [] then [] else [AsField(fs[0])] + AsFields(fs[1..])
  }

  // ---------- reading undoes writing ----------

  ghost predicate Occurs(buf: Bytes, pos: nat, part: Bytes) {
    pos + |part| <= |buf| && buf[pos..pos + |part|] == part
  }

  lemma OccursSplit(buf: Bytes, pos: nat, a: Bytes, b: Bytes)
    requires Occurs(buf, pos, a + b)
    ensures Occurs(buf, pos, a) && Occurs(buf, pos + |a|, b)
  {
    var whole := buf[pos..pos + |a + b|];
    assert whole[..|a|] == a && whole[|a|..] == b;
    assert buf[pos..pos + |a|] == whole[..|a|];
    assert buf[pos + |a|..pos + |a| + |b|] == whole[|a|..];
  }

  lemma {:induction false} ShlAdds(a: nat, b: nat, k: nat)
    ensures Shl(a + b, k) == Shl(a, k) + Shl(b, k)
  {
    if k > 0 { ShlAdds(a, b, k - 1); }
  }

  lemma {:induction false} ShlTwice(n: nat, j: nat, k: nat)
    ensures Shl(n, j + k) == Shl(Shl(n, j), k)
  {
    if k > 0 { ShlTwice(n, j, k - 1); }
  }

  lemma {:induction false} ShlGrows(n: nat, k: nat)
    ensures n <= Shl(n, k)
  {
    if k > 0 { ShlGrows(n, k - 1); }
  }

  lemma Shl7(n: nat)
    ensures Shl(n, 7) == 128 * n
  {
    assert Shl(n, 7) == 2 * Shl(n, 6) == 4 * Shl(n, 5) == 8 * Shl(n, 4);
    assert Shl(n, 4) == 2 * Shl(n, 3) == 4 * Shl(n, 2) == 8 * Shl(n, 1);
    assert Shl(n, 1) == 2 * Shl(n, 0) == 2 * n;
  }

  lemma Shl54(n: nat)
    ensures Shl(n, 54) == 0x40_0000_0000_0000 * n
  {
    Shl7(n); Shl7(Shl(n, 7)); Shl7(Shl(n, 14)); Shl7(Shl(n, 21)); Shl7(Shl(n, 28)); Shl7(Shl(n, 35)); Shl7(Shl(n, 42));
    ShlTwice(n, 7, 7); ShlTwice(n, 14, 7); ShlTwice(n, 21, 7);
    ShlTwice(n, 28, 7); ShlTwice(n, 35, 7); ShlTwice(n, 42, 7);
    assert Shl(n, 49) == 0x2_0000_0000_0000 * n;
    assert Shl(n, 54) == 2 * Shl(n, 53) == 4 * Shl(n, 52) == 8 * Shl(n, 51);
    assert Shl(n, 51) == 2 * Shl(n, 50) == 4 * Shl(n, 49);
  }

  lemma ShiftInRange(n: nat, s: nat)
    requires n >= 1 && Shl(n, s) < EXACT
    ensures s < 54
  {
    if s >= 54 {
      ShlTwice(n, s - 54, 54);
      var m := Shl(n, s - 54);
      ShlGrows(n, s - 54);
      ShlAdds(1, m - 1, 54);
      Shl54(1);
      assert false;
    }
  }

  /** One turn of the loop, while the running sum stays exact. */
  lemma VarintStep(buf: Bytes, pos: nat, a: nat, s: nat)
    requires pos < |buf| && s < 60 && a + Shl(buf[pos] % 128, s) < EXACT
    ensures var a' := a + Shl(buf[pos] % 128, s);
            VarintFrom(buf, pos, Fin(a), s) ==
            if buf[pos] < 128 then VarintRead(Fin(a'), pos + 1) else VarintFrom(buf, pos + 1, Fin(a'), s + 7)
  {
    hide Shl;
    assert Scale(buf[pos] % 128, s) == Fin(Shl(buf[pos] % 128, s));
  }

  lemma {:induction false} VarintDecodes(buf: Bytes, pos: nat, n: nat, a: nat, s: nat)
    requires Occurs(buf, pos, EncodeVarint(n))
    requires n >= 1 || s == 0
    requires a + Shl(n, s) < EXACT
    ensures VarintFrom(buf, pos, Fin(a), s) == VarintRead(Fin(a + Shl(n, s)), pos + |EncodeVarint(n)|)
    decreases n
  {
    hide VarintFrom, Shl;
    if n >= 1 { ShiftInRange(n, s); }
    assert buf[pos] == EncodeVarint(n)[0] by {
      assert buf[pos] == buf[pos..pos + |EncodeVarint(n)|][0];
    }
    var digit, rest := n % 128, n / 128;
    ShlAdds(digit, 128 * rest, s);
    VarintStep(buf, pos, a, s);
    if n >= 128 {
      ShlTwice(rest, 7, s);
      Shl7(rest);
      OccursSplit(buf, pos, [digit + 128], EncodeVarint(rest));
      VarintDecodes(buf, pos + 1, rest, a + Shl(digit, s), s + 7);
    }
  }

  /** A varint below 2^53 written anywhere in a buffer is read back exactly, and the reader stops
      right after it. */
  lemma VarintRoundTrip(buf: Bytes, pos: nat, n: nat)
    requires n < EXACT && Occurs(buf, pos, EncodeVarint(n))
    ensures Varint(buf, pos) == VarintRead(Fin(n), pos + |EncodeVarint(n)|)
  {
    VarintDecodes(buf, pos, n, 0, 0);
  }

  lemma SubarrayOfPart(buf: Bytes, pos: nat, part: Bytes)
    requires Occurs(buf, pos, part)
    ensures Subarray(buf, pos, pos + |part|) == part
  {
  }

  lemma ValueDecodes(buf: Bytes, at: nat, f: WireField)
    requires Writable(f) && Occurs(buf, at, EncodeValue(f))
    ensures ValueAt(buf, WireType(f), at) == Ok(ValueRead(AsField(f).value, at + |EncodeValue(f)|))
  {
    hide Varint;
    match f
    case VarintField(_, n) => VarintRoundTrip(buf, at, n);
    case LenField(_, bs) =>
      var len := EncodeVarint(|bs|);
      OccursSplit(buf, at, len, bs);
      VarintRoundTrip(buf, at, |bs|);
      SubarrayOfPart(buf, at + |len|, bs);
    case Fixed64Field(_, bs) => SubarrayOfPart(buf, at, bs);
    case Fixed32Field(_, bs) => SubarrayOfPart(buf, at, bs);
  }

  lemma KeyParts(k: nat, wire: nat)
    requires wire < 8
    ensures (k * 8 + wire) / 8 == k && (k * 8 + wire) % 8 == wire
  {
  }

  lemma KeyStands(buf: Bytes, pos: nat, f: WireField)
    requires Writable(f) && Occurs(buf, pos, EncodeField(f))
    ensures var key := EncodeVarint(f.number * 8 + WireType(f));
            Occurs(buf, pos, key) && Occurs(buf, pos + |key|, EncodeValue(f)) && pos < |buf| &&
            f.number * 8 + WireType(f) < EXACT && |EncodeField(f)| == |key| + |EncodeValue(f)|
  {
    hide EncodeVarint, EncodeValue;
    OccursSplit(buf, pos, EncodeVarint(f.number * 8 + WireType(f)), EncodeValue(f));
  }

  lemma FieldAtIs(buf: Bytes, pos: nat, f: WireField, next: nat)
    requires pos < |buf| && Varint(buf, pos) == VarintRead(Fin(f.number * 8 + WireType(f)), next)
    requires ValueAt(buf, WireType(f), next).Ok?
    ensures var v := ValueAt(buf, WireType(f), next).value;
            FieldAt(buf, pos) == Ok(FieldRead(Field(f.number, v.value), v.next))
    ensures AsField(f).number == f.number
  {
    KeyParts(f.number, WireType(f));
    hide Varint, ValueAt;
  }

  lemma KeyAndValueDecode(buf: Bytes, pos: nat, f: WireField)
    requires Writable(f) && Occurs(buf, pos, EncodeField(f))
    ensures var next := pos + |EncodeVarint(f.number * 8 + WireType(f))|;
            pos < |buf| && Varint(buf, pos) == VarintRead(Fin(f.number * 8 + WireType(f)), next) &&
            ValueAt(buf, WireType(f), next) == Ok(ValueRead(AsField(f).value, pos + |EncodeField(f)|))
  {
    hide *;
    KeyStands(buf, pos, f);
    VarintRoundTrip(buf, pos, f.number * 8 + WireType(f));
    ValueDecodes(buf, pos + |EncodeVarint(f.number * 8 + WireType(f))|, f);
  }

  /** A written field is read back wherever it occurs, and the reader stops right after it. */
  lemma FieldDecodes(buf: Bytes, pos: nat, f: WireField)
    requires Writable(f) && Occurs(buf, pos, EncodeField(f))
    ensures pos < |buf|
    ensures FieldAt(buf, pos) == Ok(FieldRead(AsField(f), pos + |EncodeField(f)|))
  {
    hide *;
    KeyAndValueDecode(buf, pos, f);
    FieldAtIs(buf, pos, f, pos + |EncodeVarint(f.number * 8 + WireType(f))|);
  }

  // ---------- concatenation ----------

  /** The scan from pos succeeds and stops exactly at the end of the buffer. */
  ghost predicate ExactFrom(buf: Bytes, pos: nat)
    decreases if pos < |buf| then |buf| - pos else 0
  {
    pos == |buf| ||
    (pos < |buf| && FieldAt(buf, pos).Ok? && ExactFrom(buf, FieldAt(buf, pos).value.next))
  }

  lemma {:induction false} VarintLocal(a: Bytes, b: Bytes, pos: nat, acc: Num, s: nat)
    requires VarintFrom(a, pos, acc, s).next <= |a|
    ensures VarintFrom(a + b, pos, acc, s) == VarintFrom(a, pos, acc, s)
    decreases if pos < |a| then |a| - pos else 0
  {
    hide ToDouble, Scale;
    if a[pos] >= 128 {
      VarintLocal(a, b, pos + 1, Add(acc, Scale(a[pos] % 128, s)), s + 7);
    }
  }

  lemma {:induction false} VarintShifted(a: Bytes, b: Bytes, pos: nat, acc: Num, s: nat)
    ensures VarintFrom(a + b, |a| + pos, acc, s) ==
            VarintRead(VarintFrom(b, pos, acc, s).value, |a| + VarintFrom(b, pos, acc, s).next)
    decreases if pos < |b| then |b| - pos else 0
  {
    hide ToDouble, Scale;
    assert ByteAt(a + b, |a| + pos) == ByteAt(b, pos);
    if ByteAt(b, pos) >= 128 {
      VarintShifted(a, b, pos + 1, Add(acc, Scale(b[pos] % 128, s)), s + 7);
    }
  }

  lemma VarintAppended(a: Bytes, b: Bytes, pos: nat)
    ensures Varint(a, pos).next <= |a| ==> Varint(a + b, pos) == Varint(a, pos)
    ensures Varint(a + b, |a| + pos) == VarintRead(Varint(b, pos).value, |a| + Varint(b, pos).next)
  {
    if Varint(a, pos).next <= |a| { VarintLocal(a, b, pos, Fin(0), 0); }
    VarintShifted(a, b, pos, Fin(0), 0);
  }

  lemma SubarrayLocal(a: Bytes, b: Bytes, start: nat, end: nat)
    requires end <= |a|
    ensures Subarray(a + b, start, end) == Subarray(a, start, end)
  {
  }

  lemma SubarrayShifted(a: Bytes, b: Bytes, start: nat, end: nat)
    ensures Subarray(a + b, |a| + start, |a| + end) == Subarray(b, start, end)
  {
    var part := Subarray(b, start, end);
    var at := if start < |b| then start else |b|;
    if part != [] {
      assert b[at..at + |part|] == part;
      assert (a + b)[|a| + at..|a| + at + |part|] == part;
    }
  }

  lemma ValueLocal(a: Bytes, b: Bytes, wire: nat, at: nat)
    requires ValueAt(a, wire, at).Ok? && ValueAt(a, wire, at).value.next <= |a|
    ensures ValueAt(a + b, wire, at) == ValueAt(a, wire, at)
  {
    hide Varint;
    if wire == 0 || wire == 2 {
      VarintAppended(a, b, at);
      var len := Varint(a, at);
      if wire == 2 { SubarrayLocal(a, b, len.next, len.next + len.value.n); }
    } else {
      SubarrayLocal(a, b, at, ValueAt(a, wire, at).value.next);
    }
  }

  lemma ValueShifted(a: Bytes, b: Bytes, wire: nat, at: nat)
    ensures var r, r' := ValueAt(b, wire, at), ValueAt(a + b, wire, |a| + at);
            if r.Ok? then r' == Ok(ValueRead(r.value.value, |a| + r.value.next)) else r' == r
  {
    hide Varint;
    VarintAppended(a, b, at);
    var len := Varint(b, at);
    if wire == 2 {
      SubarrayShifted(a, b, len.next, if len.value.Fin? then len.next + len.value.n else |b|);
    } else if wire == 1 || wire == 5 {
      SubarrayShifted(a, b, at, if wire == 1 then at + 8 else at + 4);
    }
  }

  lemma FieldLocal(a: Bytes, b: Bytes, pos: nat)
    requires pos < |a| && FieldAt(a, pos).Ok? && FieldAt(a, pos).value.next <= |a|
    ensures FieldAt(a + b, pos) == FieldAt(a, pos)
  {
    hide Varint;
    var key := Varint(a, pos);
    VarintAppended(a, b, pos);
    ValueLocal(a, b, key.value.n % 8, key.next);
  }

  lemma FieldShifted(a: Bytes, b: Bytes, pos: nat)
    requires pos < |b|
    ensures var r, r' := FieldAt(b, pos), FieldAt(a + b, |a| + pos);
            if r.Ok? then r' == Ok(FieldRead(r.value.field, |a| + r.value.next)) else r' == r
  {
    hide Varint;
    var key := Varint(b, pos);
    VarintAppended(a, b, pos);
    if key.value.Fin? { ValueShifted(a, b, key.value.n % 8, key.next); }
  }

  lemma {:induction false} FieldsShifted(a: Bytes, b: Bytes, pos: nat)
    ensures FieldsFrom(a + b, |a| + pos) == FieldsFrom(b, pos)
    decreases if pos < |b| then |b| - pos else 0
  {
    hide FieldAt;
    if pos < |b| {
      FieldShifted(a, b, pos);
      var r := FieldAt(b, pos);
      if r.Ok? { FieldsShifted(a, b, r.value.next); }
    }
  }

  lemma {:induction false} FieldsConcatFrom(a: Bytes, b: Bytes, pos: nat)
    requires ExactFrom(a, pos)
    ensures FieldsFrom(a, pos).Ok?
    ensures FieldsFrom(a + b, pos) == Prepend(FieldsFrom(a, pos).value, FieldsFrom(b, 0))
    decreases if pos < |a| then |a| - pos else 0
  {
    hide FieldAt;
    if pos == |a| {
      FieldsShifted(a, b, 0);
      assert FieldsFrom(a + b, |a| + 0) == FieldsFrom(b, 0);
    } else {
      var f := FieldAt(a, pos).value;
      FieldLocal(a, b, pos);
      FieldsConcatFrom(a, b, f.next);
      var rest, tail := FieldsFrom(a, f.next).value, FieldsFrom(b, 0);
      if tail.Ok? {
        assert [f.field] + rest + tail.value == [f.field] + (rest + tail.value);
      }
    }
  }

  /** Appending any bytes to a buffer whose scan ends exactly appends their fields. */
  lemma FieldsConcat(a: Bytes, b: Bytes)
    requires ExactFrom(a, 0)
    ensures FieldsOf(Buffer(a)).Ok?
    ensures FieldsOf(Buffer(a + b)) == Prepend(FieldsOf(Buffer(a)).value, FieldsOf(Buffer(b)))
  {
    FieldsConcatFrom(a, b, 0);
  }

  lemma {:induction false} ExactShifted(a: Bytes, b: Bytes, pos: nat)
    requires pos <= |b| && ExactFrom(b, pos)
    ensures ExactFrom(a + b, |a| + pos)
    decreases |b| - pos
  {
    hide FieldAt;
    if pos < |b| {
      FieldShifted(a, b, pos);
      ExactShifted(a, b, FieldAt(b, pos).value.next);
    }
  }

  lemma {:induction false} ExactConcatFrom(a: Bytes, b: Bytes, pos: nat)
    requires pos <= |a| && ExactFrom(a, pos) && ExactFrom(b, 0)
    ensures ExactFrom(a + b, pos)
    decreases |a| - pos
  {
    hide FieldAt;
    if pos == |a| {
      ExactShifted(a, b, 0);
    } else {
      FieldLocal(a, b, pos);
      ExactConcatFrom(a, b, FieldAt(a, pos).value.next);
    }
  }

  /** The fields of any writable message come back in order, whatever their numbers and kinds, and
      the scan ends exactly where the message ends. */
  lemma {:induction false} FieldsRoundTrip(fs: seq<WireField>)
    requires forall i :: 0 <= i < |fs| ==> Writable(fs[i])
    ensures ExactFrom(EncodeFields(fs), 0)
    ensures FieldsOf(Buffer(EncodeFields(fs))) == Ok(AsFields(fs))
  {
    hide FieldAt;
    if fs != [] {
      var head, rest := EncodeField(fs[0]), EncodeFields(fs[1..]);
      assert Occurs(head, 0, head);
      FieldDecodes(head, 0, fs[0]);
      assert ExactFrom(head, 0);
      FieldsRoundTrip(fs[1..]);
      ExactConcatFrom(head, rest, 0);
      assert FieldsFrom(head, 0) == Ok([AsField(fs[0])]) by {
        assert FieldsFrom(head, |head|) == Ok([]);
        assert [AsField(fs[0])] + [] == [AsField(fs[0])];
      }
      FieldsConcat(head, rest);
    }
  }
}
