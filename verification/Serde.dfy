/** The tagged binary format for keys and values of the shared cache (src/serde.rs). */
module Serde {
  import opened Layout

  const TAG_PICKLE: byte := 0
  const TAG_NONE: byte := 1
  const TAG_FALSE: byte := 2
  const TAG_TRUE: byte := 3
  const TAG_I64: byte := 4
  const TAG_F64: byte := 5
  const TAG_STR: byte := 6
  const TAG_BYTES: byte := 7
  const TAG_TUPLE: byte := 8

  const I63 := 0x8000_0000_0000_0000

  /** Python objects as the format sees them. A str that has a UTF-8 form is that form; one that has none (lone
      surrogates), like any object of another type, is only an identity. Floats are their bits. */
  datatype Value =
    | PyNone
    | PyBool(b: bool)
    | PyInt(i: int)
    | PyFloat(bits: nat)
    | PyStr(utf8: Bytes)
    | PyLoneSurrogates(id: nat)
    | PyBytes(data: Bytes)
    | PyTuple(items: seq<Value>)
    | PyOther(id: nat)

  // ---------------------------------------------------------------- UTF-8 (RFC 3629, section 4)

  predicate Between(b: byte, lo: int, hi: int) { lo <= b <= hi }

  predicate Continues(s: Bytes, i: nat, n: nat) {
    i + n <= |s| && forall j :: i <= j < i + n ==> Between(s[j], 0x80, 0xBF)
  }

  predicate ValidUtf8(s: Bytes) {
    if s == [] then true
    else if s[0] < 0x80 then ValidUtf8(s[1..])
    else if Between(s[0], 0xC2, 0xDF) then Continues(s, 1, 1) && ValidUtf8(s[2..])
    else if Between(s[0], 0xE0, 0xEF) then
      && Continues(s, 1, 2)
      && (s[0] == 0xE0 ==> s[1] >= 0xA0) && (s[0] == 0xED ==> s[1] <= 0x9F)
      && ValidUtf8(s[3..])
    else if Between(s[0], 0xF0, 0xF4) then
      && Continues(s, 1, 3)
      && (s[0] == 0xF0 ==> s[1] >= 0x90) && (s[0] == 0xF4 ==> s[1] <= 0x8F)
      && ValidUtf8(s[4..])
    else false
  }

  /** A Unicode scalar value: a code point that is not a surrogate. */
  predicate Scalar(c: nat) { c < 0xD800 || 0xE000 <= c <= 0x10FFFF }

  /** The UTF-8 form of a scalar value (RFC 3629, section 3), by its digits to the base 64. */
  function Utf8Of(c: nat): (s: Bytes)
    requires c <= 0x10FFFF
    ensures s != []
  {
    if c < 0x80 then [c]
    else if c < 0x800 then [0xC0 + c / 64, 0x80 + c % 64]
    else if c < 0x10000 then [0xE0 + c / 4096, 0x80 + c / 64 % 64, 0x80 + c % 64]
    else [0xF0 + c / 262144, 0x80 + c / 4096 % 64, 0x80 + c / 64 % 64, 0x80 + c % 64]
  }

  predicate AllScalars(cs: seq<nat>) { forall i :: 0 <= i < |cs| ==> Scalar(cs[i]) }

  function Utf8(cs: seq<nat>): Bytes
    requires AllScalars(cs)
  {
    if cs == [] then [] else Utf8Of(cs[0]) + Utf8(cs[1..])
  }

  lemma ValidHead(c: nat, rest: Bytes)
    requires Scalar(c)
    ensures ValidUtf8(Utf8Of(c) + rest) <==> ValidUtf8(rest)
  {
    var s := Utf8Of(c) + rest;
    assert s[|Utf8Of(c)|..] == rest;
  }

  lemma {:induction false} Utf8IsValid(cs: seq<nat>)
    requires AllScalars(cs)
    ensures ValidUtf8(Utf8(cs))
  {
    if cs != [] {
      Utf8IsValid(cs[1..]);
      ValidHead(cs[0], Utf8(cs[1..]));
    }
  }

  lemma TwoBytes(a: byte, x: byte) returns (c: nat)
    requires 0xC2 <= a <= 0xDF && 0x80 <= x <= 0xBF
    ensures Scalar(c) && Utf8Of(c) == [a, x]
  {
    c := 64 * (a as int - 0xC0) + (x as int - 0x80);
  }

  lemma ThreeBytes(a: byte, x: byte, y: byte) returns (c: nat)
    requires 0xE0 <= a <= 0xEF && 0x80 <= x <= 0xBF && 0x80 <= y <= 0xBF
    requires (a == 0xE0 ==> x >= 0xA0) && (a == 0xED ==> x <= 0x9F)
    ensures Scalar(c) && Utf8Of(c) == [a, x, y]
  {
    var m := 64 * (a as int - 0xE0) + (x as int - 0x80);
    c := 64 * m + (y as int - 0x80);
    assert c / 64 == m && c % 64 == y as int - 0x80;
    assert c / 4096 == m / 64;
  }

  lemma FourBytes(a: byte, x: byte, y: byte, z: byte) returns (c: nat)
    requires 0xF0 <= a <= 0xF4 && 0x80 <= x <= 0xBF && 0x80 <= y <= 0xBF && 0x80 <= z <= 0xBF
    requires (a == 0xF0 ==> x >= 0x90) && (a == 0xF4 ==> x <= 0x8F)
    ensures Scalar(c) && Utf8Of(c) == [a, x, y, z]
  {
    var l := 64 * (a as int - 0xF0) + (x as int - 0x80);
    var m := 64 * l + (y as int - 0x80);
    c := 64 * m + (z as int - 0x80);
    assert c / 64 == m && c % 64 == z as int - 0x80;
    assert m / 64 == l && m % 64 == y as int - 0x80;
    assert c / 4096 == l && c / 262144 == l / 64;
  }

  /** The scalar value that a valid string begins with. */
  lemma FirstScalar(s: Bytes) returns (c: nat, rest: Bytes)
    requires s != [] && ValidUtf8(s)
    ensures Scalar(c) && s == Utf8Of(c) + rest && |rest| < |s| && ValidUtf8(rest)
  {
    hide Utf8, Utf8Of, Scalar;
    if s[0] < 0x80 {
      c, rest := s[0], s[1..];
      OneByte(s[0]);
    } else if s[0] < 0xE0 {
      c := TwoBytes(s[0], s[1]);
      rest := s[2..];
    } else if s[0] < 0xF0 {
      c := ThreeBytes(s[0], s[1], s[2]);
      rest := s[3..];
    } else {
      c := FourBytes(s[0], s[1], s[2], s[3]);
      rest := s[4..];
    }
    assert s == Utf8Of(c) + rest;
  }

  lemma OneByte(a: byte)
    requires a < 0x80
    ensures Scalar(a) && Utf8Of(a) == [a]
  {
  }

  lemma {:induction false} Scalars(s: Bytes) returns (cs: seq<nat>)
    requires ValidUtf8(s)
    ensures AllScalars(cs) && Utf8(cs) == s
    decreases |s|
  {
    if s == [] {
      cs := [];
    } else {
      var c, rest := FirstScalar(s);
      var more := Scalars(rest);
      cs := [c] + more;
      assert cs[1..] == more;
    }
  }

  /** The decoder's check accepts exactly the UTF-8 forms of sequences of Unicode scalar values. */
  lemma ValidUtf8Iff(s: Bytes)
    ensures ValidUtf8(s) <==> exists cs :: AllScalars(cs) && Utf8(cs) == s
  {
    if ValidUtf8(s) { var cs := Scalars(s); }
    if cs :| AllScalars(cs) && Utf8(cs) == s { Utf8IsValid(cs); }
  }

  /** The values that are Python objects at all. */
  predicate Proper(v: Value) {
    match v
    case PyFloat(bits) => bits < U64
    case PyStr(u) => ValidUtf8(u)
    case PyTuple(items) => forall x :: x in items ==> Proper(x)
    case _ => true
  }

  /** No payload whose length the 32-bit length field would truncate. */
  predicate Small(v: Value) {
    match v
    case PyStr(u) => |u| < U32
    case PyBytes(d) => |d| < U32
    case PyTuple(items) => forall x :: x in items ==> Small(x)
    case _ => true
  }

  // ---------------------------------------------------------------- little-endian numbers

  function Le(n: nat, k: nat): (r: Bytes)
    ensures |r| == k
  {
    if k == 0 then [] else [n % 256] + Le(n / 256, k - 1)
  }

  function FromLe(s: Bytes): nat {
    if s == [] then 0 else s[0] + 256 * FromLe(s[1..])
  }

  function Pow256(k: nat): nat {
    if k == 0 then 1 else 256 * Pow256(k - 1)
  }

  lemma {:induction false} FromLeLe(n: nat, k: nat)
    requires n < Pow256(k)
    ensures FromLe(Le(n, k)) == n
  {
    if k > 0 { FromLeLe(n / 256, k - 1); }
  }

  lemma {:induction false} LeFromLe(s: Bytes)
    ensures FromLe(s) < Pow256(|s|) && Le(FromLe(s), |s|) == s
  {
    if s != [] {
      LeFromLe(s[1..]);
      assert (s[0] + 256 * FromLe(s[1..])) / 256 == FromLe(s[1..]);
    }
  }

  lemma Pow256Values()
    ensures Pow256(4) == U32 && Pow256(8) == U64
  {
    assert Pow256(2) == 0x1_0000;
    assert Pow256(4) == 0x1_0000_0000;
    assert Pow256(6) == 0x1_0000_0000_0000;
  }

  /** Two's complement. */
  function ToU64(i: int): nat
    requires -I63 <= i < I63
  {
    if i < 0 then i + U64 else i
  }

  function ToI64(n: nat): (i: int)
    requires n < U64
    ensures -I63 <= i < I63 && ToU64(i) == n
  {
    if n < I63 then n else n - U64
  }

  // ---------------------------------------------------------------- encoding

  function WithLength(tag: byte, payload: Bytes): Bytes {
    [tag] + Le(|payload| % U32, 4) + payload
  }

  function Encode(v: Value): Option<Bytes> {
    match v
    case PyNone => Some([TAG_NONE])
    case PyBool(b) => Some([if b then TAG_TRUE else TAG_FALSE])
    case PyInt(i) => if -I63 <= i < I63 then Some([TAG_I64] + Le(ToU64(i), 8)) else None
    case PyFloat(bits) => Some([TAG_F64] + Le(bits, 8))
    case PyStr(u) => Some(WithLength(TAG_STR, u))
    case PyLoneSurrogates(_) => None
    case PyBytes(d) => Some(WithLength(TAG_BYTES, d))
    case PyTuple(items) =>
      if |items| > 255 then None
      else
        (match EncodeAll(items)
         case Some(s) => Some([TAG_TUPLE, |items|] + s)
         case None => None)
    case PyOther(_) => None
  }

  function EncodeAll(items: seq<Value>): Option<Bytes> {
    if items == [] then Some([])
    else
      match (Encode(items[0]), EncodeAll(items[1..]))
      case (Some(a), Some(b)) => Some(a + b)
      case _ => None
  }

  lemma NoItems()
    ensures EncodeAll([]) == Some([])
  {
  }

  lemma TupleEncoding(items: seq<Value>)
    ensures Encode(PyTuple(items)) ==
            if |items| > 255 || EncodeAll(items).None? then None else Some([TAG_TUPLE, |items|] + EncodeAll(items).value)
  {
  }

  lemma {:induction false} EncodeAllAppend(items: seq<Value>, v: Value)
    ensures EncodeAll(items + [v]) ==
            if EncodeAll(items).Some? && Encode(v).Some? then Some(EncodeAll(items).value + Encode(v).value) else None
  {
    if items == [] {
      assert items + [v] == [v] && [v][1..] == [];
      if Encode(v).Some? { assert Encode(v).value + [] == Encode(v).value == [] + Encode(v).value; }
    } else {
      EncodeAllAppend(items[1..], v);
      assert (items + [v])[1..] == items[1..] + [v];
      if Encode(items[0]).Some? && EncodeAll(items[1..]).Some? && Encode(v).Some? {
        assert Encode(items[0]).value + (EncodeAll(items[1..]).value + Encode(v).value)
            == Encode(items[0]).value + EncodeAll(items[1..]).value + Encode(v).value;
      }
    }
  }

  lemma {:induction false} EncodeAllPrefix(items: seq<Value>, i: nat)
    requires i <= |items| && EncodeAll(items[..i]).None?
    ensures EncodeAll(items).None?
    decreases |items| - i
  {
    if i < |items| {
      EncodeAllAppend(items[..i], items[i]);
      assert items[..i] + [items[i]] == items[..i + 1];
      EncodeAllPrefix(items, i + 1);
    } else {
      assert items[..i] == items;
    }
  }

  class Buffer {
    var data: Bytes

    constructor ()
      ensures data == []
    {
      data := [];
    }

    /** Appends the encoding of v, or leaves the buffer exactly as it was if some part of v is unsupported. */
    method SerializeElement(v: Value) returns (ok: bool)
      modifies this
      ensures ok == Encode(v).Some?
      ensures data == if ok then old(data) + Encode(v).value else old(data)
      decreases v
    {
      match v
      case PyNone =>
        data := data + [TAG_NONE];
        return true;
      case PyBool(b) =>
        if b {
          data := data + [TAG_TRUE];
        } else {
          data := data + [TAG_FALSE];
        }
        return true;
      case PyInt(i) =>
        if -I63 <= i < I63 {
          data := data + [TAG_I64];
          data := data + Le(ToU64(i), 8);
          return true;
        }
        return false;
      case PyFloat(bits) =>
        data := data + [TAG_F64];
        data := data + Le(bits, 8);
        return true;
      case PyStr(u) =>
        AppendWithLength(TAG_STR, u);
        return true;
      case PyLoneSurrogates(_) =>
        return false;
      case PyBytes(d) =>
        AppendWithLength(TAG_BYTES, d);
        return true;
      case PyTuple(items) =>
        ok := SerializeTuple(v);
      case PyOther(_) =>
        return false;
    }

    method AppendWithLength(tag: byte, payload: Bytes)
      modifies this
      ensures data == old(data) + WithLength(tag, payload)
    {
      data := data + [tag];
      data := data + Le(|payload| % U32, 4);
      data := data + payload;
    }

    method SerializeTuple(v: Value) returns (ok: bool)
      requires v.PyTuple?
      modifies this
      ensures ok == Encode(v).Some?
      ensures data == if ok then old(data) + Encode(v).value else old(data)
      decreases v, 0
    {
      hide Encode, EncodeAll;
      var items := v.items;
      TupleEncoding(items);
      NoItems();
      if |items| > 255 {
        return false;
      }
      var start := |data|;
      data := data + [TAG_TUPLE];
      data := data + [|items|];
      assert items[..0] == [];
      for i := 0 to |items|
        invariant EncodeAll(items[..i]).Some?
        invariant data == old(data) + [TAG_TUPLE, |items|] + EncodeAll(items[..i]).value
      {
        var more := SerializeElement(items[i]);
        EncodeAllAppend(items[..i], items[i]);
        assert items[..i] + [items[i]] == items[..i + 1];
        if !more {
          data := data[..start];
          EncodeAllPrefix(items, i + 1);
          return false;
        }
      }
      assert items[..|items|] == items;
      assert data == old(data) + ([TAG_TUPLE, |items|] + EncodeAll(items).value);
      return true;
    }
  }

  /** `serialize`: the encoding in a buffer of its own, or nothing when the caller has to fall back to pickle. */
  method Serialize(v: Value) returns (r: Option<Bytes>)
    ensures r == Encode(v)
  {
    var buf := new Buffer();
    var ok := buf.SerializeElement(v);
    if ok { assert [] + Encode(v).value == Encode(v).value; }
    r := if ok then Some(buf.data) else None;
  }

  function WrapPickle(pickled: Bytes): Bytes {
    [TAG_PICKLE] + pickled
  }

  // ---------------------------------------------------------------- decoding

  datatype Decoded = Got(v: Value, consumed: nat) | Malformed | BadUtf8

  datatype DecodedItems = GotItems(items: seq<Value>, length: nat) | MalformedItems | BadUtf8Items

  function DecodeOne(data: Bytes): (r: Decoded)
    ensures r.Got? ==> 1 <= r.consumed <= |data|
    decreases |data|, 0
  {
    if data == [] then Malformed
    else if data[0] == TAG_NONE then Got(PyNone, 1)
    else if data[0] == TAG_FALSE then Got(PyBool(false), 1)
    else if data[0] == TAG_TRUE then Got(PyBool(true), 1)
    else if data[0] == TAG_I64 then
      if |data| < 9 then Malformed
      else
        LeFromLe(data[1..9]);
        Pow256Values();
        Got(PyInt(ToI64(FromLe(data[1..9]))), 9)
    else if data[0] == TAG_F64 then
      if |data| < 9 then Malformed else Got(PyFloat(FromLe(data[1..9])), 9)
    else if data[0] == TAG_STR then
      if |data| < 5 then Malformed
      else
        var len := FromLe(data[1..5]);
        if |data| < 5 + len then Malformed
        else if ValidUtf8(data[5..5 + len]) then Got(PyStr(data[5..5 + len]), 5 + len) else BadUtf8
    else if data[0] == TAG_BYTES then
      if |data| < 5 then Malformed
      else
        var len := FromLe(data[1..5]);
        if |data| < 5 + len then Malformed else Got(PyBytes(data[5..5 + len]), 5 + len)
    else if data[0] == TAG_TUPLE then
      if |data| < 2 then Malformed
      else
        match DecodeItems(data[2..], data[1])
        case GotItems(items, n) => Got(PyTuple(items), 2 + n)
        case MalformedItems => Malformed
        case BadUtf8Items => BadUtf8
    else Malformed
  }

  function DecodeItems(data: Bytes, count: nat): (r: DecodedItems)
    ensures r.GotItems? ==> r.length <= |data| && |r.items| == count
    decreases |data|, 1 + count
  {
    if count == 0 then GotItems([], 0)
    else
      match DecodeOne(data)
      case Malformed => MalformedItems
      case BadUtf8 => BadUtf8Items
      case Got(v, n) =>
        match DecodeItems(data[n..], count - 1)
        case GotItems(items, m) => GotItems([v] + items, n + m)
        case MalformedItems => MalformedItems
        case BadUtf8Items => BadUtf8Items
  }

  /** The items already decoded, put before the rest. */
  function Prepend(done: seq<Value>, length: nat, rest: DecodedItems): DecodedItems {
    match rest
    case GotItems(items, n) => GotItems(done + items, length + n)
    case _ => rest
  }

  lemma PrependOne(done: seq<Value>, length: nat, v: Value, n: nat, data: Bytes, count: nat)
    requires count > 0 && DecodeOne(data) == Got(v, n)
    ensures Prepend(done, length, DecodeItems(data, count)) ==
            Prepend(done + [v], length + n, DecodeItems(data[n..], count - 1))
  {
    var rest := DecodeItems(data[n..], count - 1);
    if rest.GotItems? { assert done + ([v] + rest.items) == done + [v] + rest.items; }
  }

  method DeserializeOne(data: Bytes) returns (r: Decoded)
    ensures r == DecodeOne(data)
    decreases |data|, 0
  {
    if |data| == 0 {
      return Malformed;
    }
    var tag := data[0];
    if tag == TAG_NONE {
      return Got(PyNone, 1);
    } else if tag == TAG_FALSE || tag == TAG_TRUE {
      return Got(PyBool(tag == TAG_TRUE), 1);
    } else if tag == TAG_I64 || tag == TAG_F64 {
      if |data| < 9 {
        return Malformed;
      }
      var word := FromLe(data[1..9]);
      LeFromLe(data[1..9]);
      Pow256Values();
      return if tag == TAG_I64 then Got(PyInt(ToI64(word)), 9) else Got(PyFloat(word), 9);
    } else if tag == TAG_STR || tag == TAG_BYTES {
      if |data| < 5 {
        return Malformed;
      }
      var len := FromLe(data[1..5]);
      if |data| < 5 + len {
        return Malformed;
      }
      var payload := data[5..5 + len];
      if tag == TAG_BYTES {
        return Got(PyBytes(payload), 5 + len);
      }
      return if ValidUtf8(payload) then Got(PyStr(payload), 5 + len) else BadUtf8;
    } else if tag == TAG_TUPLE {
      if |data| < 2 {
        return Malformed;
      }
      var items := DeserializeItems(data[2..], data[1]);
      match items {
        case GotItems(elems, n) => return Got(PyTuple(elems), 2 + n);
        case MalformedItems => return Malformed;
        case BadUtf8Items => return BadUtf8;
      }
    }
    return Malformed;
  }

  /** The loop over the items of a tuple. */
  method DeserializeItems(data: Bytes, count: nat) returns (r: DecodedItems)
    ensures r == DecodeItems(data, count)
    decreases |data|, 1
  {
    hide DecodeOne, Prepend;
    PrependNothing(DecodeItems(data, count));
    var offset := 0;
    var elems: seq<Value> := [];
    assert data[0..] == data;
    for i := 0 to count
      invariant 0 <= offset <= |data|
      invariant DecodeItems(data, count) == Prepend(elems, offset, DecodeItems(data[offset..], count - i))
    {
      var one := DeserializeOne(data[offset..]);
      PrependTo(elems, offset);
      match one
      case Malformed => return MalformedItems;
      case BadUtf8 => return BadUtf8Items;
      case Got(v, consumed) =>
        PrependOne(elems, offset, v, consumed, data[offset..], count - i);
        assert data[offset..][consumed..] == data[offset + consumed..];
        elems := elems + [v];
        offset := offset + consumed;
    }
    PrependTo(elems, offset);
    return GotItems(elems, offset);
  }

  lemma PrependNothing(rest: DecodedItems)
    ensures Prepend([], 0, rest) == rest
  {
    if rest.GotItems? { assert [] + rest.items == rest.items; }
  }

  lemma PrependTo(done: seq<Value>, length: nat)
    ensures Prepend(done, length, GotItems([], 0)) == GotItems(done, length)
    ensures Prepend(done, length, MalformedItems) == MalformedItems
    ensures Prepend(done, length, BadUtf8Items) == BadUtf8Items
  {
    assert done + [] == done;
  }

  /** `deserialize`: nothing for empty, pickled and malformed data; an error for a string that is not UTF-8. */
  datatype Deserialized = Object(v: Value) | NotOurs | Utf8Error

  function Deserialize(data: Bytes): Deserialized {
    if data == [] || data[0] == TAG_PICKLE then NotOurs
    else
      match DecodeOne(data)
      case Got(v, _) => Object(v)
      case Malformed => NotOurs
      case BadUtf8 => Utf8Error
  }

  // ---------------------------------------------------------------- round trips

  lemma LengthField(tag: byte, payload: Bytes, suffix: Bytes)
    requires |payload| < U32
    ensures var d := WithLength(tag, payload) + suffix;
            && |d| >= 5 + |payload| && d[0] == tag && FromLe(d[1..5]) == |payload| && d[5..5 + |payload|] == payload
    ensures |WithLength(tag, payload)| == 5 + |payload|
  {
    hide Le, FromLe;
    Pow256Values();
    FromLeLe(|payload|, 4);
    var d := WithLength(tag, payload) + suffix;
    assert d[1..5] == Le(|payload| % U32, 4);
  }

  lemma FixedField(tag: byte, n: nat, suffix: Bytes)
    requires n < U64
    ensures var d := [tag] + Le(n, 8) + suffix; |d| >= 9 && d[0] == tag && FromLe(d[1..9]) == n
  {
    hide Le, FromLe;
    Pow256Values();
    FromLeLe(n, 8);
    var d := [tag] + Le(n, 8) + suffix;
    assert d[1..9] == Le(n, 8);
  }

  /** Decoding an encoded value that is followed by anything gives the value and the length of its encoding. */
  lemma {:induction false} RoundTrip(v: Value, suffix: Bytes)
    requires Proper(v) && Small(v) && Encode(v).Some?
    ensures DecodeOne(Encode(v).value + suffix) == Got(v, |Encode(v).value|)
    decreases v, 1
  {
    hide Le, FromLe, WithLength, Pow256, EncodeAll, DecodeItems, ValidUtf8;
    match v
    case PyNone =>
    case PyBool(_) =>
    case PyInt(i) => FixedField(TAG_I64, ToU64(i), suffix);
    case PyFloat(bits) => FixedField(TAG_F64, bits, suffix);
    case PyStr(u) => LengthField(TAG_STR, u, suffix);
    case PyBytes(d) => LengthField(TAG_BYTES, d, suffix);
    case PyTuple(items) =>
      RoundTripItems(items, suffix);
      RoundTripTuple(items, suffix);
  }

  lemma TupleFrame(n: byte, s: Bytes, suffix: Bytes)
    ensures var d := [TAG_TUPLE, n] + s + suffix;
            |d| >= 2 && d[0] == TAG_TUPLE && d[1] == n && d[2..] == s + suffix
  {
  }

  lemma RoundTripTuple(items: seq<Value>, suffix: Bytes)
    requires |items| <= 255 && EncodeAll(items).Some?
    requires DecodeItems(EncodeAll(items).value + suffix, |items|) == GotItems(items, |EncodeAll(items).value|)
    ensures DecodeOne(Encode(PyTuple(items)).value + suffix) == Got(PyTuple(items), |Encode(PyTuple(items)).value|)
  {
    hide EncodeAll, DecodeItems, FromLe, ValidUtf8, Encode;
    TupleEncoding(items);
    TupleFrame(|items|, EncodeAll(items).value, suffix);
  }

  lemma {:induction false} RoundTripItems(items: seq<Value>, suffix: Bytes)
    requires (forall x :: x in items ==> Proper(x) && Small(x)) && EncodeAll(items).Some?
    ensures DecodeItems(EncodeAll(items).value + suffix, |items|) == GotItems(items, |EncodeAll(items).value|)
    decreases items, 0
  {
    hide Encode, DecodeOne, Proper, Small;
    if items != [] {
      var a, b := Encode(items[0]).value, EncodeAll(items[1..]).value;
      RoundTrip(items[0], b + suffix);
      RoundTripItems(items[1..], suffix);
      assert a + b + suffix == a + (b + suffix);
      assert (a + (b + suffix))[|a|..] == b + suffix;
      assert [items[0]] + items[1..] == items;
    }
  }

  /** Whatever decodes is proper, small and encodable, and its encoding is exactly the bytes consumed: the format
      is canonical. */
  lemma {:induction false} Canonical(data: Bytes)
    requires DecodeOne(data).Got?
    ensures var Got(v, n) := DecodeOne(data); Proper(v) && Small(v) && Encode(v) == Some(data[..n])
    decreases |data|, 0
  {
    hide DecodeOne, DecodeItems, Encode, EncodeAll, Small, Proper;
    var tag := data[0];
    if tag == TAG_I64 || tag == TAG_F64 {
      CanonicalNumber(data);
    } else if tag == TAG_STR || tag == TAG_BYTES {
      CanonicalText(data);
    } else if tag == TAG_TUPLE {
      TupleParts(data);
      CanonicalItems(data[2..], data[1]);
      CanonicalTuple(data);
    } else {
      CanonicalAtom(data);
    }
  }

  lemma CanonicalAtom(data: Bytes)
    requires DecodeOne(data).Got? && data[0] !in {TAG_I64, TAG_F64, TAG_STR, TAG_BYTES, TAG_TUPLE}
    ensures var Got(v, n) := DecodeOne(data); Proper(v) && Small(v) && Encode(v) == Some(data[..n])
  {
    hide DecodeItems, EncodeAll, FromLe, Le;
    assert data[..1] == [data[0]];
  }

  lemma TupleParts(data: Bytes)
    requires DecodeOne(data).Got? && data[0] == TAG_TUPLE
    ensures |data| >= 2 && DecodeItems(data[2..], data[1]).GotItems?
    ensures var r := DecodeItems(data[2..], data[1]);
            |r.items| == data[1] && DecodeOne(data) == Got(PyTuple(r.items), 2 + r.length)
  {
    hide DecodeItems, FromLe;
  }

  lemma CanonicalTuple(data: Bytes)
    requires DecodeOne(data).Got? && data[0] == TAG_TUPLE && |data| >= 2
    requires DecodeItems(data[2..], data[1]).GotItems?
    requires var r := DecodeItems(data[2..], data[1]);
             && |r.items| == data[1] && DecodeOne(data) == Got(PyTuple(r.items), 2 + r.length)
             && (forall x :: x in r.items ==> Proper(x) && Small(x)) && EncodeAll(r.items) == Some(data[2..][..r.length])
    ensures var Got(v, n) := DecodeOne(data); Proper(v) && Small(v) && Encode(v) == Some(data[..n])
  {
    hide DecodeOne, DecodeItems, EncodeAll;
    var r := DecodeItems(data[2..], data[1]);
    assert data[..2 + r.length] == [TAG_TUPLE, data[1]] + data[2..][..r.length];
  }

  lemma CanonicalNumber(data: Bytes)
    requires DecodeOne(data).Got? && (data[0] == TAG_I64 || data[0] == TAG_F64)
    ensures var Got(v, n) := DecodeOne(data); Proper(v) && Small(v) && Encode(v) == Some(data[..n])
  {
    Pow256Values();
    LeFromLe(data[1..9]);
    assert data[..9] == [data[0]] + data[1..9];
  }

  lemma Framing(data: Bytes, len: nat)
    requires |data| >= 5 + len && FromLe(data[1..5]) == len
    ensures len < U32 && WithLength(data[0], data[5..5 + len]) == data[..5 + len]
  {
    hide Le, FromLe;
    Pow256Values();
    LeFromLe(data[1..5]);
    var p := data[5..5 + len];
    assert Le(|p| % U32, 4) == data[1..5];
    assert data[..5 + len] == [data[0]] + data[1..5] + p;
  }

  lemma CanonicalText(data: Bytes)
    requires DecodeOne(data).Got? && (data[0] == TAG_STR || data[0] == TAG_BYTES)
    ensures var Got(v, n) := DecodeOne(data); Proper(v) && Small(v) && Encode(v) == Some(data[..n])
  {
    hide WithLength, FromLe, Le, ValidUtf8;
    Framing(data, FromLe(data[1..5]));
  }

  lemma {:induction false} CanonicalItems(data: Bytes, count: nat)
    requires DecodeItems(data, count).GotItems?
    ensures var r := DecodeItems(data, count);
            (forall x :: x in r.items ==> Proper(x) && Small(x)) && EncodeAll(r.items) == Some(data[..r.length])
    decreases |data|, 1 + count
  {
    hide DecodeOne, Encode, Small, Proper;
    if count > 0 {
      Canonical(data);
      var Got(v, n) := DecodeOne(data);
      CanonicalItems(data[n..], count - 1);
      var rest := DecodeItems(data[n..], count - 1);
      assert ([v] + rest.items)[1..] == rest.items;
      assert data[..n] + data[n..][..rest.length] == data[..n + rest.length];
    }
  }

  /** A proper, encodable value survives the round trip exactly when no payload in it reaches 2^32 bytes. */
  lemma RoundTripIff(v: Value)
    requires Proper(v) && Encode(v).Some?
    ensures DecodeOne(Encode(v).value) == Got(v, |Encode(v).value|) <==> Small(v)
  {
    if Small(v) {
      RoundTrip(v, []);
      assert Encode(v).value + [] == Encode(v).value;
    }
    if DecodeOne(Encode(v).value) == Got(v, |Encode(v).value|) { Canonical(Encode(v).value); }
  }

  /** No encoding is a prefix of another value's: the encoding is prefix-free, hence injective. */
  lemma PrefixFree(v: Value, w: Value, suffix: Bytes)
    requires Proper(v) && Small(v) && Proper(w) && Small(w) && Encode(v).Some? && Encode(w).Some?
    requires Encode(w).value == Encode(v).value + suffix
    ensures v == w && suffix == []
  {
    RoundTrip(v, suffix);
    RoundTrip(w, []);
    assert Encode(w).value + [] == Encode(w).value;
  }

  /** Successful output never looks pickled. */
  lemma NeverPickleTag(v: Value)
    requires Encode(v).Some?
    ensures Encode(v).value != [] && Encode(v).value[0] != TAG_PICKLE
  {
  }

  /** An encoding is at least as long as every payload in it. */
  lemma {:induction false} SmallByLength(v: Value)
    requires Encode(v).Some? && |Encode(v).value| < U32
    ensures Small(v)
    decreases v, 1
  {
    if v.PyTuple? { SmallItemsByLength(v.items); }
  }

  lemma {:induction false} SmallItemsByLength(items: seq<Value>)
    requires EncodeAll(items).Some? && |EncodeAll(items).value| < U32
    ensures forall x :: x in items ==> Small(x)
    decreases items, 0
  {
    if items != [] {
      SmallByLength(items[0]);
      SmallItemsByLength(items[1..]);
    }
  }

  // ---------------------------------------------------------------- the format, byte by byte

  /** What the format covers; everything else is left to pickle. */
  predicate Supported(v: Value) {
    match v
    case PyNone => true
    case PyBool(_) => true
    case PyInt(i) => -0x8000_0000_0000_0000 <= i <= 0x7FFF_FFFF_FFFF_FFFF
    case PyFloat(_) => true
    case PyStr(_) => true
    case PyBytes(_) => true
    case PyTuple(items) => |items| <= 255 && forall x :: x in items ==> Supported(x)
    case PyLoneSurrogates(_) => false
    case PyOther(_) => false
  }

  lemma {:induction false} EncodableIff(v: Value)
    ensures Encode(v).Some? <==> Supported(v)
    decreases v, 1
  {
    if v.PyTuple? { AllEncodableIff(v.items); }
  }

  lemma {:induction false} AllEncodableIff(items: seq<Value>)
    ensures EncodeAll(items).Some? <==> forall x :: x in items ==> Supported(x)
    decreases items, 0
  {
    hide Encode, Supported;
    if items != [] {
      EncodableIff(items[0]);
      AllEncodableIff(items[1..]);
      assert items == [items[0]] + items[1..];
    }
  }

  /** Which values are Python objects: floats have 64 bits, texts are UTF-8, items are objects. */
  lemma ProperIff(v: Value)
    ensures Proper(v) <==>
            match v
            case PyFloat(bits) => bits < 0x1_0000_0000_0000_0000
            case PyStr(u) => exists cs :: AllScalars(cs) && Utf8(cs) == u
            case PyTuple(items) => forall x :: x in items ==> Proper(x)
            case _ => true
  {
    if v.PyStr? { ValidUtf8Iff(v.utf8); }
  }

  /** Four and eight bytes, least significant first. */
  function Word4(s: Bytes): int
    requires |s| == 4
  {
    s[0] as int + 0x100 * s[1] as int + 0x1_0000 * s[2] as int + 0x100_0000 * s[3] as int
  }

  function Word8(s: Bytes): int
    requires |s| == 8
  {
    Word4(s[..4]) + 0x1_0000_0000 * Word4(s[4..])
  }

  lemma FourBytesOf(s: Bytes)
    requires |s| == 4
    ensures FromLe(s) == Word4(s)
  {
    FromLeFour(s);
    assert s[4..] == [];
  }

  lemma FromLeFour(s: Bytes)
    requires |s| >= 4
    ensures FromLe(s) == Word4(s[..4]) + 0x1_0000_0000 * FromLe(s[4..])
  {
    assert s[3..][1..] == s[4..];
    assert FromLe(s[3..]) == s[3] + 256 * FromLe(s[4..]);
    assert s[2..][1..] == s[3..];
    assert FromLe(s[2..]) == s[2] + 256 * FromLe(s[3..]);
    assert s[1..][1..] == s[2..];
    assert FromLe(s[1..]) == s[1] + 256 * FromLe(s[2..]);
  }

  lemma EightBytesOf(s: Bytes)
    requires |s| == 8
    ensures FromLe(s) == Word8(s)
  {
    FromLeFour(s);
    FourBytesOf(s[4..]);
  }

  lemma LeWord8(n: nat)
    requires n < U64
    ensures Word8(Le(n, 8)) == n
  {
    Pow256Values();
    FromLeLe(n, 8);
    EightBytesOf(Le(n, 8));
  }

  lemma LeWord4(n: nat)
    requires n < U32
    ensures Word4(Le(n, 4)) == n
  {
    Pow256Values();
    FromLeLe(n, 4);
    FourBytesOf(Le(n, 4));
  }

  /** The encodings of the items, one after the other. */
  function Joined(items: seq<Value>): Bytes
    requires forall x :: x in items ==> Encode(x).Some?
  {
    if items == [] then [] else Joined(items[..|items| - 1]) + Encode(items[|items| - 1]).value
  }

  lemma {:induction false} JoinedIsAll(items: seq<Value>)
    requires forall x :: x in items ==> Encode(x).Some?
    ensures EncodeAll(items) == Some(Joined(items))
  {
    hide Encode;
    if items != [] {
      var n := |items| - 1;
      JoinedIsAll(items[..n]);
      EncodeAllAppend(items[..n], items[n]);
      assert items == items[..n] + [items[n]];
    }
  }

  /** Tags, lengths and byte order. */
  lemma FormatIs(v: Value)
    requires Supported(v) && Proper(v)
    ensures Encode(v).Some?
    ensures var e := Encode(v).value;
            match v
            case PyNone => e == [1]
            case PyBool(b) => e == [if b then 3 else 2]
            case PyInt(i) => |e| == 9 && e[0] == 4 && Word8(e[1..]) == i % 0x1_0000_0000_0000_0000
            case PyFloat(bits) => |e| == 9 && e[0] == 5 && Word8(e[1..]) == bits
            case PyStr(u) => |e| == 5 + |u| && e[0] == 6 && Word4(e[1..5]) == |u| % 0x1_0000_0000 && e[5..] == u
            case PyBytes(d) => |e| == 5 + |d| && e[0] == 7 && Word4(e[1..5]) == |d| % 0x1_0000_0000 && e[5..] == d
            case PyTuple(items) => (forall x :: x in items ==> Encode(x).Some?) && e == [8, |items|] + Joined(items)
            case _ => false
  {
    hide Le, Word4, Word8;
    EncodableIff(v);
    match v
    case PyInt(i) =>
      LeWord8(ToU64(i));
      TwosComplement(i);
      assert Encode(v).value[1..] == Le(ToU64(i), 8);
    case PyFloat(bits) =>
      LeWord8(bits);
      assert Encode(v).value[1..] == Le(bits, 8);
    case PyStr(u) => LengthIs(TAG_STR, u);
    case PyBytes(d) => LengthIs(TAG_BYTES, d);
    case PyTuple(items) =>
      forall x | x in items ensures Encode(x).Some? { EncodableIff(x); }
      JoinedIsAll(items);
    case _ =>
  }

  lemma TwosComplement(i: int)
    requires -I63 <= i < I63
    ensures ToU64(i) == i % 0x1_0000_0000_0000_0000
  {
  }

  lemma LengthIs(tag: byte, payload: Bytes)
    ensures var e := WithLength(tag, payload);
            |e| == 5 + |payload| && e[0] == tag && Word4(e[1..5]) == |payload| % U32 && e[5..] == payload
  {
    hide Le, Word4;
    LeWord4(|payload| % U32);
    assert WithLength(tag, payload)[1..5] == Le(|payload| % U32, 4);
  }

  /** Exactly what decodes: a prefix that is the encoding of some object whose payloads fit their length fields. */
  lemma DecodesIff(data: Bytes, v: Value, n: nat)
    ensures DecodeOne(data) == Got(v, n) <==> n <= |data| && Proper(v) && Small(v) && Encode(v) == Some(data[..n])
  {
    hide DecodeOne, Encode, Proper, Small;
    if DecodeOne(data) == Got(v, n) { Canonical(data); }
    if n <= |data| && Proper(v) && Small(v) && Encode(v) == Some(data[..n]) {
      RoundTrip(v, data[n..]);
      assert data[..n] + data[n..] == data;
    }
  }

  /** A complete text that is no sequence of scalar values. */
  ghost predicate BadText(data: Bytes) {
    && |data| >= 5 && data[0] == 6
    && var len := Word4(data[1..5]);
       5 + len <= |data| && !exists cs :: AllScalars(cs) && Utf8(cs) == data[5..5 + len]
  }

  /** The tuple's items before the i-th are whole and take n bytes. */
  ghost predicate ItemsBefore(d: Bytes, i: nat, n: nat) {
    DecodeItems(d, i).GotItems? && DecodeItems(d, i).length == n
  }

  /** The first thing wrong with the data is such a text, at any depth. */
  ghost predicate BadWithin(data: Bytes)
    decreases |data|
  {
    || BadText(data)
    || (|data| >= 2 && data[0] == 8 &&
        exists i: nat, n: nat :: i < data[1] && n <= |data| - 2 && ItemsBefore(data[2..], i, n) && BadWithin(data[2..][n..]))
  }

  /** The decoder raises exactly then. */
  lemma {:induction false} BadUtf8Iff(data: Bytes)
    ensures DecodeOne(data) == BadUtf8 <==> BadWithin(data)
    decreases |data|
  {
    hide ValidUtf8, DecodeItems, Utf8, AllScalars;
    if |data| >= 5 && data[0] == 6 {
      TextError(data);
    } else if |data| >= 2 && data[0] == 8 {
      var d := data[2..];
      forall n: nat | n <= |d| ensures DecodeOne(d[n..]) == BadUtf8 <==> BadWithin(d[n..]) {
        BadUtf8Iff(d[n..]);
      }
      ItemsErrorIff(d, data[1]);
    }
  }

  lemma TextError(data: Bytes)
    requires |data| >= 5 && data[0] == 6
    ensures DecodeOne(data) == BadUtf8 <==> BadText(data)
  {
    hide ValidUtf8, Utf8, AllScalars;
    FourBytesOf(data[1..5]);
    var len := FromLe(data[1..5]);
    if 5 + len <= |data| { ValidUtf8Iff(data[5..5 + len]); }
  }

  lemma {:induction false} ItemsErrorIff(d: Bytes, count: nat)
    ensures DecodeItems(d, count) == BadUtf8Items <==>
            exists i: nat, n: nat :: i < count && n <= |d| && ItemsBefore(d, i, n) && DecodeOne(d[n..]) == BadUtf8
    decreases count
  {
    hide DecodeOne;
    if count > 0 {
      ItemsErrorIff(d, count - 1);
      OneMoreItem(d, count - 1);
      if ItemsBefore(d, count - 1, DecodeItemsLength(d, count - 1)) {
        assert DecodeItemsLength(d, count - 1) <= |d|;
      }
    }
  }

  function DecodeItemsLength(d: Bytes, i: nat): nat {
    match DecodeItems(d, i)
    case GotItems(_, n) => n
    case _ => 0
  }

  /** Decoding one item more, at the end. */
  lemma {:induction false} OneMoreItem(d: Bytes, i: nat)
    ensures DecodeItems(d, i + 1) ==
            match DecodeItems(d, i)
            case GotItems(items, n) =>
              (match DecodeOne(d[n..])
               case Got(v, m) => GotItems(items + [v], n + m)
               case Malformed => MalformedItems
               case BadUtf8 => BadUtf8Items)
            case bad => bad
    decreases i
  {
    hide DecodeOne;
    if i == 0 {
      assert d[0..] == d;
      NoItemsLeft(d);
    } else {
      match DecodeOne(d)
      case Got(v, m) =>
        OneMoreItem(d[m..], i - 1);
        match DecodeItems(d[m..], i - 1) {
          case GotItems(items, n) =>
            assert d[m..][n..] == d[m + n..];
            if DecodeOne(d[m + n..]).Got? {
              assert [v] + (items + [DecodeOne(d[m + n..]).v]) == ([v] + items) + [DecodeOne(d[m + n..]).v];
            }
          case _ =>
        }
      case _ =>
    }
  }

  lemma NoItemsLeft(d: Bytes)
    ensures DecodeItems(d, 1) ==
            match DecodeOne(d)
            case Got(v, m) => GotItems([v], m)
            case Malformed => MalformedItems
            case BadUtf8 => BadUtf8Items
  {
  }
}
