/** bufferField and decodeMessage: how field values are laid into a payload
    buffer and read back out of one. */
module Codec {
  import opened Wrappers
  import opened Bytes
  import opened Layout

  // ---------------------------------------------------------------------
  // Values handed to createMessage and the elements they consist of

  /** A JavaScript value supplied for a field. Numbers are integers; a
      float or double is given by the IEEE-754 little-endian bytes that
      writeFloatLE / writeDoubleLE would store for it. */
  datatype Value =
    | Number(n: int)
    | Text(s: string)
    | Real(bits: seq<byte>)
    | List(items: seq<Value>)

  /** Why a write throws: the value is outside the type's range, the write
      runs past the end of the buffer, `charCodeAt` is called on something
      that is not a string, or a coercion this model does not describe. */
  datatype WriteError = OutOfRange | OutOfBounds | NotAString | Unmodelled

  /** `charCodeAt(0)` on a string starting with `c`: its first UTF-16 code
      unit (the high surrogate for a character beyond U+FFFF). */
  function CodeUnit(c: char): (u: nat)
    ensures u < 0x10000
    ensures (c as int) < 0x10000 ==> u == c as int
  {
    var x := c as int;
    if x < 0x10000 then x else 0xD800 + (x - 0x10000) / 0x400
  }

  /** bufferField's `valueArr`: a scalar field's value alone; for an array
      field the array itself, a string's characters, and nothing for a value
      without a length (a number, say). */
  function Elements(f: Field, v: Value): (r: seq<Value>)
    ensures !IsArray(f) ==> r == [v]
    ensures IsArray(f) && v.List? ==> r == v.items
    ensures IsArray(f) && v.Text? ==> |r| == |v.s| && forall i :: 0 <= i < |r| ==> r[i] == Text([v.s[i]])
    ensures IsArray(f) && (v.Number? || v.Real?) ==> r == []
  {
    if !IsArray(f) then [v]
    else match v
      case List(items) => items
      case Text(s) => seq(|s|, i requires 0 <= i < |s| => Text([s[i]]))
      case _ => []
  }

  /** The bytes one element write stores, by base type: two's complement
      for the signed types, little-endian for the wide ones, nothing for
      the 64-bit types (the source only warns). */
  function EncodeElem(t: BaseType, v: Value): (r: Result<seq<byte>, WriteError>)
    ensures r.Ok? && (t == Int64 || t == UInt64) ==> r.value == []
    ensures r.Ok? && t != Int64 && t != UInt64 ==> |r.value| == Width(t)
    ensures (t == Int64 || t == UInt64) ==> r.Ok?
  {
    match t
    case Float => if v.Real? && |v.bits| == 4 then Ok(v.bits) else Err(Unmodelled)
    case Double => if v.Real? && |v.bits| == 8 then Ok(v.bits) else Err(Unmodelled)
    case Char =>
      if !v.Text? then Err(NotAString)
      else if v.s == [] then Err(Unmodelled)
      else if CodeUnit(v.s[0]) < 256 then Ok([CodeUnit(v.s[0])])
      else Err(OutOfRange)
    case Int8 => EncodeInt(v, true, 1)
    case UInt8 => EncodeInt(v, false, 1)
    case UInt8MavlinkVersion => EncodeInt(v, false, 1)
    case Int16 => EncodeInt(v, true, 2)
    case UInt16 => EncodeInt(v, false, 2)
    case Int32 => EncodeInt(v, true, 4)
    case UInt32 => EncodeInt(v, false, 4)
    case Int64 => Ok([])
    case UInt64 => Ok([])
  }

  /** The range writeIntN / writeUIntN accept. */
  predicate IntFits(n: int, signed: bool, width: nat)
  {
    if signed then -(Pow256(width) / 2) <= n < Pow256(width) / 2 else 0 <= n < Pow256(width)
  }

  /** writeIntN / writeUIntN of a number: range-checked, then little-endian. */
  function EncodeInt(v: Value, signed: bool, width: nat): (r: Result<seq<byte>, WriteError>)
    requires width > 0
    ensures r.Ok? ==> |r.value| == width
    ensures r.Ok? <==> v.Number? && IntFits(v.n, signed, width)
  {
    if !v.Number? then Err(Unmodelled)
    else if !IntFits(v.n, signed, width) then Err(OutOfRange)
    else if signed then Ok(LE(Unsigned(v.n, width), width))
    else Ok(LE(v.n, width))
  }

  /** `buf` with `bytes` written from index `at`. */
  function Splice(buf: seq<byte>, at: nat, bytes: seq<byte>): (r: seq<byte>)
    requires at + |bytes| <= |buf|
    ensures |r| == |buf|
    ensures forall i :: 0 <= i < |buf| ==> r[i] == if at <= i < at + |bytes| then bytes[i - at] else buf[i]
  {
    buf[..at] + bytes + buf[at + |bytes|..]
  }

  /** One element write at `offset`: the value is checked first, then the
      room left in the buffer; a write that throws changes nothing. */
  function WriteElem(buf: seq<byte>, offset: nat, t: BaseType, v: Value): (r: Result<seq<byte>, WriteError>)
    ensures r.Ok? ==> |r.value| == |buf|
  {
    match EncodeElem(t, v)
    case Err(e) => Err(e)
    case Ok(bytes) =>
      if bytes == [] then Ok(buf)
      else if offset + |bytes| > |buf| then Err(OutOfBounds)
      else Ok(Splice(buf, offset, bytes))
  }

  /** The buffer after a run of element writes, and the error that stopped it, if any. */
  datatype Written = Written(buf: seq<byte>, err: Option<WriteError>)

  /** The element writes of bufferField for `elems`, element `i` at
      `offset + i * typeLength`, stopping at the first that throws. */
  function WriteElems(buf: seq<byte>, offset: nat, f: Field, elems: seq<Value>): (r: Written)
    ensures |r.buf| == |buf|
    decreases |elems|
  {
    if elems == [] then Written(buf, None)
    else
      var w := WriteElems(buf, offset, f, elems[..|elems| - 1]);
      if w.err.Some? then w
      else match WriteElem(w.buf, offset + (|elems| - 1) * f.typeLength, f.base, elems[|elems| - 1])
        case Ok(b) => Written(b, None)
        case Err(e) => Written(w.buf, Some(e))
  }

  /** bufferField(buf, offset, field, value). */
  function WriteField(buf: seq<byte>, offset: nat, f: Field, v: Value): (r: Written)
    ensures |r.buf| == |buf|
  {
    WriteElems(buf, offset, f, Elements(f, v))
  }

  /** Stores `bytes` into `buf` from index `at`, one byte at a time. */
  method WriteBytes(buf: array<byte>, at: nat, bytes: seq<byte>)
    requires at + |bytes| <= buf.Length
    modifies buf
    ensures buf[..] == Splice(old(buf[..]), at, bytes)
  {
    ghost var b0 := buf[..];
    var j := 0;
    while j < |bytes|
      invariant 0 <= j <= |bytes|
      invariant buf[..] == Splice(b0, at, bytes[..j])
    {
      buf[at + j] := bytes[j];
      j := j + 1;
      assert buf[..] == Splice(b0, at, bytes[..j]) by {
        forall i | 0 <= i < buf.Length ensures buf[i] == Splice(b0, at, bytes[..j])[i] {}
      }
    }
    assert bytes[..j] == bytes;
  }

  /** bufferField: write the elements of `value` one after the other from
      `offset`, each `typeLength` bytes further on. */
  method BufferField(buf: array<byte>, offset: nat, f: Field, value: Value) returns (err: Option<WriteError>)
    modifies buf
    ensures buf[..] == WriteField(old(buf[..]), offset, f, value).buf
    ensures err == WriteField(old(buf[..]), offset, f, value).err
  {
    ghost var b0 := buf[..];
    var elems := Elements(f, value);
    var i := 0;
    err := None;
    while i < |elems|
      invariant 0 <= i <= |elems|
      invariant buf.Length == |b0|
      invariant WriteElems(b0, offset, f, elems[..i]) == Written(buf[..], None)
    {
      WriteElemsNext(b0, offset, f, elems, i);
      var bytes := EncodeElem(f.base, elems[i]);
      MulNat(i, f.typeLength);
      var at: nat := offset + i * f.typeLength;
      if bytes.Err? {
        err := Some(bytes.error);
        WriteElemsStopped(b0, offset, f, elems, i + 1);
        return;
      }
      if bytes.value != [] {
        if at + |bytes.value| > buf.Length {
          err := Some(OutOfBounds);
          WriteElemsStopped(b0, offset, f, elems, i + 1);
          return;
        }
        WriteBytes(buf, at, bytes.value);
      }
      i := i + 1;
    }
    assert elems[..i] == elems;
  }

  lemma MulNat(a: nat, b: nat)
    ensures a * b >= 0
  {
  }

  /** One more element write after a run that has not thrown. */
  lemma WriteElemsNext(buf: seq<byte>, offset: nat, f: Field, elems: seq<Value>, i: nat)
    requires i < |elems|
    requires WriteElems(buf, offset, f, elems[..i]).err.None?
    ensures var cur := WriteElems(buf, offset, f, elems[..i]).buf;
      WriteElems(buf, offset, f, elems[..i + 1])
        == match WriteElem(cur, offset + i * f.typeLength, f.base, elems[i])
           case Ok(b) => Written(b, None)
           case Err(e) => Written(cur, Some(e))
  {
    assert elems[..i + 1][..i] == elems[..i];
  }

  lemma WriteElemsSticky(buf: seq<byte>, offset: nat, f: Field, elems: seq<Value>)
    requires elems != [] && WriteElems(buf, offset, f, elems[..|elems| - 1]).err.Some?
    ensures WriteElems(buf, offset, f, elems) == WriteElems(buf, offset, f, elems[..|elems| - 1])
  {
  }

  /** Once a write has thrown, the remaining elements change nothing. */
  lemma {:induction false} WriteElemsStopped(buf: seq<byte>, offset: nat, f: Field, elems: seq<Value>, k: nat)
    requires k <= |elems|
    requires WriteElems(buf, offset, f, elems[..k]).err.Some?
    ensures WriteElems(buf, offset, f, elems) == WriteElems(buf, offset, f, elems[..k])
    decreases |elems| - k
  {
    if k < |elems| {
      var prefix := elems[..|elems| - 1];
      assert prefix[..k] == elems[..k];
      WriteElemsStopped(buf, offset, f, prefix, k);
      WriteElemsSticky(buf, offset, f, elems);
    } else {
      assert elems[..k] == elems;
    }
  }

  // ---------------------------------------------------------------------
  // The payload createMessage builds

  /** Why createMessage gives up: a field with no value in the data, or a
      field whose write throws. */
  datatype EncodeError = MissingField(name: string) | WriteFailed(name: string, err: WriteError)

  /** A zero-filled buffer, as `fill('\0')` leaves it. */
  function Zeros(n: nat): (r: seq<byte>)
    ensures |r| == n && forall i :: 0 <= i < n ==> r[i] == 0
  {
    seq(n, i => 0)
  }

  /** createMessage's payload loop over `fields` (in wire order) into a
      zero-filled buffer of `size` bytes: each field is looked up in `data`
      and written at the summed lengths of the fields before it. */
  function EncodeFields(fields: seq<Field>, data: map<string, Value>, size: nat): (r: Result<seq<byte>, EncodeError>)
    ensures r.Ok? ==> |r.value| == size
    decreases |fields|
  {
    if fields == [] then Ok(Zeros(size))
    else
      var prefix := fields[..|fields| - 1];
      var f := fields[|fields| - 1];
      match EncodeFields(prefix, data, size)
      case Err(e) => Err(e)
      case Ok(buf) =>
        if f.name !in data then Err(MissingField(f.name))
        else
          var w := WriteField(buf, SumLengths(prefix), f, data[f.name]);
          if w.err.Some? then Err(WriteFailed(f.name, w.err.value)) else Ok(w.buf)
  }

  /** The loop succeeds only when every field has a value in `data`. */
  lemma {:induction false} EncodeFieldsPresent(fields: seq<Field>, data: map<string, Value>, size: nat)
    requires EncodeFields(fields, data, size).Ok?
    ensures forall f | f in fields :: f.name in data
    decreases |fields|
  {
    if fields != [] {
      var prefix := fields[..|fields| - 1];
      EncodeFieldsLast(fields, data, size);
      EncodeFieldsPresent(prefix, data, size);
      assert fields == prefix + [fields[|fields| - 1]];
    }
  }

  /** A successful encoding encoded the fields before the last one and had a value for the last one. */
  lemma EncodeFieldsLast(fields: seq<Field>, data: map<string, Value>, size: nat)
    requires fields != [] && EncodeFields(fields, data, size).Ok?
    ensures EncodeFields(fields[..|fields| - 1], data, size).Ok?
    ensures fields[|fields| - 1].name in data
  {
  }

  /** The payload of a message whose layout is `layout`. */
  function EncodePayload(layout: Layout, data: map<string, Value>): (r: Result<seq<byte>, EncodeError>)
    ensures r.Ok? ==> |r.value| == layout.payloadLength
  {
    EncodeFields(layout.fields, data, layout.payloadLength)
  }

  // ---------------------------------------------------------------------
  // decodeMessage

  /** One element read: a number, or the raw bytes of a float or double. */
  datatype Elem = Num(n: int) | Bits(bytes: seq<byte>)

  /** A decoded field: a scalar, an array, or a char array turned into a
      string (kept here as the bytes the string is decoded from). */
  datatype Decoded = Scalar(e: Elem) | Items(es: seq<Elem>) | Chars(bytes: seq<byte>)

  /** `ToInt32`: the signed 32-bit value of an unsigned 32-bit one, which is
      what `val1 << 32` computes (the shift count is taken modulo 32). */
  function ToInt32(u: nat): int
  {
    Signed(u, 4)
  }

  /** One element read at offset `o`, by base type. A 64-bit signed element
      reads nothing and is 0; a 64-bit unsigned one is `ToInt32(lo) + hi`. */
  function ReadElem(p: seq<byte>, o: nat, t: BaseType): (r: Option<Elem>)
    ensures t == Int64 ==> r == Some(Num(0))
    ensures t != Int64 && t != UInt64 ==> (r.Some? <==> o + Width(t) <= |p|)
    ensures t == UInt64 ==> (r.Some? <==> o + 8 <= |p|)
  {
    match t
    case Float => if o + 4 <= |p| then Some(Bits(p[o..o + 4])) else None
    case Double => if o + 8 <= |p| then Some(Bits(p[o..o + 8])) else None
    case Char => ReadInt(p, o, false, 1)
    case Int8 => ReadInt(p, o, true, 1)
    case UInt8 => ReadInt(p, o, false, 1)
    case UInt8MavlinkVersion => ReadInt(p, o, false, 1)
    case Int16 => ReadInt(p, o, true, 2)
    case UInt16 => ReadInt(p, o, false, 2)
    case Int32 => ReadInt(p, o, true, 4)
    case UInt32 => ReadInt(p, o, false, 4)
    case Int64 => Some(Num(0))
    case UInt64 =>
      if o + 4 > |p| || o + 8 > |p| then None
      else Some(Num(ToInt32(FromLE(p[o..o + 4])) + FromLE(p[o + 4..o + 8])))
  }

  /** readIntN / readUIntN: little-endian, two's complement when signed. */
  function ReadInt(p: seq<byte>, o: nat, signed: bool, width: nat): (r: Option<Elem>)
    ensures r.Some? <==> o + width <= |p|
  {
    if o + width > |p| then None
    else
      var u := FromLE(p[o..o + width]);
      Some(Num(if signed then Signed(u, width) else u))
  }

  /** The first `n` elements of field `f` read from `offset`, element `j` at `offset + j * typeLength`. */
  function ReadElems(p: seq<byte>, offset: nat, f: Field, n: nat): (r: Option<seq<Elem>>)
    ensures r.Some? ==> |r.value| == n
    decreases n
  {
    if n == 0 then Some([])
    else match ReadElems(p, offset, f, n - 1)
      case None => None
      case Some(es) =>
        match ReadElem(p, offset + (n - 1) * f.typeLength, f.base)
        case None => None
        case Some(e) => Some(es + [e])
  }

  /** `new Buffer(array)` keeps each number modulo 256. */
  function ElemByte(e: Elem): byte
  {
    match e
    case Num(n) => ToUint8(n)
    case Bits(_) => 0
  }

  /** What decodeMessage stores for a field read as `es`. */
  function Assemble(f: Field, es: seq<Elem>): Decoded
    requires |es| >= 1 || IsArray(f)
  {
    if !IsArray(f) then Scalar(es[|es| - 1])
    else if f.base == Char then Chars(seq(|es|, i requires 0 <= i < |es| => ElemByte(es[i])))
    else Items(es)
  }

  /** One field of decodeMessage: `arrayLength` element reads from `offset`. */
  function DecodeField(p: seq<byte>, offset: nat, f: Field): (r: Option<Decoded>)
    requires FieldOk(f)
  {
    match ReadElems(p, offset, f, f.arrayLength)
    case None => None
    case Some(es) => Some(Assemble(f, es))
  }

  /** decodeMessage's loop over the fields (in wire order): every field read
      from the summed lengths of the fields before it, a later field of the
      same name replacing an earlier one. */
  function DecodeFields(fields: seq<Field>, p: seq<byte>): Option<map<string, Decoded>>
    requires forall f | f in fields :: FieldOk(f)
    decreases |fields|
  {
    if fields == [] then Some(map[])
    else
      var prefix := fields[..|fields| - 1];
      var f := fields[|fields| - 1];
      assert forall g | g in prefix :: g in fields;
      match DecodeFields(prefix, p)
      case None => None
      case Some(values) =>
        match DecodeField(p, SumLengths(prefix), f)
        case None => None
        case Some(d) => Some(values[f.name := d])
  }

  /** A successful decoding has a value under the name of every field and
      under no other name. */
  lemma {:induction false} DecodeFieldsKeys(fields: seq<Field>, p: seq<byte>)
    requires forall f | f in fields :: FieldOk(f)
    requires DecodeFields(fields, p).Some?
    ensures DecodeFields(fields, p).value.Keys == set f | f in fields :: f.name
    decreases |fields|
  {
    if fields != [] {
      var prefix := fields[..|fields| - 1];
      assert forall g | g in prefix :: g in fields;
      DecodeFieldsKeys(prefix, p);
      NamesSnoc(fields);
    }
  }

  /** The names of the fields are those of all but the last, and the last one's. */
  lemma NamesSnoc(fields: seq<Field>)
    requires fields != []
    ensures (set g | g in fields :: g.name)
      == (set g | g in fields[..|fields| - 1] :: g.name) + {fields[|fields| - 1].name}
  {
    assert fields == fields[..|fields| - 1] + [fields[|fields| - 1]];
  }

  /** Reading one element more after `n` successful reads. */
  lemma ReadElemsNext(p: seq<byte>, offset: nat, f: Field, n: nat)
    requires ReadElems(p, offset, f, n).Some?
    ensures ReadElems(p, offset, f, n + 1)
      == match ReadElem(p, offset + n * f.typeLength, f.base)
         case None => None
         case Some(e) => Some(ReadElems(p, offset, f, n).value + [e])
  {
  }

  /** Once a read has thrown, reading further elements still throws. */
  lemma {:induction false} ReadElemsStopped(p: seq<byte>, offset: nat, f: Field, k: nat, n: nat)
    requires k <= n && ReadElems(p, offset, f, k).None?
    ensures ReadElems(p, offset, f, n).None?
    decreases n - k
  {
    if k < n {
      ReadElemsStopped(p, offset, f, k, n - 1);
    }
  }

  /** One field more after a prefix that decoded. */
  lemma DecodeFieldsNext(fields: seq<Field>, p: seq<byte>, i: nat)
    requires i < |fields| && forall f | f in fields :: FieldOk(f)
    requires DecodeFields(fields[..i], p).Some?
    ensures FieldOk(fields[i])
    ensures DecodeFields(fields[..i + 1], p)
      == match DecodeField(p, SumLengths(fields[..i]), fields[i])
         case None => None
         case Some(d) => Some(DecodeFields(fields[..i], p).value[fields[i].name := d])
  {
    assert fields[i] in fields;
    assert fields[..i + 1][..i] == fields[..i];
  }

  /** Once a field has failed to decode, decoding more fields still fails. */
  lemma {:induction false} DecodeFieldsStopped(fields: seq<Field>, p: seq<byte>, k: nat)
    requires k <= |fields| && forall f | f in fields :: FieldOk(f)
    requires DecodeFields(fields[..k], p).None?
    ensures DecodeFields(fields, p) == None
    decreases |fields| - k
  {
    if k < |fields| {
      var prefix := fields[..|fields| - 1];
      assert prefix[..k] == fields[..k];
      assert forall f | f in prefix :: f in fields;
      DecodeFieldsStopped(prefix, p, k);
    } else {
      assert fields[..k] == fields;
    }
  }

  /** decodeMessage's inner loop: the `arrayLength` element reads of one
      field, advancing the offset by the element width after each. */
  method ReadField(payload: seq<byte>, start: nat, f: Field) returns (r: Option<seq<Elem>>)
    ensures r == ReadElems(payload, start, f, f.arrayLength)
  {
    var es: seq<Elem> := [];
    var offset := start;
    var j := 0;
    while j < f.arrayLength
      invariant 0 <= j <= f.arrayLength
      invariant offset == start + j * f.typeLength
      invariant ReadElems(payload, start, f, j) == Some(es)
    {
      ReadElemsNext(payload, start, f, j);
      var e := ReadElem(payload, offset, f.base);
      if e.None? {
        ReadElemsStopped(payload, start, f, j + 1, f.arrayLength);
        return None;
      }
      es := es + [e.value];
      offset := offset + f.typeLength;
      j := j + 1;
    }
    r := Some(es);
  }

  /** decodeMessage's outer loop over the fields in wire order, each read
      where the previous one ended. */
  method DecodePayload(fields: seq<Field>, payload: seq<byte>) returns (r: Option<map<string, Decoded>>)
    requires forall f | f in fields :: FieldOk(f)
    ensures r == DecodeFields(fields, payload)
  {
    var values: map<string, Decoded> := map[];
    var offset := 0;
    var i := 0;
    while i < |fields|
      invariant 0 <= i <= |fields|
      invariant offset == SumLengths(fields[..i])
      invariant DecodeFields(fields[..i], payload) == Some(values)
    {
      var f := fields[i];
      DecodeFieldsNext(fields, payload, i);
      var es := ReadField(payload, offset, f);
      if es.None? {
        DecodeFieldsStopped(fields, payload, i + 1);
        return None;
      }
      values := values[f.name := Assemble(f, es.value)];
      SumLengthsSnoc(fields, i);
      offset := offset + f.length;
      i := i + 1;
    }
    assert fields[..i] == fields;
    r := Some(values);
  }

  lemma SumLengthsSnoc(fields: seq<Field>, i: nat)
    requires i < |fields|
    ensures SumLengths(fields[..i + 1]) == SumLengths(fields[..i]) + fields[i].length
  {
    assert fields[..i + 1][..i] == fields[..i];
  }

  // ---------------------------------------------------------------------
  // Round trip: decodeMessage reads back what createMessage wrote

  predicate Is64(t: BaseType)
  {
    t == Int64 || t == UInt64
  }

  /** An element bufferField writes without throwing; a 64-bit element is
      never written, so any value will do. */
  predicate ElemFits(t: BaseType, v: Value)
  {
    Is64(t) || EncodeElem(t, v).Ok?
  }

  /** The bytes an element occupies once written into a zero-filled buffer. */
  function ElemImage(t: BaseType, v: Value): (r: seq<byte>)
    requires ElemFits(t, v)
    ensures |r| == Width(t)
  {
    if Is64(t) then Zeros(8) else EncodeElem(t, v).value
  }

  /** What decoding gives back for an element that was written: the number
      for the integer types, the character's code for `char`, the stored
      bytes for `float` and `double`, and 0 for the 64-bit types. */
  function ExpectedElem(t: BaseType, v: Value): Elem
    requires ElemFits(t, v)
  {
    match t
    case Float => Bits(v.bits)
    case Double => Bits(v.bits)
    case Char => Num(CodeUnit(v.s[0]))
    case Int64 => Num(0)
    case UInt64 => Num(0)
    case _ => Num(v.n)
  }

  lemma {:induction false} FromLEZeros(n: nat)
    ensures FromLE(Zeros(n)) == 0
    decreases n
  {
    if n > 0 {
      assert Zeros(n)[1..] == Zeros(n - 1);
      FromLEZeros(n - 1);
    }
  }

  /** Reading back an integer written with writeIntN / writeUIntN. */
  lemma IntRoundTrip(p: seq<byte>, o: nat, n: int, signed: bool, width: nat)
    requires width > 0 && EncodeInt(Number(n), signed, width).Ok?
    requires o + width <= |p| && p[o..o + width] == EncodeInt(Number(n), signed, width).value
    ensures ReadInt(p, o, signed, width) == Some(Num(n))
  {
    if signed {
      SignedOfUnsigned(n, width);
      FromLEOfLE(Unsigned(n, width), width);
    } else {
      FromLEOfLE(n, width);
    }
  }

  /** An element read where an element was written gives back its expected value. */
  lemma ElemRoundTrip(p: seq<byte>, o: nat, t: BaseType, v: Value)
    requires ElemFits(t, v) && o + Width(t) <= |p| && p[o..o + Width(t)] == ElemImage(t, v)
    ensures ReadElem(p, o, t) == Some(ExpectedElem(t, v))
  {
    match t
    case Float =>
    case Double =>
    case Char =>
      assert p[o..o + 1] == [CodeUnit(v.s[0])];
      assert FromLE([CodeUnit(v.s[0])]) == CodeUnit(v.s[0]) by {
        assert [CodeUnit(v.s[0])][1..] == [];
      }
    case Int8 => IntRoundTrip(p, o, v.n, true, 1);
    case UInt8 => IntRoundTrip(p, o, v.n, false, 1);
    case UInt8MavlinkVersion => IntRoundTrip(p, o, v.n, false, 1);
    case Int16 => IntRoundTrip(p, o, v.n, true, 2);
    case UInt16 => IntRoundTrip(p, o, v.n, false, 2);
    case Int32 => IntRoundTrip(p, o, v.n, true, 4);
    case UInt32 => IntRoundTrip(p, o, v.n, false, 4);
    case Int64 =>
    case UInt64 =>
      var z := p[o..o + 8];
      assert z == Zeros(8);
      assert p[o..o + 4] == z[..4] == Zeros(4);
      assert p[o + 4..o + 8] == z[4..] == Zeros(4);
      FromLEZeros(4);
  }

  /** The bytes a run of elements occupies once written into a zero-filled buffer. */
  function FieldImage(t: BaseType, es: seq<Value>): (r: seq<byte>)
    requires forall i :: 0 <= i < |es| ==> ElemFits(t, es[i])
    ensures |r| == |es| * Width(t)
    decreases |es|
  {
    if es == [] then []
    else
      MulStep(|es| - 1, Width(t));
      FieldImage(t, es[..|es| - 1]) + ElemImage(t, es[|es| - 1])
  }

  /** The image of the first `n` elements is where the image of all of them starts. */
  lemma {:induction false} FieldImagePrefix(t: BaseType, es: seq<Value>, n: nat)
    requires n <= |es| && forall i :: 0 <= i < |es| ==> ElemFits(t, es[i])
    ensures FieldImage(t, es[..n]) == FieldImage(t, es)[..n * Width(t)]
    decreases |es| - n
  {
    if n < |es| {
      var w := Width(t);
      var es' := es[..|es| - 1];
      assert es'[..n] == es[..n];
      FieldImagePrefix(t, es', n);
      var img' := FieldImage(t, es');
      MulLe(n, |es| - 1, w);
      assert FieldImage(t, es) == img' + ElemImage(t, es[|es| - 1]);
      assert (img' + ElemImage(t, es[|es| - 1]))[..n * w] == img'[..n * w];
    } else {
      assert es[..n] == es;
    }
  }

  /** Element `i` of a run occupies bytes `i * w` up to `(i + 1) * w` of its image. */
  lemma FieldImageElem(t: BaseType, es: seq<Value>, i: nat)
    requires i < |es| && forall k :: 0 <= k < |es| ==> ElemFits(t, es[k])
    ensures i * Width(t) + Width(t) <= |FieldImage(t, es)|
    ensures FieldImage(t, es)[i * Width(t)..i * Width(t) + Width(t)] == ElemImage(t, es[i])
  {
    var w := Width(t);
    FieldImagePrefix(t, es, i + 1);
    var pre := es[..i + 1];
    assert pre[..i] == es[..i];
    assert FieldImage(t, pre) == FieldImage(t, es[..i]) + ElemImage(t, es[i]);
    assert (i + 1) * w == i * w + w;
  }

  /** Splicing `a` and then `b` right after it is splicing `a + b`. */
  lemma SpliceAppend(buf: seq<byte>, at: nat, a: seq<byte>, b: seq<byte>)
    requires at + |a| + |b| <= |buf|
    ensures Splice(Splice(buf, at, a), at + |a|, b) == Splice(buf, at, a + b)
  {
    var l := Splice(Splice(buf, at, a), at + |a|, b);
    var r := Splice(buf, at, a + b);
    forall i | 0 <= i < |buf| ensures l[i] == r[i] {
      if at <= i < at + |a| {
        assert (a + b)[i - at] == a[i - at];
      } else if at + |a| <= i < at + |a| + |b| {
        assert (a + b)[i - at] == b[i - at - |a|];
      }
    }
  }

  /** Splicing zeros over zeros changes nothing. */
  lemma SpliceZeros(buf: seq<byte>, at: nat, n: nat)
    requires at + n <= |buf| && forall i :: at <= i < at + n ==> buf[i] == 0
    ensures Splice(buf, at, Zeros(n)) == buf
  {
    var r := Splice(buf, at, Zeros(n));
    forall i | 0 <= i < |buf| ensures r[i] == buf[i] {}
  }

  lemma MulStep(n: nat, w: nat)
    ensures (n + 1) * w == n * w + w
  {
  }

  /** One more element written after the image of the ones before it. */
  lemma WriteElemsImageStep(buf: seq<byte>, offset: nat, f: Field, es: seq<Value>)
    requires FieldOk(f) && forall i :: 0 <= i < |es| ==> ElemFits(f.base, es[i])
    requires es != [] && offset + |es| * f.typeLength <= |buf|
    requires forall i :: offset <= i < offset + |es| * f.typeLength ==> buf[i] == 0
    requires var es' := es[..|es| - 1];
      && offset + |FieldImage(f.base, es')| <= |buf|
      && WriteElems(buf, offset, f, es') == Written(Splice(buf, offset, FieldImage(f.base, es')), None)
    ensures offset + |FieldImage(f.base, es)| <= |buf|
    ensures WriteElems(buf, offset, f, es) == Written(Splice(buf, offset, FieldImage(f.base, es)), None)
  {
    var w := f.typeLength;
    var n := |es| - 1;
    var es' := es[..n];
    var e := es[n];
    MulStep(n, w);
    var img := FieldImage(f.base, es');
    var b' := Splice(buf, offset, img);
    assert |img| == n * w;
    var at := offset + n * w;
    if Is64(f.base) {
      assert forall i :: at <= i < at + w ==> b'[i] == 0;
      SpliceZeros(b', at, w);
    }
    SpliceAppend(buf, offset, img, ElemImage(f.base, e));
  }

  /** Writing elements that fit into a zero-filled stretch lays down their image and never throws. */
  lemma {:induction false} WriteElemsImage(buf: seq<byte>, offset: nat, f: Field, es: seq<Value>)
    requires FieldOk(f) && forall i :: 0 <= i < |es| ==> ElemFits(f.base, es[i])
    requires offset + |es| * f.typeLength <= |buf|
    requires forall i :: offset <= i < offset + |es| * f.typeLength ==> buf[i] == 0
    ensures offset + |FieldImage(f.base, es)| <= |buf|
    ensures WriteElems(buf, offset, f, es) == Written(Splice(buf, offset, FieldImage(f.base, es)), None)
    decreases |es|
  {
    if es == [] {
      assert Splice(buf, offset, []) == buf;
    } else {
      var n := |es| - 1;
      MulLe(n, |es|, f.typeLength);
      WriteElemsImage(buf, offset, f, es[..n]);
      WriteElemsImageStep(buf, offset, f, es);
    }
  }

  /** The expected values of a run of elements. */
  function ExpectedElems(t: BaseType, es: seq<Value>): (r: seq<Elem>)
    requires forall i :: 0 <= i < |es| ==> ElemFits(t, es[i])
    ensures |r| == |es|
    decreases |es|
  {
    if es == [] then [] else ExpectedElems(t, es[..|es| - 1]) + [ExpectedElem(t, es[|es| - 1])]
  }

  /** Multiplying by the same width keeps the order. */
  lemma MulLe(x: nat, y: nat, w: nat)
    requires x <= y
    ensures x * w <= y * w
  {
  }

  lemma SliceOfSlice(p: seq<byte>, o: nat, len: nat, a: nat, w: nat, img: seq<byte>, e: seq<byte>)
    requires o + len <= |p| && a + w <= len
    requires p[o..o + len] == img && img[a..a + w] == e
    ensures p[o + a..o + a + w] == e
  {
    var inner := p[o..o + len];
    var x := inner[a..a + w];
    var y := p[o + a..o + a + w];
    forall j | 0 <= j < w
      ensures x[j] == y[j]
    {
      assert inner[a + j] == p[o + a + j];
    }
  }

  /** Where element `i` of a written run sits in a buffer holding the run's image. */
  lemma ElemSlice(p: seq<byte>, offset: nat, t: BaseType, es: seq<Value>, i: nat, w: nat, o: nat)
    requires i < |es| && forall k :: 0 <= k < |es| ==> ElemFits(t, es[k])
    requires w == Width(t) && o == offset + i * w
    requires offset + |es| * w <= |p|
    requires p[offset..offset + |es| * w] == FieldImage(t, es)
    ensures o + w <= |p|
    ensures p[o..o + w] == ElemImage(t, es[i])
  {
    MulNat(i, w);
    MulNat(|es|, w);
    var a: nat := i * w;
    var len: nat := |es| * w;
    MulStep(i, w);
    MulLe(i + 1, |es|, w);
    FieldImageElem(t, es, i);
    SliceOfSlice(p, offset, len, a, w, FieldImage(t, es), ElemImage(t, es[i]));
  }

  /** One more element read back from the image continues the expected values. */
  lemma ReadElemsImageStep(p: seq<byte>, offset: nat, f: Field, es: seq<Value>, k: nat)
    requires FieldOk(f) && forall i :: 0 <= i < |es| ==> ElemFits(f.base, es[i])
    requires k < |es|
    requires offset + |es| * f.typeLength <= |p|
    requires p[offset..offset + |es| * f.typeLength] == FieldImage(f.base, es)
    requires ReadElems(p, offset, f, k) == Some(ExpectedElems(f.base, es[..k]))
    ensures ReadElems(p, offset, f, k + 1) == Some(ExpectedElems(f.base, es[..k + 1]))
  {
    MulNat(k, f.typeLength);
    var o: nat := offset + k * f.typeLength;
    ElemSlice(p, offset, f.base, es, k, f.typeLength, o);
    ElemRoundTrip(p, o, f.base, es[k]);
    ReadElemsNext(p, offset, f, k);
    assert es[..k + 1][..k] == es[..k];
  }

  /** Reading the first `n` elements back from their image gives their expected values. */
  lemma {:induction false} ReadElemsImage(p: seq<byte>, offset: nat, f: Field, es: seq<Value>, n: nat)
    requires FieldOk(f) && forall i :: 0 <= i < |es| ==> ElemFits(f.base, es[i])
    requires n <= |es|
    requires offset + |es| * f.typeLength <= |p|
    requires p[offset..offset + |es| * f.typeLength] == FieldImage(f.base, es)
    ensures ReadElems(p, offset, f, n) == Some(ExpectedElems(f.base, es[..n]))
    decreases n
  {
    if n > 0 {
      ReadElemsImage(p, offset, f, es, n - 1);
      ReadElemsImageStep(p, offset, f, es, n - 1);
    } else {
      assert es[..n] == [];
    }
  }

  // ---------------------------------------------------------------------
  // Round trip of a whole payload

  /** A value createMessage writes for field `f` without throwing: at most
      one element per slot of the field (a shorter string or array leaves
      the remaining slots alone), each of which fits the field's type. */
  predicate FieldFits(f: Field, v: Value)
  {
    var es := Elements(f, v);
    |es| <= f.arrayLength && forall i :: 0 <= i < |es| ==> ElemFits(f.base, es[i])
  }

  /** An element whose image is all zeros: what a slot no write reached
      holds in the zero-filled payload. */
  function PadValue(t: BaseType): (v: Value)
    ensures ElemFits(t, v) && ElemImage(t, v) == Zeros(Width(t))
  {
    match t
    case Float => Real(Zeros(4))
    case Double => Real(Zeros(8))
    case Char => LEZero(1); Text(['\0'])
    case Int8 => LEZero(1); Number(0)
    case UInt8 => LEZero(1); Number(0)
    case UInt8MavlinkVersion => LEZero(1); Number(0)
    case Int16 => LEZero(2); Number(0)
    case UInt16 => LEZero(2); Number(0)
    case Int32 => LEZero(4); Number(0)
    case UInt32 => LEZero(4); Number(0)
    case Int64 => Number(0)
    case UInt64 => Number(0)
  }

  lemma {:induction false} LEZero(w: nat)
    ensures LE(0, w) == Zeros(w)
    decreases w
  {
    if w > 0 {
      LEZero(w - 1);
    }
  }

  /** The elements of a fitting value with the slots it leaves unwritten
      filled by zero elements: one per slot of the field. */
  function Padded(f: Field, v: Value): (r: seq<Value>)
    requires FieldFits(f, v)
    ensures |r| == f.arrayLength
    ensures r[..|Elements(f, v)|] == Elements(f, v)
    ensures forall i :: |Elements(f, v)| <= i < |r| ==> r[i] == PadValue(f.base)
    ensures AllElemsFit(f.base, r)
  {
    var es := Elements(f, v);
    PadsFit(f.base, es, f.arrayLength - |es|);
    es + Pads(f.base, f.arrayLength - |es|)
  }

  /** `k` zero elements. */
  function Pads(t: BaseType, k: nat): (r: seq<Value>)
    ensures |r| == k && forall i :: 0 <= i < k ==> r[i] == PadValue(t)
  {
    seq(k, _ => PadValue(t))
  }

  /** Every element of `es` fits type `t`. */
  predicate AllElemsFit(t: BaseType, es: seq<Value>)
  {
    forall i :: 0 <= i < |es| ==> ElemFits(t, es[i])
  }

  /** Zero elements fit, so a fitting run stays fitting when padded. */
  lemma PadsFit(t: BaseType, es: seq<Value>, k: nat)
    requires AllElemsFit(t, es)
    ensures AllElemsFit(t, es + Pads(t, k))
  {
    var padded := es + Pads(t, k);
    forall i | 0 <= i < |padded| ensures ElemFits(t, padded[i]) {
      if i >= |es| {
        assert padded[i] == PadValue(t);
      }
    }
  }

  /** The image of a run followed by `k` zero elements is the run's image
      followed by zeros. */
  lemma {:induction false} FieldImagePadded(t: BaseType, es: seq<Value>, k: nat)
    requires AllElemsFit(t, es)
    ensures AllElemsFit(t, es + Pads(t, k))
    ensures FieldImage(t, es + Pads(t, k)) == FieldImage(t, es) + Zeros(k * Width(t))
    decreases k
  {
    if k == 0 {
      assert es + Pads(t, k) == es;
    } else {
      FieldImagePadded(t, es, k - 1);
      PadsSnoc(t, es, k);
      FieldImagePadStep(t, es + Pads(t, k - 1), FieldImage(t, es), (k - 1) * Width(t));
      MulStep(k - 1, Width(t));
    }
  }

  /** `k` zero elements are `k - 1` of them and one more. */
  lemma PadsSnoc(t: BaseType, es: seq<Value>, k: nat)
    requires k > 0
    ensures es + Pads(t, k) == (es + Pads(t, k - 1)) + [PadValue(t)]
  {
  }

  /** One more zero element adds `Width(t)` zeros to the image. */
  lemma FieldImagePadStep(t: BaseType, a: seq<Value>, img: seq<byte>, n: nat)
    requires AllElemsFit(t, a) && FieldImage(t, a) == img + Zeros(n)
    ensures AllElemsFit(t, a + [PadValue(t)])
    ensures FieldImage(t, a + [PadValue(t)]) == img + Zeros(n + Width(t))
  {
    FieldImageSnoc(t, a, PadValue(t));
    ZerosAppend(n, Width(t));
  }

  /** The image of one more element is the image so far followed by the element's. */
  lemma FieldImageSnoc(t: BaseType, es: seq<Value>, e: Value)
    requires AllElemsFit(t, es) && ElemFits(t, e)
    ensures AllElemsFit(t, es + [e])
    ensures FieldImage(t, es + [e]) == FieldImage(t, es) + ElemImage(t, e)
  {
    assert (es + [e])[..|es|] == es;
  }

  lemma ZerosAppend(a: nat, b: nat)
    ensures Zeros(a) + Zeros(b) == Zeros(a + b)
  {
  }

  /** Every field has a value in `data`, and every value fits its field. */
  predicate DataFits(fields: seq<Field>, data: map<string, Value>)
  {
    forall i :: 0 <= i < |fields| ==> fields[i].name in data && FieldFits(fields[i], data[fields[i].name])
  }

  lemma FieldImageLength(f: Field, es: seq<Value>)
    requires FieldOk(f) && |es| == f.arrayLength
    ensures |es| * f.typeLength == f.length
  {
  }

  /** The bytes the value `v` of field `f` occupies once written, when it fits. */
  function FieldBytes(f: Field, v: Value): seq<byte>
  {
    if FieldFits(f, v) then FieldImage(f.base, Padded(f, v)) else []
  }

  /** A fitting value occupies its elements' images, and the slots a shorter
      string or array does not reach stay zero. */
  lemma FieldBytesZeroTail(f: Field, v: Value)
    requires FieldFits(f, v)
    ensures FieldBytes(f, v) == FieldImage(f.base, Elements(f, v)) + Zeros((f.arrayLength - |Elements(f, v)|) * Width(f.base))
  {
    FieldImagePadded(f.base, Elements(f, v), f.arrayLength - |Elements(f, v)|);
  }

  /** The payload bytes the fields of `data` occupy, field after field. */
  function PayloadImage(fields: seq<Field>, data: map<string, Value>): seq<byte>
    decreases |fields|
  {
    if fields == [] then []
    else
      var f := fields[|fields| - 1];
      PayloadImage(fields[..|fields| - 1], data) + (if f.name in data then FieldBytes(f, data[f.name]) else [])
  }

  /** What decodeMessage gives back for a field written from `v`. */
  function ExpectedField(f: Field, v: Value): Decoded
    requires FieldOk(f) && FieldFits(f, v)
  {
    Assemble(f, ExpectedElems(f.base, Padded(f, v)))
  }

  /** What decodeMessage gives back for every field whose value in `data`
      fits, a later field of the same name replacing an earlier one. */
  function ExpectedValues(fields: seq<Field>, data: map<string, Value>): map<string, Decoded>
    decreases |fields|
  {
    if fields == [] then map[]
    else
      var f := fields[|fields| - 1];
      var m := ExpectedValues(fields[..|fields| - 1], data);
      if f.name in data && FieldOk(f) && FieldFits(f, data[f.name]) then m[f.name := ExpectedField(f, data[f.name])]
      else m
  }

  /** The fields before the last one still satisfy what all of them do,
      and the last one is well measured and has a fitting value. */
  lemma FitsPrefix(fields: seq<Field>, data: map<string, Value>)
    requires fields != []
    requires forall f | f in fields :: FieldOk(f)
    requires DataFits(fields, data)
    ensures var prefix := fields[..|fields| - 1];
      && (forall g | g in prefix :: FieldOk(g))
      && DataFits(prefix, data)
    ensures var f := fields[|fields| - 1];
      FieldOk(f) && f.name in data && FieldFits(f, data[f.name])
  {
    var prefix := fields[..|fields| - 1];
    assert forall g | g in prefix :: g in fields;
    assert fields[|fields| - 1] in fields;
  }

  /** With one more field, the image grows by that field's image. */
  lemma PayloadImageLast(fields: seq<Field>, data: map<string, Value>)
    requires fields != []
    requires var f := fields[|fields| - 1];
      FieldOk(f) && f.name in data && FieldFits(f, data[f.name])
    ensures var prefix := fields[..|fields| - 1];
      var f := fields[|fields| - 1];
      var img := FieldBytes(f, data[f.name]);
      && |img| == f.length
      && SumLengths(fields) == SumLengths(prefix) + f.length
      && PayloadImage(fields, data) == PayloadImage(prefix, data) + img
  {
    var f := fields[|fields| - 1];
    FieldImageLength(f, Padded(f, data[f.name]));
  }

  /** The image of fitting data is as long as the fields. */
  lemma {:induction false} PayloadImageLength(fields: seq<Field>, data: map<string, Value>)
    requires forall f | f in fields :: FieldOk(f)
    requires DataFits(fields, data)
    ensures |PayloadImage(fields, data)| == SumLengths(fields)
    decreases |fields|
  {
    if fields != [] {
      FitsPrefix(fields, data);
      PayloadImageLength(fields[..|fields| - 1], data);
      PayloadImageLast(fields, data);
    }
  }

  /** No two fields share a name. */
  predicate DistinctNames(fields: seq<Field>)
  {
    forall i, j :: 0 <= i < j < |fields| ==> fields[i].name != fields[j].name
  }

  /** For fitting data, the expected values are keyed by the field names. */
  lemma {:induction false} ExpectedValuesKeys(fields: seq<Field>, data: map<string, Value>)
    requires forall f | f in fields :: FieldOk(f)
    requires DataFits(fields, data)
    ensures ExpectedValues(fields, data).Keys == set f | f in fields :: f.name
    decreases |fields|
  {
    if fields != [] {
      var prefix := fields[..|fields| - 1];
      var f := fields[|fields| - 1];
      FitsPrefix(fields, data);
      ExpectedValuesKeys(prefix, data);
      assert ExpectedValues(fields, data).Keys == ExpectedValues(prefix, data).Keys + {f.name};
      NamesSnoc(fields);
    }
  }

  /** With distinct names, every field's expected value sits under its own name. */
  lemma {:induction false} ExpectedValuesAt(fields: seq<Field>, data: map<string, Value>, i: nat)
    requires forall f | f in fields :: FieldOk(f)
    requires DataFits(fields, data) && DistinctNames(fields) && i < |fields|
    ensures fields[i].name in ExpectedValues(fields, data)
    ensures ExpectedValues(fields, data)[fields[i].name] == ExpectedField(fields[i], data[fields[i].name])
    decreases |fields|
  {
    var n := |fields| - 1;
    var prefix := fields[..n];
    FitsPrefix(fields, data);
    if i < n {
      assert fields[i].name != fields[n].name;
      assert prefix[i] == fields[i];
      ExpectedValuesAt(prefix, data, i);
    }
  }

  /** Writing `img` at the start of a zero-filled tail. */
  lemma SpliceOverZeros(a: seq<byte>, img: seq<byte>, n: nat)
    requires |img| <= n
    ensures Splice(a + Zeros(n), |a|, img) == a + img + Zeros(n - |img|)
  {
    var l := Splice(a + Zeros(n), |a|, img);
    var r := a + img + Zeros(n - |img|);
    forall i | 0 <= i < |l| ensures l[i] == r[i] {
      if i < |a| {
      } else if i < |a| + |img| {
      } else {
        assert r[i] == Zeros(n - |img|)[i - |a| - |img|];
      }
    }
  }

  /** Writing one more field after a prefix whose image is already in place. */
  lemma EncodeFieldsImageStep(fields: seq<Field>, data: map<string, Value>, size: nat)
    requires fields != []
    requires var f := fields[|fields| - 1];
      FieldOk(f) && f.name in data && FieldFits(f, data[f.name])
    requires var prefix := fields[..|fields| - 1];
      && |PayloadImage(prefix, data)| == SumLengths(prefix)
      && SumLengths(fields) <= size
      && EncodeFields(prefix, data, size) == Ok(PayloadImage(prefix, data) + Zeros(size - SumLengths(prefix)))
    ensures |PayloadImage(fields, data)| == SumLengths(fields)
    ensures EncodeFields(fields, data, size) == Ok(PayloadImage(fields, data) + Zeros(size - SumLengths(fields)))
  {
    var prefix := fields[..|fields| - 1];
    var f := fields[|fields| - 1];
    var v := data[f.name];
    var pre := PayloadImage(prefix, data);
    var off := SumLengths(prefix);
    var rest := size - off;
    var buf := pre + Zeros(rest);
    assert EncodeFields(prefix, data, size) == Ok(buf);
    PayloadImageLast(fields, data);
    WriteFieldOverZeros(pre, rest, f, v);
    EncodeFieldsWritten(fields, data, size, buf);
  }

  /** Writing a fitting value into a zero-filled tail lays down the field's
      bytes, a shorter value leaving zeros in the slots it does not reach. */
  lemma WriteFieldOverZeros(pre: seq<byte>, rest: nat, f: Field, v: Value)
    requires FieldOk(f) && FieldFits(f, v) && f.length <= rest
    ensures WriteField(pre + Zeros(rest), |pre|, f, v) == Written(pre + FieldBytes(f, v) + Zeros(rest - f.length), None)
  {
    var es := Elements(f, v);
    var img := FieldImage(f.base, es);
    var pad := (f.arrayLength - |es|) * f.typeLength;
    WriteFieldImage(pre, rest, f, v);
    FieldBytesZeroTail(f, v);
    ZerosAfterImage(pre, img, pad, rest - f.length);
  }

  /** The field write into a zero-filled tail, before the tail is split. */
  lemma WriteFieldImage(pre: seq<byte>, rest: nat, f: Field, v: Value)
    requires FieldOk(f) && FieldFits(f, v) && f.length <= rest
    ensures var es := Elements(f, v);
      && |FieldImage(f.base, es)| <= rest
      && rest - |FieldImage(f.base, es)| == (f.arrayLength - |es|) * f.typeLength + (rest - f.length)
      && WriteField(pre + Zeros(rest), |pre|, f, v)
         == Written(pre + FieldImage(f.base, es) + Zeros(rest - |FieldImage(f.base, es)|), None)
  {
    var es := Elements(f, v);
    PadArith(f.arrayLength, |es|, f.typeLength, rest);
    WriteElemsOverZeros(pre, rest, f, es);
  }

  /** Writing fitting elements into a zero-filled tail lays down their image. */
  lemma WriteElemsOverZeros(pre: seq<byte>, rest: nat, f: Field, es: seq<Value>)
    requires FieldOk(f) && AllElemsFit(f.base, es) && |es| * f.typeLength <= rest
    ensures |FieldImage(f.base, es)| <= rest
    ensures WriteElems(pre + Zeros(rest), |pre|, f, es)
      == Written(pre + FieldImage(f.base, es) + Zeros(rest - |FieldImage(f.base, es)|), None)
  {
    var buf := pre + Zeros(rest);
    assert forall i :: |pre| <= i < |pre| + |es| * f.typeLength ==> buf[i] == 0;
    WriteElemsImage(buf, |pre|, f, es);
    SpliceOverZeros(pre, FieldImage(f.base, es), rest);
  }

  lemma ZerosAfterImage(pre: seq<byte>, img: seq<byte>, pad: nat, tail: nat)
    ensures pre + img + Zeros(pad + tail) == pre + (img + Zeros(pad)) + Zeros(tail)
  {
    ZerosAppend(pad, tail);
  }

  /** The slots a short value fills and the ones it leaves make up the field. */
  lemma PadArith(n: nat, k: nat, w: nat, rest: nat)
    requires k <= n && n * w <= rest
    ensures k * w <= n * w
    ensures rest - k * w == (n - k) * w + (rest - n * w)
  {
    MulLe(k, n, w);
  }

  /** The loop's last field written without error after a successful prefix. */
  lemma EncodeFieldsWritten(fields: seq<Field>, data: map<string, Value>, size: nat, buf: seq<byte>)
    requires fields != []
    requires EncodeFields(fields[..|fields| - 1], data, size) == Ok(buf)
    requires var f := fields[|fields| - 1];
      f.name in data && WriteField(buf, SumLengths(fields[..|fields| - 1]), f, data[f.name]).err.None?
    ensures var f := fields[|fields| - 1];
      EncodeFields(fields, data, size) == Ok(WriteField(buf, SumLengths(fields[..|fields| - 1]), f, data[f.name]).buf)
  {
  }

  /** Field `f` is well measured and `data` holds a value for it that fits. */
  predicate FitsIn(f: Field, data: map<string, Value>)
  {
    FieldOk(f) && f.name in data && FieldFits(f, data[f.name])
  }

  /** Every field fits, stated field after field. */
  predicate AllFit(fields: seq<Field>, data: map<string, Value>)
    decreases |fields|
  {
    fields == [] || (AllFit(fields[..|fields| - 1], data) && FitsIn(fields[|fields| - 1], data))
  }

  lemma {:induction false} AllFitFromData(fields: seq<Field>, data: map<string, Value>)
    requires forall f | f in fields :: FieldOk(f)
    requires DataFits(fields, data)
    ensures AllFit(fields, data)
    decreases |fields|
  {
    if fields != [] {
      FitsPrefix(fields, data);
      AllFitFromData(fields[..|fields| - 1], data);
    }
  }

  /** createMessage's payload loop lays down the image of every field and
      leaves the rest of the buffer zero, when every value fits. */
  lemma {:induction false} EncodeFieldsImage(fields: seq<Field>, data: map<string, Value>, size: nat)
    requires AllFit(fields, data) && SumLengths(fields) <= size
    ensures |PayloadImage(fields, data)| == SumLengths(fields)
    ensures EncodeFields(fields, data, size) == Ok(PayloadImage(fields, data) + Zeros(size - SumLengths(fields)))
    decreases |fields|
  {
    if fields == [] {
      assert [] + Zeros(size) == Zeros(size);
    } else {
      EncodeFieldsImage(fields[..|fields| - 1], data, size);
      EncodeFieldsImageStep(fields, data, size);
    }
  }

  /** The last field of a payload that starts with the image decodes to its expected value. */
  lemma DecodeLastField(fields: seq<Field>, data: map<string, Value>, p: seq<byte>)
    requires fields != []
    requires var f := fields[|fields| - 1];
      FieldOk(f) && f.name in data && FieldFits(f, data[f.name])
    requires var prefix := fields[..|fields| - 1];
      && |PayloadImage(prefix, data)| == SumLengths(prefix)
      && SumLengths(fields) <= |p| && p[..SumLengths(fields)] == PayloadImage(fields, data)
    ensures var f := fields[|fields| - 1];
      DecodeField(p, SumLengths(fields[..|fields| - 1]), f) == Some(ExpectedField(f, data[f.name]))
  {
    var prefix := fields[..|fields| - 1];
    var f := fields[|fields| - 1];
    var v := data[f.name];
    var off := SumLengths(prefix);
    var img := FieldBytes(f, v);
    PayloadImageLast(fields, data);
    TailOfPrefix(p, PayloadImage(prefix, data), img, SumLengths(fields));
    DecodeFieldImage(p, off, f, v);
  }

  /** A payload starting with `pre + img` holds `img` right after `pre`. */
  lemma TailOfPrefix(p: seq<byte>, pre: seq<byte>, img: seq<byte>, n: nat)
    requires n == |pre| + |img| && n <= |p| && p[..n] == pre + img
    ensures p[|pre|..|pre| + |img|] == img
  {
    forall j | 0 <= j < |img| ensures p[|pre| + j] == img[j] {
      assert p[..n][|pre| + j] == (pre + img)[|pre| + j];
    }
  }

  /** Decoding one field from its image gives its expected value. */
  lemma DecodeFieldImage(p: seq<byte>, off: nat, f: Field, v: Value)
    requires FieldOk(f) && FieldFits(f, v)
    requires off + f.length <= |p|
    requires p[off..off + f.length] == FieldBytes(f, v)
    ensures DecodeField(p, off, f) == Some(ExpectedField(f, v))
  {
    var es := Padded(f, v);
    FieldImageLength(f, es);
    ReadElemsImage(p, off, f, es, f.arrayLength);
    assert es[..f.arrayLength] == es;
  }

  /** Decoding one more field from a payload that starts with the image. */
  lemma DecodeImageStep(fields: seq<Field>, data: map<string, Value>, p: seq<byte>)
    requires fields != []
    requires forall f | f in fields :: FieldOk(f)
    requires var f := fields[|fields| - 1];
      FieldOk(f) && f.name in data && FieldFits(f, data[f.name])
    requires var prefix := fields[..|fields| - 1];
      && |PayloadImage(prefix, data)| == SumLengths(prefix)
      && SumLengths(fields) <= |p| && p[..SumLengths(fields)] == PayloadImage(fields, data)
      && (forall g | g in prefix :: FieldOk(g))
      && DecodeFields(prefix, p) == Some(ExpectedValues(prefix, data))
    ensures DecodeFields(fields, p) == Some(ExpectedValues(fields, data))
  {
    var prefix := fields[..|fields| - 1];
    var f := fields[|fields| - 1];
    DecodeLastField(fields, data, p);
    var d := ExpectedField(f, data[f.name]);
    var m := ExpectedValues(prefix, data);
    assert DecodeFields(fields, p) == Some(m[f.name := d]);
  }

  /** decodeMessage's loop reads back the expected value of every field
      from a payload that starts with the fields' image. */
  lemma {:induction false} DecodeImage(fields: seq<Field>, data: map<string, Value>, p: seq<byte>)
    requires forall f | f in fields :: FieldOk(f)
    requires DataFits(fields, data)
    requires SumLengths(fields) <= |p| && p[..SumLengths(fields)] == PayloadImage(fields, data)
    ensures DecodeFields(fields, p) == Some(ExpectedValues(fields, data))
    decreases |fields|
  {
    if fields != [] {
      var prefix := fields[..|fields| - 1];
      FitsPrefix(fields, data);
      PayloadImageLength(prefix, data);
      PayloadImageLast(fields, data);
      var off := SumLengths(prefix);
      assert p[..off] == p[..SumLengths(fields)][..off];
      assert PayloadImage(fields, data)[..off] == PayloadImage(prefix, data);
      DecodeImage(prefix, data, p);
      DecodeImageStep(fields, data, p);
    }
  }

  /** decodeMessage reads back from createMessage's payload what was
      written: for a layout such as orderFields makes (see LayoutFacts)
      and data whose every value fits its field, encoding succeeds and
      decoding gives the expected value of every field. */
  lemma PayloadRoundTrip(layout: Layout, data: map<string, Value>)
    requires Consistent(layout) && DataFits(layout.fields, data)
    ensures EncodePayload(layout, data).Ok?
    ensures DecodeFields(layout.fields, EncodePayload(layout, data).value) == Some(ExpectedValues(layout.fields, data))
  {
    var fs := layout.fields;
    AllFitFromData(fs, data);
    EncodeFieldsImage(fs, data, layout.payloadLength);
    var p := EncodePayload(layout, data).value;
    assert p[..SumLengths(fs)] == PayloadImage(fs, data);
    DecodeImage(fs, data, p);
  }

  // ---------------------------------------------------------------------
  // createMessage's payload loop

  /** One more field of the payload loop: the first failure is kept, else
      the next field is looked up and written after the ones before it. */
  lemma EncodeFieldsNext(fields: seq<Field>, data: map<string, Value>, size: nat, i: nat)
    requires i < |fields|
    ensures EncodeFields(fields[..i + 1], data, size)
      == match EncodeFields(fields[..i], data, size)
         case Err(e) => Err(e)
         case Ok(buf) =>
           if fields[i].name !in data then Err(MissingField(fields[i].name))
           else
             var w := WriteField(buf, SumLengths(fields[..i]), fields[i], data[fields[i].name]);
             if w.err.Some? then Err(WriteFailed(fields[i].name, w.err.value)) else Ok(w.buf)
  {
    assert fields[..i + 1][..i] == fields[..i];
  }

  /** Once a field has failed, the whole loop fails with that field's error. */
  lemma {:induction false} EncodeFieldsStopped(fields: seq<Field>, data: map<string, Value>, size: nat, k: nat)
    requires k <= |fields|
    requires EncodeFields(fields[..k], data, size).Err?
    ensures EncodeFields(fields, data, size) == EncodeFields(fields[..k], data, size)
    decreases |fields| - k
  {
    if k < |fields| {
      EncodeFieldsNext(fields, data, size, k);
      EncodeFieldsStopped(fields, data, size, k + 1);
    } else {
      assert fields[..k] == fields;
    }
  }

  /** createMessage's payload: a zero-filled buffer of the payload length,
      and every field in wire order written with bufferField at the sum of
      the lengths before it; a missing field or a write that throws ends it. */
  method EncodeInto(layout: Layout, data: map<string, Value>) returns (r: Result<seq<byte>, EncodeError>)
    ensures r == EncodePayload(layout, data)
  {
    var fields := layout.fields;
    var payloadBuf := new byte[layout.payloadLength](_ => 0);
    assert payloadBuf[..] == Zeros(layout.payloadLength);
    var offset := 0;
    var i := 0;
    while i < |fields|
      invariant 0 <= i <= |fields|
      invariant offset == SumLengths(fields[..i])
      invariant EncodeFields(fields[..i], data, layout.payloadLength) == Ok(payloadBuf[..])
    {
      var f := fields[i];
      EncodeFieldsNext(fields, data, layout.payloadLength, i);
      if f.name !in data {
        EncodeFieldsStopped(fields, data, layout.payloadLength, i + 1);
        return Err(MissingField(f.name));
      }
      var err := BufferField(payloadBuf, offset, f, data[f.name]);
      if err.Some? {
        EncodeFieldsStopped(fields, data, layout.payloadLength, i + 1);
        return Err(WriteFailed(f.name, err.value));
      }
      SumLengthsSnoc(fields, i);
      offset := offset + f.length;
      i := i + 1;
    }
    assert fields[..i] == fields;
    r := Ok(payloadBuf[..]);
  }
}
