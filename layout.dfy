/** The field layout engine: splitting type tokens, type widths, the
    per-field lengths, the stable widest-first ordering of a message's
    fields, and the CRC-extra seed derived from the ordered fields. */
module Layout {
  import opened Wrappers
  import opened Bytes
  import opened Checksum

  /** A field as the schema lists it: its name and its type token, such as `char[16]`. */
  datatype RawField = RawField(name: string, typeToken: string)

  /** A message as the schema lists it, fields in declaration order. */
  datatype MessageDef = MessageDef(id: nat, name: string, fields: seq<RawField>)

  // ---------------------------------------------------------------------
  // Splitting a type token:  token.replace("[", " ").replace("]", " ").split(" ")

  /** `s.replace(a, b)` with a one-character string pattern: only the first occurrence is replaced. */
  function ReplaceFirst(s: string, a: char, b: char): (r: string)
    ensures |r| == |s|
    ensures a !in s ==> r == s
    decreases |s|
  {
    if s == [] then []
    else if s[0] == a then [b] + s[1..]
    else [s[0]] + ReplaceFirst(s[1..], a, b)
  }

  /** `s.split(sep)`: the pieces between separators, empty pieces included. */
  function Split(s: string, sep: char): (r: seq<string>)
    ensures |r| >= 1
    decreases |s|
  {
    if s == [] then [""]
    else if s[0] == sep then [""] + Split(s[1..], sep)
    else
      var rest := Split(s[1..], sep);
      [[s[0]] + rest[0]] + rest[1..]
  }

  /** `parts.join(sep)`, the inverse of Split. */
  function Join(parts: seq<string>, sep: char): string
    requires |parts| >= 1
    decreases |parts|
  {
    if |parts| == 1 then parts[0] else parts[0] + [sep] + Join(parts[1..], sep)
  }

  /** Split cuts at every separator and nowhere else: joining the pieces
      back gives the string, and no piece contains the separator. */
  lemma {:induction false} SplitJoin(s: string, sep: char)
    ensures Join(Split(s, sep), sep) == s
    ensures forall k :: 0 <= k < |Split(s, sep)| ==> sep !in Split(s, sep)[k]
    decreases |s|
  {
    if s != [] {
      var rest := Split(s[1..], sep);
      SplitJoin(s[1..], sep);
      if s[0] == sep {
        assert Split(s, sep) == [""] + rest;
        assert (([""] + rest)[1..]) == rest;
      } else {
        var r := Split(s, sep);
        assert r == [[s[0]] + rest[0]] + rest[1..];
        if |rest| == 1 {
          assert Join(r, sep) == [s[0]] + rest[0];
        } else {
          assert r[1..] == rest[1..];
          assert Join(rest, sep) == rest[0] + [sep] + Join(rest[1..], sep);
        }
        forall k | 0 <= k < |r| ensures sep !in r[k] {
          if k > 0 {
            assert r[k] == rest[k];
          }
        }
      }
    }
  }

  /** The pieces of a type token: base type name first, then the array size if any. */
  function TypeParts(token: string): (r: seq<string>)
    ensures |r| >= 1
  {
    Split(ReplaceFirst(ReplaceFirst(token, '[', ' '), ']', ' '), ' ')
  }

  /** A base type name: no brackets, no spaces. */
  predicate Plain(s: string)
  {
    '[' !in s && ']' !in s && ' ' !in s
  }

  lemma {:induction false} SplitPlain(s: string)
    requires ' ' !in s
    ensures Split(s, ' ') == [s]
    decreases |s|
  {
    if s != [] {
      assert ' ' !in s[1..] by {
        forall c | c in s[1..] ensures c != ' ' {
          assert c in s;
        }
      }
      SplitPlain(s[1..]);
      assert s[0] != ' ';
      assert [s[0]] + s[1..] == s;
    }
  }

  /** A token without brackets is one piece: a scalar field. */
  lemma TypePartsOfScalar(base: string)
    requires Plain(base)
    ensures TypeParts(base) == [base]
  {
    SplitPlain(base);
  }

  lemma {:induction false} ReplaceFirstAfter(a: string, x: char, b: string, y: char)
    requires x !in a && x != y
    ensures ReplaceFirst(a + [x] + b, x, y) == a + [y] + b
    decreases |a|
  {
    if a != [] {
      assert (a + [x] + b)[1..] == a[1..] + [x] + b;
      ReplaceFirstAfter(a[1..], x, b, y);
    }
  }

  lemma {:induction false} SplitAtSep(a: string, b: string)
    requires ' ' !in a
    ensures Split(a + [' '] + b, ' ') == [a] + Split(b, ' ')
    decreases |a|
  {
    if a == [] {
      assert a + [' '] + b == [' '] + b;
      assert ([' '] + b)[1..] == b;
    } else {
      var s := a + [' '] + b;
      assert s[0] == a[0] && a[0] != ' ';
      assert s[1..] == a[1..] + [' '] + b;
      assert ' ' !in a[1..] by {
        forall c | c in a[1..] ensures c != ' ' {
          assert c in a;
        }
      }
      SplitAtSep(a[1..], b);
      var rest := Split(s[1..], ' ');
      assert rest == [a[1..]] + Split(b, ' ');
      assert Split(s, ' ') == [[a[0]] + rest[0]] + rest[1..];
      assert [a[0]] + a[1..] == a;
      assert rest[1..] == Split(b, ' ');
    }
  }

  /** `base[size]` splits into the base name, the size, and a trailing empty piece. */
  lemma TypePartsOfArray(base: string, size: string)
    requires Plain(base) && Plain(size)
    ensures TypeParts(base + "[" + size + "]") == [base, size, ""]
  {
    var token := base + "[" + size + "]";
    assert token == base + ['['] + (size + "]");
    ReplaceFirstAfter(base, '[', size + "]", ' ');
    var t1 := base + [' '] + (size + "]");
    assert ReplaceFirst(token, '[', ' ') == t1;
    var a1 := base + [' '] + size;
    assert ']' !in a1;
    assert t1 == a1 + [']'] + [];
    ReplaceFirstAfter(a1, ']', [], ' ');
    var t2 := a1 + [' '] + [];
    assert ReplaceFirst(t1, ']', ' ') == t2;
    assert t2 == base + [' '] + (size + [' '] + []);
    SplitAtSep(base, size + [' '] + []);
    SplitAtSep(size, []);
    assert Split([], ' ') == [""];
    assert TypeParts(token) == Split(t2, ' ');
  }

  // ---------------------------------------------------------------------
  // Type widths (fieldTypeLength) and the two aliases orderFields rewrites

  datatype BaseType =
    | Float | Double | Char | Int8 | UInt8 | UInt8MavlinkVersion
    | Int16 | UInt16 | Int32 | UInt32 | Int64 | UInt64

  /** The keys of fieldTypeLength's table. */
  function BaseTypeNamed(name: string): Option<BaseType>
  {
    match name
    case "float" => Some(Float)
    case "double" => Some(Double)
    case "char" => Some(Char)
    case "int8_t" => Some(Int8)
    case "uint8_t" => Some(UInt8)
    case "uint8_t_mavlink_version" => Some(UInt8MavlinkVersion)
    case "int16_t" => Some(Int16)
    case "uint16_t" => Some(UInt16)
    case "int32_t" => Some(Int32)
    case "uint32_t" => Some(UInt32)
    case "int64_t" => Some(Int64)
    case "uint64_t" => Some(UInt64)
    case _ => None
  }

  /** The values of fieldTypeLength's table: the byte width of one element. */
  function Width(t: BaseType): nat
  {
    match t
    case Float => 4
    case Double => 8
    case Char => 1
    case Int8 => 1
    case UInt8 => 1
    case UInt8MavlinkVersion => 1
    case Int16 => 2
    case UInt16 => 2
    case Int32 => 4
    case UInt32 => 4
    case Int64 => 8
    case UInt64 => 8
  }

  /** The two whole-token rewrites orderFields applies before measuring a field. */
  function Normalize(token: string): string
  {
    if token == "uint8_t_mavlink_version" then "uint8_t"
    else if token == "array" then "int8_t"
    else token
  }

  predicate IsDigits(s: string)
  {
    |s| > 0 && forall k :: 0 <= k < |s| ==> '0' <= s[k] <= '9'
  }

  /** The value of a decimal numeral. */
  function DigitsValue(s: string): nat
    requires IsDigits(s)
    decreases |s|
  {
    var d := (s[|s| - 1] as int) - ('0' as int);
    if |s| == 1 then d else 10 * DigitsValue(s[..|s| - 1]) + d
  }

  /** The product fieldLength multiplies in: every non-empty piece after the
      base name, read as a decimal number; None when one is not a numeral. */
  function Arity(parts: seq<string>): Option<nat>
    decreases |parts|
  {
    if |parts| <= 1 then Some(1)
    else
      var last := parts[|parts| - 1];
      match Arity(parts[..|parts| - 1])
      case None => None
      case Some(a) =>
        if last == "" then Some(a)
        else if IsDigits(last) then Some(a * DigitsValue(last))
        else None
  }

  // ---------------------------------------------------------------------
  // Annotated fields

  /** A field after orderFields' annotation pass. */
  datatype Field = Field(
    name: string,
    typeToken: string,   // the token after Normalize
    base: BaseType,
    typeLength: nat,     // width of one element
    length: nat,         // width of the whole field
    arrayLength: nat,    // number of elements
    initialPos: nat)     // declaration index

  /** The source's test `fieldSplit.length > 1`: the token carries brackets. */
  predicate IsArray(f: Field)
  {
    |TypeParts(f.typeToken)| > 1
  }

  /** What every annotated field satisfies. */
  predicate FieldOk(f: Field)
  {
    && TypeParts(f.typeToken)[0] != ""
    && BaseTypeNamed(TypeParts(f.typeToken)[0]) == Some(f.base)
    && f.typeLength == Width(f.base)
    && f.length == f.typeLength * f.arrayLength
    && (!IsArray(f) ==> f.arrayLength == 1)
  }

  /** Dividing the field length by the element width gives back the element count. */
  lemma ExactDivision(t: BaseType, arity: nat)
    ensures Width(t) > 0 && (Width(t) * arity) / Width(t) == arity
  {
    var w := Width(t);
    assert w == 1 || w == 2 || w == 4 || w == 8;
  }

  /** fieldTypeLength and fieldLength of a (normalised) token: the element
      width, the whole length and length / width elements. None when the
      base type is not in the table or a size is not a numeral. */
  function Measure(pos: nat, name: string, token: string): (r: Option<Field>)
    ensures r.Some? ==> FieldOk(r.value) && r.value.initialPos == pos && r.value.name == name
    ensures r.Some? ==> r.value.typeToken == token
  {
    var parts := TypeParts(token);
    match (BaseTypeNamed(parts[0]), Arity(parts))
    case (Some(base), Some(arity)) =>
      var typeLength := Width(base);
      var length := typeLength * arity;
      ExactDivision(base, arity);
      assert parts[0] != "";
      assert |parts| <= 1 ==> arity == 1;
      Some(Field(name, token, base, typeLength, length, length / typeLength, pos))
    case _ => None
  }

  /** The annotation pass of orderFields on field number `pos`: rewrite the
      aliases, then measure. */
  function Annotate(pos: nat, raw: RawField): (r: Option<Field>)
    ensures r.Some? ==> FieldOk(r.value) && r.value.initialPos == pos && r.value.name == raw.name
    ensures r.Some? ==> r.value.typeToken == Normalize(raw.typeToken)
  {
    Measure(pos, raw.name, Normalize(raw.typeToken))
  }

  /** Every field of the message can be annotated. */
  predicate WellFormed(raws: seq<RawField>)
  {
    forall i :: 0 <= i < |raws| ==> Annotate(i, raws[i]).Some?
  }

  /** The fields after the annotation pass, still in declaration order. */
  function Annotated(raws: seq<RawField>): (r: seq<Field>)
    requires WellFormed(raws)
    ensures |r| == |raws|
    ensures forall i :: 0 <= i < |r| ==> r[i] == Annotate(i, raws[i]).value
  {
    seq(|raws|, i requires 0 <= i < |raws| => Annotate(i, raws[i]).value)
  }

  /** The sum of the field lengths: the payload length. */
  function SumLengths(fs: seq<Field>): nat
    decreases |fs|
  {
    if fs == [] then 0 else SumLengths(fs[..|fs| - 1]) + fs[|fs| - 1].length
  }

  // ---------------------------------------------------------------------
  // Ordering: descending typeLength, ties by ascending initialPos

  /** The sort comparator of orderFields, as "a goes strictly before b". */
  predicate Before(a: Field, b: Field)
  {
    a.typeLength > b.typeLength || (a.typeLength == b.typeLength && a.initialPos < b.initialPos)
  }

  /** Sorted by the comparator: widest type first, declaration order among equals. */
  predicate KeyOrdered(fs: seq<Field>)
  {
    forall i, j :: 0 <= i < j < |fs| ==> Before(fs[i], fs[j])
  }

  /** No two fields share a declaration index. */
  predicate DistinctPositions(fs: seq<Field>)
  {
    forall i, j :: 0 <= i < j < |fs| ==> fs[i].initialPos != fs[j].initialPos
  }

  /** Fields with different declaration indices are always comparable. */
  lemma BeforeTotal(a: Field, b: Field)
    requires a.initialPos != b.initialPos
    ensures Before(a, b) || Before(b, a)
  {
  }

  lemma BeforeTransitive(a: Field, b: Field, c: Field)
    requires Before(a, b) && Before(b, c)
    ensures Before(a, c)
  {
  }

  /** Insert `f` into an ordered sequence in front of the first field it goes before. */
  function Insert(sorted: seq<Field>, f: Field): (r: seq<Field>)
    requires KeyOrdered(sorted)
    requires forall g | g in sorted :: g.initialPos != f.initialPos
    ensures multiset(r) == multiset(sorted) + multiset{f}
    ensures KeyOrdered(r)
    decreases |sorted|
  {
    if sorted == [] then [f]
    else if Before(sorted[0], f) then
      var tail := Insert(sorted[1..], f);
      assert sorted == [sorted[0]] + sorted[1..];
      InsertHeadOrdered(sorted, f, tail);
      [sorted[0]] + tail
    else
      assert sorted == [sorted[0]] + sorted[1..];
      InsertFrontOrdered(sorted, f);
      [f] + sorted
  }

  lemma InsertHeadOrdered(sorted: seq<Field>, f: Field, tail: seq<Field>)
    requires sorted != [] && KeyOrdered(sorted) && Before(sorted[0], f)
    requires KeyOrdered(tail) && multiset(tail) == multiset(sorted[1..]) + multiset{f}
    ensures KeyOrdered([sorted[0]] + tail)
  {
    var r := [sorted[0]] + tail;
    forall i, j | 0 <= i < j < |r| ensures Before(r[i], r[j]) {
      if i == 0 {
        var g := r[j];
        assert g == tail[j - 1];
        assert g in multiset(tail);
        if g != f {
          assert g in multiset(sorted[1..]);
          var k :| 0 <= k < |sorted[1..]| && sorted[1..][k] == g;
          assert sorted[k + 1] == g;
        }
      } else {
        assert r[i] == tail[i - 1] && r[j] == tail[j - 1];
      }
    }
  }

  lemma InsertFrontOrdered(sorted: seq<Field>, f: Field)
    requires sorted != [] && KeyOrdered(sorted) && !Before(sorted[0], f)
    requires forall g | g in sorted :: g.initialPos != f.initialPos
    ensures KeyOrdered([f] + sorted)
  {
    var r := [f] + sorted;
    assert sorted[0] in sorted;
    BeforeTotal(sorted[0], f);
    forall i, j | 0 <= i < j < |r| ensures Before(r[i], r[j]) {
      if i == 0 {
        if j > 1 {
          BeforeTransitive(f, sorted[0], sorted[j - 1]);
        }
      } else {
        assert r[i] == sorted[i - 1] && r[j] == sorted[j - 1];
      }
    }
  }

  lemma WellFormedSnoc(raws: seq<RawField>, i: nat)
    requires i < |raws| && WellFormed(raws[..i]) && Annotate(i, raws[i]).Some?
    ensures WellFormed(raws[..i + 1])
  {
    var p := raws[..i + 1];
    forall j | 0 <= j < i + 1 ensures Annotate(j, p[j]).Some? {
      if j < i {
        assert p[j] == raws[..i][j];
      }
    }
  }

  lemma AnnotatedSnoc(raws: seq<RawField>, i: nat)
    requires i < |raws| && WellFormed(raws[..i]) && Annotate(i, raws[i]).Some?
    ensures WellFormed(raws[..i + 1])
    ensures Annotated(raws[..i + 1]) == Annotated(raws[..i]) + [Annotate(i, raws[i]).value]
  {
    WellFormedSnoc(raws, i);
    var p := raws[..i + 1];
    var x := Annotated(p);
    var y := Annotated(raws[..i]) + [Annotate(i, raws[i]).value];
    forall j | 0 <= j < |x| ensures x[j] == y[j] {
      if j < i {
        assert p[j] == raws[..i][j];
      }
    }
  }

  /** Array.prototype.sort with the comparator, on fields whose declaration
      indices differ: the comparator is then a strict total order, and the
      result is the sequence inserted one field at a time. */
  function SortFields(fs: seq<Field>): (r: seq<Field>)
    requires DistinctPositions(fs)
    ensures multiset(r) == multiset(fs)
    ensures KeyOrdered(r)
    decreases |fs|
  {
    if fs == [] then []
    else
      var init := fs[..|fs| - 1];
      var last := fs[|fs| - 1];
      assert fs == init + [last];
      var s := SortFields(init);
      forall g | g in s ensures g.initialPos != last.initialPos {
        assert g in multiset(init);
        var j :| 0 <= j < |init| && init[j] == g;
      }
      Insert(s, last)
  }

  /** The annotated fields carry their declaration indices, so these differ. */
  lemma AnnotatedPositions(raws: seq<RawField>)
    requires WellFormed(raws)
    ensures DistinctPositions(Annotated(raws))
  {
  }

  /** The result of orderFields: fields in wire order, and the payload length. */
  datatype Layout = Layout(fields: seq<Field>, payloadLength: nat)

  /** `layout` is what orderFields makes of `raws`: a permutation of the
      annotated fields, in comparator order, with the summed payload length. */
  predicate IsLayoutOf(layout: Layout, raws: seq<RawField>)
  {
    && WellFormed(raws)
    && multiset(layout.fields) == multiset(Annotated(raws))
    && KeyOrdered(layout.fields)
    && layout.payloadLength == SumLengths(Annotated(raws))
  }

  /** orderFields: annotate every field while summing the payload length,
      then sort the annotated fields with the comparator into a new sequence.
      None when some field's type token cannot be measured. */
  method OrderFields(raws: seq<RawField>) returns (r: Option<Layout>)
    ensures r.Some? <==> WellFormed(raws)
    ensures r.Some? ==> IsLayoutOf(r.value, raws)
  {
    var annotated: seq<Field> := [];
    var payloadLength := 0;
    var i := 0;
    while i < |raws|
      invariant 0 <= i <= |raws|
      invariant WellFormed(raws[..i])
      invariant annotated == Annotated(raws[..i])
      invariant payloadLength == SumLengths(annotated)
    {
      var f := Annotate(i, raws[i]);
      if f.None? {
        assert raws[..i + 1][i] == raws[i];
        return None;
      }
      AnnotatedSnoc(raws, i);
      assert (annotated + [f.value])[..|annotated|] == annotated;
      annotated := annotated + [f.value];
      payloadLength := payloadLength + f.value.length;
      i := i + 1;
    }
    assert raws[..i] == raws;

    AnnotatedPositions(raws);
    var sorted := SortFields(annotated);
    r := Some(Layout(sorted, payloadLength));
  }

  // ---------------------------------------------------------------------
  // What a layout satisfies

  /** Before is asymmetric, so an ordered permutation is unique: whatever
      algorithm Array.prototype.sort runs, the comparator fixes the result. */
  lemma {:induction false} OrderedPermutationUnique(a: seq<Field>, b: seq<Field>)
    requires KeyOrdered(a) && KeyOrdered(b) && multiset(a) == multiset(b)
    ensures a == b
    decreases |a|
  {
    assert |a| == |multiset(a)| == |multiset(b)| == |b|;
    if a != [] {
      OrderedHeadsAgree(a, b);
      OrderedTails(a, b);
      OrderedPermutationUnique(a[1..], b[1..]);
      assert a == [a[0]] + a[1..] && b == [b[0]] + b[1..];
    }
  }

  /** Two ordered permutations of each other start with the same field. */
  lemma OrderedHeadsAgree(a: seq<Field>, b: seq<Field>)
    requires KeyOrdered(a) && KeyOrdered(b) && multiset(a) == multiset(b)
    requires a != [] && b != []
    ensures a[0] == b[0]
  {
    assert a[0] in multiset(b);
    var k :| 0 <= k < |b| && b[k] == a[0];
    assert b[0] in multiset(a);
    var m :| 0 <= m < |a| && a[m] == b[0];
    assert k == 0 || m == 0;
  }

  /** Dropping the same first field from two ordered permutations leaves
      ordered permutations. */
  lemma OrderedTails(a: seq<Field>, b: seq<Field>)
    requires KeyOrdered(a) && KeyOrdered(b) && multiset(a) == multiset(b)
    requires a != [] && b != [] && a[0] == b[0]
    ensures KeyOrdered(a[1..]) && KeyOrdered(b[1..]) && multiset(a[1..]) == multiset(b[1..])
  {
    assert a == [a[0]] + a[1..] && b == [b[0]] + b[1..];
    calc {
      multiset(a[1..]);
      multiset(a) - multiset{a[0]};
      multiset(b) - multiset{b[0]};
      multiset(b[1..]);
    }
    forall i, j | 0 <= i < j < |a[1..]| ensures Before(a[1..][i], a[1..][j]) {
      assert a[1..][i] == a[i + 1] && a[1..][j] == a[j + 1];
    }
    forall i, j | 0 <= i < j < |b[1..]| ensures Before(b[1..][i], b[1..][j]) {
      assert b[1..][i] == b[i + 1] && b[1..][j] == b[j + 1];
    }
  }

  lemma {:induction false} SumLengthsAppend(a: seq<Field>, b: seq<Field>)
    ensures SumLengths(a + b) == SumLengths(a) + SumLengths(b)
    decreases |b|
  {
    if b == [] {
      assert a + b == a;
    } else {
      var b' := b[..|b| - 1];
      assert (a + b)[..|a + b| - 1] == a + b';
      SumLengthsAppend(a, b');
    }
  }

  /** Taking out the element at `k` takes one copy of it out of the multiset. */
  lemma MultisetRemove<T>(b: seq<T>, k: nat)
    requires k < |b|
    ensures multiset(b[..k] + b[k + 1..]) == multiset(b) - multiset{b[k]}
  {
    assert b == b[..k] + [b[k]] + b[k + 1..];
  }

  /** The sum of the lengths, with the field at `k` taken out and added separately. */
  lemma SumLengthsRemove(b: seq<Field>, k: nat)
    requires k < |b|
    ensures SumLengths(b) == SumLengths(b[..k] + b[k + 1..]) + b[k].length
  {
    assert b == b[..k] + [b[k]] + b[k + 1..];
    SumLengthsAppend(b[..k] + [b[k]], b[k + 1..]);
    SumLengthsAppend(b[..k], [b[k]]);
    SumLengthsAppend(b[..k], b[k + 1..]);
    assert [b[k]][..0] == [];
  }

  /** The payload length does not depend on the order of the fields. */
  lemma {:induction false} SumLengthsPermutation(a: seq<Field>, b: seq<Field>)
    requires multiset(a) == multiset(b)
    ensures SumLengths(a) == SumLengths(b)
    decreases |a|
  {
    assert |a| == |multiset(a)| == |multiset(b)| == |b|;
    if a != [] {
      var x := a[|a| - 1];
      var a' := a[..|a| - 1];
      assert a == a' + [x];
      assert x in multiset(b);
      var k :| 0 <= k < |b| && b[k] == x;
      MultisetRemove(a, |a| - 1);
      MultisetRemove(b, k);
      assert a[..|a| - 1] + a[|a|..] == a';
      SumLengthsPermutation(a', b[..k] + b[k + 1..]);
      SumLengthsRemove(b, k);
    }
  }

  /** A layout whose fields are all well measured and whose payload length
      is the sum of their lengths. */
  predicate Consistent(layout: Layout)
  {
    && (forall f | f in layout.fields :: FieldOk(f))
    && layout.payloadLength == SumLengths(layout.fields)
  }

  /** Every field of a layout is an annotated field of the message, the
      length identity holds for each, and the payload length is the sum of
      the field lengths in wire order too. */
  lemma LayoutFacts(layout: Layout, raws: seq<RawField>)
    requires IsLayoutOf(layout, raws)
    ensures |layout.fields| == |raws|
    ensures forall f | f in layout.fields :: FieldOk(f) && f.length == f.typeLength * f.arrayLength
    ensures forall f | f in layout.fields :: exists i :: 0 <= i < |raws| && f == Annotate(i, raws[i]).value
    ensures layout.payloadLength == SumLengths(layout.fields)
    ensures Consistent(layout)
  {
    var ann := Annotated(raws);
    assert |layout.fields| == |multiset(layout.fields)| == |multiset(ann)| == |raws|;
    forall f | f in layout.fields
      ensures FieldOk(f) && exists i :: 0 <= i < |raws| && f == Annotate(i, raws[i]).value
    {
      assert f in multiset(ann);
      var i :| 0 <= i < |ann| && ann[i] == f;
    }
    SumLengthsPermutation(layout.fields, ann);
  }

  /** A token that is a plain base type name measures as one element of that type. */
  lemma MeasureScalar(pos: nat, name: string, token: string, t: BaseType)
    requires Plain(token) && BaseTypeNamed(token) == Some(t)
    ensures Measure(pos, name, token) == Some(Field(name, token, t, Width(t), Width(t), 1, pos))
  {
    TypePartsOfScalar(token);
    assert Arity([token]) == Some(1);
    ExactDivision(t, 1);
  }

  lemma AnnotateScalar(pos: nat, name: string, token: string, t: BaseType)
    requires Plain(token) && BaseTypeNamed(token) == Some(t)
    requires Normalize(token) == token
    ensures Annotate(pos, RawField(name, token)) == Some(Field(name, token, t, Width(t), Width(t), 1, pos))
  {
    MeasureScalar(pos, name, token, t);
  }

  /** The first alias: a whole token `uint8_t_mavlink_version` is measured as `uint8_t`. */
  lemma VersionAliasNormalised(pos: nat, name: string)
    ensures Annotate(pos, RawField(name, "uint8_t_mavlink_version"))
         == Some(Field(name, "uint8_t", UInt8, 1, 1, 1, pos))
  {
    NamedUInt8();
    assert Normalize("uint8_t_mavlink_version") == "uint8_t";
    MeasureScalar(pos, name, "uint8_t", UInt8);
  }

  lemma NamedUInt8()
    ensures Plain("uint8_t") && BaseTypeNamed("uint8_t") == Some(UInt8)
  {
  }

  lemma NamedInt8()
    ensures Plain("int8_t") && BaseTypeNamed("int8_t") == Some(Int8)
  {
  }

  /** The second alias: a whole token `array` is measured as `int8_t`. */
  lemma ArrayAliasNormalised(pos: nat, name: string)
    ensures Annotate(pos, RawField(name, "array"))
         == Some(Field(name, "int8_t", Int8, 1, 1, 1, pos))
  {
    NamedInt8();
    assert Normalize("array") == "int8_t";
    MeasureScalar(pos, name, "int8_t", Int8);
  }

  /** Normalize rewrites only two bracket-free tokens. */
  lemma NormalizeBracketed(token: string)
    requires '[' in token
    ensures Normalize(token) == token
  {
    assert '[' !in "uint8_t_mavlink_version" && '[' !in "array";
  }

  /** A numeral has no brackets and no spaces. */
  lemma DigitsPlain(s: string)
    requires IsDigits(s)
    ensures Plain(s)
  {
    forall k | 0 <= k < |s| ensures s[k] != '[' && s[k] != ']' && s[k] != ' ' {
      assert '0' <= s[k] <= '9';
    }
  }

  /** The pieces `[base, size, ""]` multiply out to the size. */
  lemma ArityOfArray(base: string, size: string)
    requires IsDigits(size)
    ensures Arity([base, size, ""]) == Some(DigitsValue(size))
  {
    var parts := [base, size, ""];
    assert parts[..2] == [base, size];
    assert [base, size][..1] == [base];
    assert Arity([base]) == Some(1);
    assert Arity([base, size]) == Some(DigitsValue(size));
  }

  /** Measuring a token whose pieces are `[base, size, ""]`. */
  lemma MeasureArray(pos: nat, name: string, token: string, base: string, size: string, t: BaseType)
    requires TypeParts(token) == [base, size, ""]
    requires BaseTypeNamed(base) == Some(t) && IsDigits(size)
    ensures Measure(pos, name, token)
      == Some(Field(name, token, t, Width(t), Width(t) * DigitsValue(size), DigitsValue(size), pos))
  {
    ArityOfArray(base, size);
    ExactDivision(t, DigitsValue(size));
  }

  /** A token `base[size]` with a known base type is an array field of
      `size` elements, each as wide as the table says. */
  lemma AnnotateArray(pos: nat, name: string, base: string, size: string, t: BaseType)
    requires Plain(base) && BaseTypeNamed(base) == Some(t) && IsDigits(size)
    ensures var token := base + "[" + size + "]";
      && TypeParts(token) == [base, size, ""]
      && Annotate(pos, RawField(name, token))
         == Some(Field(name, token, t, Width(t), Width(t) * DigitsValue(size), DigitsValue(size), pos))
  {
    DigitsPlain(size);
    var token := base + "[" + size + "]";
    assert token[|base|] == '[';
    NormalizeBracketed(token);
    TypePartsOfArray(base, size);
    MeasureArray(pos, name, token, base, size, t);
  }

  /** The byte offset of field `k` in the payload: the lengths of the fields before it. */
  function Offset(fs: seq<Field>, k: nat): nat
    requires k <= |fs|
  {
    SumLengths(fs[..k])
  }

  /** The four fields of the layout example, in declaration order, and their annotation. */
  function ExampleRaws(t1: string, t4: string, t2: string): seq<RawField>
  {
    [RawField("z", t1), RawField("a", t1), RawField("b", t4), RawField("c", t2)]
  }

  lemma ExampleAnnotated(t1: string, t4: string, t2: string, b1: BaseType, b4: BaseType, b2: BaseType)
    requires Plain(t1) && BaseTypeNamed(t1) == Some(b1) && Normalize(t1) == t1 && Width(b1) == 1
    requires Plain(t4) && BaseTypeNamed(t4) == Some(b4) && Normalize(t4) == t4 && Width(b4) == 4
    requires Plain(t2) && BaseTypeNamed(t2) == Some(b2) && Normalize(t2) == t2 && Width(b2) == 2
    ensures WellFormed(ExampleRaws(t1, t4, t2))
    ensures Annotated(ExampleRaws(t1, t4, t2)) == [
      Field("z", t1, b1, 1, 1, 1, 0), Field("a", t1, b1, 1, 1, 1, 1),
      Field("b", t4, b4, 4, 4, 1, 2), Field("c", t2, b2, 2, 2, 1, 3)]
  {
    AnnotateScalar(0, "z", t1, b1);
    AnnotateScalar(1, "a", t1, b1);
    AnnotateScalar(2, "b", t4, b4);
    AnnotateScalar(3, "c", t2, b2);
  }

  /** A message declared `[t1 z, t1 a, t4 b, t2 c]`, where `t1`, `t4` and `t2`
      are plain type names of widths 1, 4 and 2 (say `uint8_t`, `uint32_t`,
      `uint16_t`), goes on the wire as `[b, c, z, a]` at offsets 0, 4, 6, 7
      with an 8-byte payload: widest first, and `z` stays before `a`. */
  lemma LayoutExample(layout: Layout, t1: string, t4: string, t2: string, b1: BaseType, b4: BaseType, b2: BaseType)
    requires Plain(t1) && BaseTypeNamed(t1) == Some(b1) && Normalize(t1) == t1 && Width(b1) == 1
    requires Plain(t4) && BaseTypeNamed(t4) == Some(b4) && Normalize(t4) == t4 && Width(b4) == 4
    requires Plain(t2) && BaseTypeNamed(t2) == Some(b2) && Normalize(t2) == t2 && Width(b2) == 2
    requires IsLayoutOf(layout, ExampleRaws(t1, t4, t2))
    ensures layout.fields == [
      Field("b", t4, b4, 4, 4, 1, 2), Field("c", t2, b2, 2, 2, 1, 3),
      Field("z", t1, b1, 1, 1, 1, 0), Field("a", t1, b1, 1, 1, 1, 1)]
    ensures layout.payloadLength == 8
    ensures Offset(layout.fields, 0) == 0 && Offset(layout.fields, 1) == 4
    ensures Offset(layout.fields, 2) == 6 && Offset(layout.fields, 3) == 7
  {
    ExampleAnnotated(t1, t4, t2, b1, b4, b2);
    var z := Field("z", t1, b1, 1, 1, 1, 0);
    var a := Field("a", t1, b1, 1, 1, 1, 1);
    var b := Field("b", t4, b4, 4, 4, 1, 2);
    var c := Field("c", t2, b2, 2, 2, 1, 3);
    OrderExample(layout.fields, z, a, b, c);
    LayoutFacts(layout, ExampleRaws(t1, t4, t2));
    FourOffsets(layout.fields);
  }

  /** Four fields of widths 1, 1, 4, 2 declared in that order sort as third, fourth, first, second. */
  lemma OrderExample(fs: seq<Field>, z: Field, a: Field, b: Field, c: Field)
    requires z.typeLength == 1 && a.typeLength == 1 && b.typeLength == 4 && c.typeLength == 2
    requires z.initialPos == 0 && a.initialPos == 1 && b.initialPos == 2 && c.initialPos == 3
    requires KeyOrdered(fs) && multiset(fs) == multiset([z, a, b, c])
    ensures fs == [b, c, z, a]
  {
    var expected := [b, c, z, a];
    assert multiset(expected) == multiset([z, a, b, c]);
    assert KeyOrdered(expected);
    OrderedPermutationUnique(fs, expected);
  }

  /** Offsets and total of four fields in a row. */
  lemma FourOffsets(fs: seq<Field>)
    requires |fs| == 4
    ensures Offset(fs, 1) == fs[0].length
    ensures Offset(fs, 2) == fs[0].length + fs[1].length
    ensures Offset(fs, 3) == fs[0].length + fs[1].length + fs[2].length
    ensures SumLengths(fs) == fs[0].length + fs[1].length + fs[2].length + fs[3].length
  {
    assert fs[..4] == fs;
    assert fs[..3][..2] == fs[..2];
    assert fs[..2][..1] == fs[..1];
    assert fs[..1][..0] == [];
    assert SumLengths(fs[..1]) == SumLengths(fs[..1][..0]) + fs[0].length;
  }

  // ---------------------------------------------------------------------
  // The derived CRC-extra seed (calculateMessageChecksum)

  /** `Number(s)` for the size piece, reduced by String.fromCharCode:
      a numeral's value, and 0 for the empty string or anything else (NaN). */
  function NumberOf(s: string): nat
  {
    if IsDigits(s) then DigitsValue(s) else 0
  }

  /** The part of the seed string one field contributes: its base type name,
      a space, its name, a space and, for an array, the character whose code
      is the size, all as UTF-8 bytes. */
  function FieldSeedBytes(f: Field): seq<byte>
  {
    var parts := TypeParts(f.typeToken);
    Utf8(parts[0]) + [0x20] + Utf8(f.name) + [0x20]
      + (if |parts| > 1 then CodeUnitUtf8(NumberOf(parts[1])) else [])
  }

  function FieldsSeedBytes(fs: seq<Field>): seq<byte>
    decreases |fs|
  {
    if fs == [] then [] else FieldsSeedBytes(fs[..|fs| - 1]) + FieldSeedBytes(fs[|fs| - 1])
  }

  /** The bytes of `new Buffer(checksumString)`: the message name, a space,
      then every field's part in wire order. */
  function SeedBytes(name: string, fs: seq<Field>): seq<byte>
  {
    Utf8(name) + [0x20] + FieldsSeedBytes(fs)
  }

  /** calculateMessageChecksum: the checksum of the seed string, folded to a byte. */
  function DerivedSeed(name: string, fs: seq<Field>): bv8
  {
    FoldToByte(Crc(SeedBytes(name, fs)))
  }

  /** An array field's part ends with the UTF-8 bytes of its size as a
      character code: the one byte `n` below 128, two bytes from 128 to 2047. */
  lemma ArraySeedSuffix(pos: nat, name: string, base: string, size: string, t: BaseType)
    requires Plain(base) && BaseTypeNamed(base) == Some(t) && IsDigits(size)
    ensures var f := Annotate(pos, RawField(name, base + "[" + size + "]"));
      var n := DigitsValue(size);
      && f.Some?
      && FieldSeedBytes(f.value) == Utf8(base) + [0x20] + Utf8(name) + [0x20] + CodeUnitUtf8(n)
      && (n < 0x80 ==> CodeUnitUtf8(n) == [n])
      && (0x80 <= n < 0x800 ==> |CodeUnitUtf8(n)| == 2)
  {
    AnnotateArray(pos, name, base, size, t);
    CodeUnitUtf8Width(DigitsValue(size));
  }
}
