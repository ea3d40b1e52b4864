/** The sizes and alignments a target's tables give types, and the placing of struct fields. */
module Layout {
  import opened Wrappers
  import opened Powers

  // ------------------------------------------------------------------- alignment

  /** A power-of-two alignment, held as its exponent. */
  datatype Align = Align(log2: nat) {
    function Bytes(): nat {
      Pow2(log2)
    }

    function Max(other: Align): Align {
      if log2 < other.log2 then other else this
    }

    /** Adding one less than a power of two and clearing the low bits. */
    function AlignUp(offset: nat): nat {
      var mask := Bytes() - 1;
      (offset + mask) - (offset + mask) % Bytes()
    }
  }

  const One := Align(0)

  function DivCeil(a: nat, b: nat): nat
    requires b > 0
  {
    if a == 0 then 0 else (a - 1) / b + 1
  }

  /** The exponent of the next power of two. */
  function LogUp(bytes: nat): (e: nat)
    ensures bytes <= Pow2(e)
    ensures e > 0 ==> Pow2(e - 1) < bytes
  {
    if bytes <= 1 then 0 else 1 + LogUp((bytes + 1) / 2)
  }

  function FromBytesRoundedUp(bytes: nat): Align {
    Align(LogUp(bytes))
  }

  /** None when the count of bytes is not a power of two. */
  function FromBytes(bytes: nat): Option<Align> {
    if bytes == 0 || Pow2(LogUp(bytes)) != bytes then None else Some(Align(LogUp(bytes)))
  }

  function FromBits(bits: nat): Option<Align> {
    FromBytes(DivCeil(bits, 8))
  }

  /** Aligning up gives the least multiple of the alignment at or above the offset. */
  lemma AlignUpIsLeast(a: Align, offset: nat, other: nat)
    ensures a.AlignUp(offset) % a.Bytes() == 0 && offset <= a.AlignUp(offset) < offset + a.Bytes()
    ensures other % a.Bytes() == 0 && offset <= other ==> a.AlignUp(offset) <= other
  {
    var m := a.Bytes();
    var x := offset + m - 1;
    var q := x / m;
    assert x == q * m + x % m;
    assert a.AlignUp(offset) == q * m;
    MultipleOf(q, m);
    if other % m == 0 && offset <= other && other < q * m {
      var k := other / m;
      assert other == k * m;
      MultipleBelow(k, m, q);
    }
  }

  /** A multiple of an alignment is one of every looser alignment. */
  lemma StricterMultiple(m: Align, a: Align, offset: nat)
    requires a.log2 <= m.log2 && offset % m.Bytes() == 0
    ensures offset % a.Bytes() == 0
  {
    Pow2Add(m.log2 - a.log2, a.log2);
    var q, f := offset / m.Bytes(), Pow2(m.log2 - a.log2);
    assert offset == q * m.Bytes();
    MulAssoc(q, f, a.Bytes());
    MultipleOf(q * f, a.Bytes());
  }

  // --------------------------------------------------------------------- the types

  datatype Type =
    | Integer(bits: nat)
    | Float(width: nat)
    | Pointer(space: nat)
    | Array(element: Type, count: nat)
    | Vector(element: Type, count: nat, scalable: bool)
    | Struct(fields: seq<Type>, packed: bool)
    | Opaque(name: string)
    | X86Amx
    | TargetExtension
    | Unsized(kind: string)

  datatype LayoutError = NotSized(what: string) | IsScalable | IsOpaque(name: string)

  /** One row of the target's tables: a size and the ABI alignment for it, in bits. */
  datatype SizedAlign = SizedAlign(sizeBits: nat, abiBits: nat)

  datatype DataLayout = DataLayout(
    pointers: map<nat, SizedAlign>, integers: seq<SizedAlign>, floats: seq<SizedAlign>, vectors: seq<SizedAlign>,
    aggregateAbiBits: nat)
  {
    function PointerSpec(space: nat): SizedAlign {
      if space in pointers then pointers[space]
      else if 0 in pointers then pointers[0]
      else SizedAlign(64, 64)
    }

    function IntegerAbiBits(bits: nat): nat {
      match SizedLookup(integers, bits) case Some(row) => row.abiBits case None => 8
    }

    function FloatAbiBits(bits: nat): nat {
      match SizedLookup(floats, bits) case Some(row) => row.abiBits case None => bits
    }

    /** A vector with no row of its own gets its size rounded up to a power of two. */
    function VectorAbiBits(bits: nat): nat {
      match Exact(vectors, bits) case Some(row) => row.abiBits case None => Pow2(LogUp(bits))
    }
  }

  function Exact(table: seq<SizedAlign>, bits: nat): Option<SizedAlign> {
    if table == [] then None else if table[0].sizeBits == bits then Some(table[0]) else Exact(table[1..], bits)
  }

  /** The first narrowest of the rows wider than `bits`. */
  function NextWider(table: seq<SizedAlign>, bits: nat): Option<SizedAlign> {
    if table == [] then None
    else
      var rest := NextWider(table[1..], bits);
      if table[0].sizeBits > bits && (rest.None? || table[0].sizeBits <= rest.value.sizeBits) then Some(table[0]) else rest
  }

  /** The last widest row. */
  function Widest(table: seq<SizedAlign>): Option<SizedAlign> {
    if table == [] then None
    else
      var rest := Widest(table[1..]);
      if rest.None? || table[0].sizeBits > rest.value.sizeBits then Some(table[0]) else rest
  }

  function SizedLookup(table: seq<SizedAlign>, bits: nat): Option<SizedAlign> {
    if Exact(table, bits).Some? then Exact(table, bits)
    else if NextWider(table, bits).Some? then NextWider(table, bits)
    else Widest(table)
  }

  // ------------------------------------------------------------------ size and alignment

  function SizeInBits(l: DataLayout, t: Type): Result<nat, LayoutError>
    decreases t, 1
  {
    match t
    case Integer(bits) => Ok(bits)
    case Float(width) => Ok(width)
    case Pointer(space) => Ok(l.PointerSpec(space).sizeBits)
    case Array(element, count) => var size :- AllocSizeBytes(l, element); Ok(size * 8 * count)
    case Vector(element, count, scalable) =>
      if scalable then Err(IsScalable)
      else var bits :- SizeInBits(l, element); Ok(bits * count)
    case Struct(fields, packed) => var s :- StructLayout(l, t); Ok(s.sizeBytes * 8)
    case Opaque(name) => Err(IsOpaque(name))
    case X86Amx => Ok(8192)
    case TargetExtension => Err(NotSized("target extension"))
    case Unsized(kind) => Err(NotSized(kind))
  }

  /** The bytes a type takes when stored: its bits rounded up to bytes, then to its alignment. */
  function AllocSizeBytes(l: DataLayout, t: Type): Result<nat, LayoutError>
    decreases t, 3
  {
    var bits :- SizeInBits(l, t);
    var align :- AbiAlign(l, t);
    Ok(align.AlignUp(DivCeil(bits, 8)))
  }

  function AbiAlign(l: DataLayout, t: Type): Result<Align, LayoutError>
    decreases t, 2
  {
    match t
    case Integer(bits) => Ok(FromBytesRoundedUp(DivCeil(l.IntegerAbiBits(bits), 8)))
    case Float(width) => Ok(FromBytesRoundedUp(DivCeil(l.FloatAbiBits(width), 8)))
    case Pointer(space) => Ok(FromBytesRoundedUp(DivCeil(l.PointerSpec(space).abiBits, 8)))
    case Array(element, _) => AbiAlign(l, element)
    case Vector(element, count, _) =>
      var bits :- SizeInBits(l, element);
      Ok(FromBytesRoundedUp(DivCeil(l.VectorAbiBits(bits * count), 8)))
    case Struct(fields, packed) => StructAlign(l, t)
    case Opaque(name) => Err(IsOpaque(name))
    case X86Amx => Ok(FromBytesRoundedUp(1024))
    case TargetExtension => Err(NotSized("target extension"))
    case Unsized(_) => Ok(One)
  }

  function AggregateAlign(l: DataLayout): Align {
    match FromBits(l.aggregateAbiBits) case Some(a) => a case None => One
  }

  /** The strictest alignment among the first `n` fields, and at least the aggregate's. */
  function AlignUpTo(l: DataLayout, t: Type, n: nat): Result<Align, LayoutError>
    requires t.Struct? && n <= |t.fields|
    decreases t, 0, n
  {
    if n == 0 then Ok(AggregateAlign(l))
    else
      var before :- AlignUpTo(l, t, n - 1);
      var align :- AbiAlign(l, t.fields[n - 1]);
      Ok(before.Max(align))
  }

  /** A struct's alignment from its fields' alignments alone: no field's size is needed. */
  function StructAlign(l: DataLayout, t: Type): Result<Align, LayoutError>
    requires t.Struct?
    decreases t, 1
  {
    if t.packed then Ok(One) else AlignUpTo(l, t, |t.fields|)
  }

  datatype Placing = Placing(offset: nat, align: Align, offsets: seq<nat>)

  datatype Placed = Placed(sizeBytes: nat, align: Align, offsets: seq<nat>)

  function FieldAlign(l: DataLayout, t: Type, i: nat): Result<Align, LayoutError>
    requires t.Struct? && i < |t.fields|
    decreases t, 0, 0
  {
    if t.packed then Ok(One) else AbiAlign(l, t.fields[i])
  }

  /** The first `n` fields placed one after another. */
  function PlaceUpTo(l: DataLayout, t: Type, n: nat): (r: Result<Placing, LayoutError>)
    requires t.Struct? && n <= |t.fields|
    ensures r.Ok? ==> |r.value.offsets| == n
    decreases t, 0, n + 1
  {
    if n == 0 then Ok(Placing(0, if t.packed then One else AggregateAlign(l), []))
    else
      var p :- PlaceUpTo(l, t, n - 1);
      var align :- FieldAlign(l, t, n - 1);
      var offset := align.AlignUp(p.offset);
      var size :- AllocSizeBytes(l, t.fields[n - 1]);
      Ok(Placing(offset + size, p.align.Max(align), p.offsets + [offset]))
  }

  function StructLayout(l: DataLayout, t: Type): (r: Result<Placed, LayoutError>)
    requires t.Struct?
    ensures r.Ok? ==> |r.value.offsets| == |t.fields|
    decreases t, 0, |t.fields| + 2
  {
    var p :- PlaceUpTo(l, t, |t.fields|);
    Ok(Placed(p.align.AlignUp(p.offset), p.align, p.offsets))
  }

  /** The loop that places fields, widening the alignment as it goes. */
  method LayOutStruct(l: DataLayout, t: Type) returns (r: Result<Placed, LayoutError>)
    requires t.Struct?
    ensures r == StructLayout(l, t)
  {
    var offset := 0;
    var align := if t.packed then One else AggregateAlign(l);
    var offsets: seq<nat> := [];
    for i := 0 to |t.fields|
      invariant PlaceUpTo(l, t, i) == Ok(Placing(offset, align, offsets))
    {
      var fieldAlign := One;
      if !t.packed {
        var asked := AbiAlign(l, t.fields[i]);
        if asked.Err? {
          assert PlaceUpTo(l, t, i + 1).Err?;
          FailureStays(l, t, i + 1, |t.fields|);
          return Err(asked.error);
        }
        fieldAlign := asked.value;
      }
      offset := fieldAlign.AlignUp(offset);
      offsets := offsets + [offset];
      var size := AllocSizeBytes(l, t.fields[i]);
      if size.Err? {
        FailureStays(l, t, i + 1, |t.fields|);
        return Err(size.error);
      }
      offset := offset + size.value;
      align := align.Max(fieldAlign);
    }
    r := Ok(Placed(align.AlignUp(offset), align, offsets));
  }

  lemma {:induction false} FailureStays(l: DataLayout, t: Type, i: nat, n: nat)
    requires t.Struct? && i <= n <= |t.fields| && PlaceUpTo(l, t, i).Err?
    ensures PlaceUpTo(l, t, n) == Err(PlaceUpTo(l, t, i).error)
    decreases n
  {
    if i < n {
      FailureStays(l, t, i, n - 1);
    }
  }

  // ------------------------------------------------------------------- what it gives

  ghost predicate FieldFits(l: DataLayout, t: Type, i: nat, offset: nat, end: nat)
    requires t.Struct? && i < |t.fields|
  {
    && FieldAlign(l, t, i).Ok? && AllocSizeBytes(l, t.fields[i]).Ok?
    && offset % FieldAlign(l, t, i).value.Bytes() == 0
    && offset + AllocSizeBytes(l, t.fields[i]).value <= end
  }

  /** Where field `i` has to end: at the next field, or at the end of them all. */
  function NextAfter(offsets: seq<nat>, end: nat, i: nat): nat
    requires i < |offsets|
  {
    if i + 1 < |offsets| then offsets[i + 1] else end
  }

  /** The first `n` fields aligned, in order, without overlap, before `end`. */
  ghost predicate InOrder(l: DataLayout, t: Type, n: nat, offsets: seq<nat>, end: nat)
    requires t.Struct? && n <= |t.fields|
  {
    && |offsets| == n
    && forall i :: 0 <= i < n ==> FieldFits(l, t, i, offsets[i], NextAfter(offsets, end, i))
  }

  ghost predicate NoneStricter(l: DataLayout, t: Type, n: nat, align: Align)
    requires t.Struct? && n <= |t.fields|
  {
    forall i :: 0 <= i < n ==> FieldAlign(l, t, i).Ok? && FieldAlign(l, t, i).value.log2 <= align.log2
  }

  lemma {:induction false} FieldsInOrder(l: DataLayout, t: Type, n: nat)
    requires t.Struct? && n <= |t.fields| && PlaceUpTo(l, t, n).Ok?
    ensures var p := PlaceUpTo(l, t, n).value;
            && InOrder(l, t, n, p.offsets, p.offset)
            && NoneStricter(l, t, n, p.align)
  {
    if n > 0 {
      FieldsInOrder(l, t, n - 1);
      var before, p := PlaceUpTo(l, t, n - 1).value, PlaceUpTo(l, t, n).value;
      AlignUpIsLeast(FieldAlign(l, t, n - 1).value, before.offset, 0);
      forall i | 0 <= i < n ensures FieldFits(l, t, i, p.offsets[i], NextAfter(p.offsets, p.offset, i)) {
        if i < n - 1 {
          assert FieldFits(l, t, i, before.offsets[i], NextAfter(before.offsets, before.offset, i));
        }
      }
    }
  }

  /** The size is a multiple of every field's alignment, so each stays aligned in an array
  of the struct. */
  ghost predicate DividesSize(l: DataLayout, t: Type, size: nat)
    requires t.Struct?
  {
    forall i :: 0 <= i < |t.fields| ==> FieldAlign(l, t, i).Ok? && size % FieldAlign(l, t, i).value.Bytes() == 0
  }

  /** A struct's layout is one: fields aligned, ordered and disjoint, and the whole a multiple
  of its own alignment and of every field's. */
  lemma LayoutIsSound(l: DataLayout, t: Type)
    requires t.Struct? && StructLayout(l, t).Ok?
    ensures var p := StructLayout(l, t).value;
            && InOrder(l, t, |t.fields|, p.offsets, p.sizeBytes)
            && p.sizeBytes % p.align.Bytes() == 0
            && NoneStricter(l, t, |t.fields|, p.align)
            && DividesSize(l, t, p.sizeBytes)
  {
    FieldsInOrder(l, t, |t.fields|);
    var q, p := PlaceUpTo(l, t, |t.fields|).value, StructLayout(l, t).value;
    AlignUpIsLeast(q.align, q.offset, 0);
    forall i | 0 <= i < |t.fields| ensures FieldFits(l, t, i, p.offsets[i], NextAfter(p.offsets, p.sizeBytes, i)) {
      assert FieldFits(l, t, i, q.offsets[i], NextAfter(q.offsets, q.offset, i));
    }
    forall i | 0 <= i < |t.fields| ensures FieldAlign(l, t, i).Ok? && p.sizeBytes % FieldAlign(l, t, i).value.Bytes() == 0 {
      StricterMultiple(p.align, FieldAlign(l, t, i).value, p.sizeBytes);
    }
  }

  lemma InOrderShorter(l: DataLayout, t: Type, n: nat, offsets: seq<nat>, end: nat)
    requires t.Struct? && 0 < n <= |t.fields| && InOrder(l, t, n, offsets, end)
    ensures InOrder(l, t, n - 1, offsets[..n - 1], offsets[n - 1])
    ensures FieldFits(l, t, n - 1, offsets[n - 1], end)
  {
    var before, here := offsets[..n - 1], offsets[n - 1];
    assert FieldFits(l, t, n - 1, here, NextAfter(offsets, end, n - 1));
    forall i | 0 <= i < n - 1 ensures FieldFits(l, t, i, before[i], NextAfter(before, here, i)) {
      assert FieldFits(l, t, i, offsets[i], NextAfter(offsets, end, i));
    }
  }

  lemma {:induction false} FieldsAreLeast(l: DataLayout, t: Type, n: nat, offsets: seq<nat>, end: nat)
    requires t.Struct? && n <= |t.fields| && PlaceUpTo(l, t, n).Ok? && InOrder(l, t, n, offsets, end)
    ensures var p := PlaceUpTo(l, t, n).value;
            p.offset <= end && forall i :: 0 <= i < n ==> p.offsets[i] <= offsets[i]
    decreases n
  {
    if n > 0 {
      InOrderShorter(l, t, n, offsets, end);
      FieldsAreLeast(l, t, n - 1, offsets[..n - 1], offsets[n - 1]);
      AlignUpIsLeast(FieldAlign(l, t, n - 1).value, PlaceUpTo(l, t, n - 1).value.offset, offsets[n - 1]);
    }
  }

  /** And it is the tightest: no aligned, ordered, disjoint placing has a field lower, or a
  smaller size that is a multiple of the alignment. */
  lemma LayoutIsTightest(l: DataLayout, t: Type, offsets: seq<nat>, size: nat)
    requires t.Struct? && StructLayout(l, t).Ok?
    requires InOrder(l, t, |t.fields|, offsets, size) && size % StructLayout(l, t).value.align.Bytes() == 0
    ensures var p := StructLayout(l, t).value;
            p.sizeBytes <= size && forall i :: 0 <= i < |t.fields| ==> p.offsets[i] <= offsets[i]
  {
    FieldsAreLeast(l, t, |t.fields|, offsets, size);
    var q := PlaceUpTo(l, t, |t.fields|).value;
    AlignUpIsLeast(q.align, q.offset, size);
  }

  lemma {:induction false} AlignsAgree(l: DataLayout, t: Type, n: nat)
    requires t.Struct? && n <= |t.fields| && PlaceUpTo(l, t, n).Ok?
    ensures !t.packed ==> AlignUpTo(l, t, n) == Ok(PlaceUpTo(l, t, n).value.align)
    ensures t.packed ==> PlaceUpTo(l, t, n).value.align == One
  {
    if n > 0 {
      AlignsAgree(l, t, n - 1);
    }
  }

  /** The alignment worked out while placing fields is the one worked out without. */
  lemma AlignmentAgrees(l: DataLayout, t: Type)
    requires t.Struct? && StructLayout(l, t).Ok?
    ensures AbiAlign(l, t) == Ok(StructLayout(l, t).value.align)
  {
    AlignsAgree(l, t, |t.fields|);
  }

  /** What a type occupies is a multiple of its alignment. */
  lemma AllocIsAligned(l: DataLayout, t: Type)
    requires AllocSizeBytes(l, t).Ok?
    ensures AbiAlign(l, t).Ok? && AllocSizeBytes(l, t).value % AbiAlign(l, t).value.Bytes() == 0
  {
    AlignUpIsLeast(AbiAlign(l, t).value, DivCeil(SizeInBits(l, t).value, 8), 0);
  }

  lemma DivCeilExact(n: nat)
    ensures DivCeil(n * 8, 8) == n
  {
  }

  lemma BitsOfMany(size: nat, count: nat)
    ensures size * 8 * count == (count * size) * 8
  {
    assert size * 8 * count == 8 * (size * count);
  }

  lemma ManyStayAligned(align: Align, size: nat, count: nat)
    requires size % align.Bytes() == 0
    ensures align.AlignUp(count * size) == count * size
  {
    var k, m := size / align.Bytes(), align.Bytes();
    assert size == k * m;
    MulAssoc(count, k, m);
    MultipleOf(count * k, m);
    AlignUpIsLeast(align, count * size, count * size);
  }

  lemma RoundedMany(align: Align, size: nat, count: nat)
    requires size % align.Bytes() == 0
    ensures align.AlignUp(DivCeil(size * 8 * count, 8)) == count * size
  {
    BitsOfMany(size, count);
    DivCeilExact(count * size);
    ManyStayAligned(align, size, count);
  }

  lemma ArrayBits(l: DataLayout, element: Type, count: nat)
    ensures AbiAlign(l, Array(element, count)) == AbiAlign(l, element)
    ensures AllocSizeBytes(l, element).Ok? ==>
              SizeInBits(l, Array(element, count)) == Ok(AllocSizeBytes(l, element).value * 8 * count)
    ensures AllocSizeBytes(l, element).Err? ==> SizeInBits(l, Array(element, count)).Err?
  {
  }

  /** An array takes exactly its elements: no padding is added after the last. */
  lemma ArrayIsItsElements(l: DataLayout, element: Type, count: nat)
    ensures AllocSizeBytes(l, Array(element, count)).Ok? <==> AllocSizeBytes(l, element).Ok?
    ensures AllocSizeBytes(l, element).Ok? ==>
              AllocSizeBytes(l, Array(element, count)).value == count * AllocSizeBytes(l, element).value
  {
    ArrayBits(l, element, count);
    if AllocSizeBytes(l, element).Ok? {
      AllocIsAligned(l, element);
      RoundedMany(AbiAlign(l, element).value, AllocSizeBytes(l, element).value, count);
    }
  }

  /** So does a struct: its size needs no further rounding. */
  lemma StructIsItsLayout(l: DataLayout, t: Type)
    requires t.Struct? && StructLayout(l, t).Ok?
    ensures AllocSizeBytes(l, t) == Ok(StructLayout(l, t).value.sizeBytes)
  {
    var p := StructLayout(l, t).value;
    AlignmentAgrees(l, t);
    LayoutIsSound(l, t);
    DivCeilExact(p.sizeBytes);
    AlignUpIsLeast(p.align, p.sizeBytes, p.sizeBytes);
  }

  /** Row `k` is the one for `bits`: the first of that width; without one, the first of the
  narrowest wider rows; and without a wider row, the last of the widest. */
  ghost predicate IsRowFor(table: seq<SizedAlign>, bits: nat, k: nat)
    requires k < |table|
  {
    var size := table[k].sizeBits;
    if size == bits then forall j :: 0 <= j < k ==> table[j].sizeBits != bits
    else if size > bits then
      forall j :: 0 <= j < |table| ==>
        if table[j].sizeBits < size then table[j].sizeBits < bits else table[j].sizeBits == size ==> k <= j
    else forall j :: 0 <= j < |table| ==> table[j].sizeBits <= size && (table[j].sizeBits == size ==> j <= k)
  }

  ghost predicate IsThe(table: seq<SizedAlign>, k: nat, row: Option<SizedAlign>) {
    k < |table| && row == Some(table[k])
  }

  lemma {:induction false} ExactRow(table: seq<SizedAlign>, bits: nat) returns (k: nat)
    ensures Exact(table, bits).None? ==> forall j :: 0 <= j < |table| ==> table[j].sizeBits != bits
    ensures Exact(table, bits).Some? ==> IsThe(table, k, Exact(table, bits)) && table[k].sizeBits == bits
    ensures Exact(table, bits).Some? ==> forall j :: 0 <= j < k ==> table[j].sizeBits != bits
  {
    k := 0;
    if table != [] && table[0].sizeBits != bits {
      var rest := ExactRow(table[1..], bits);
      k := rest + 1;
    }
  }

  lemma {:induction false} NextWiderRow(table: seq<SizedAlign>, bits: nat) returns (k: nat)
    ensures NextWider(table, bits).None? ==> forall j :: 0 <= j < |table| ==> table[j].sizeBits <= bits
    ensures NextWider(table, bits).Some? ==> IsThe(table, k, NextWider(table, bits)) && bits < table[k].sizeBits
    ensures NextWider(table, bits).Some? ==>
              forall j :: 0 <= j < |table| && bits < table[j].sizeBits ==>
                table[k].sizeBits <= table[j].sizeBits && (table[k].sizeBits == table[j].sizeBits ==> k <= j)
  {
    k := 0;
    if table != [] {
      var rest := NextWiderRow(table[1..], bits);
      var later := NextWider(table[1..], bits);
      if later.Some? && (table[0].sizeBits <= bits || later.value.sizeBits < table[0].sizeBits) {
        k := rest + 1;
      }
    }
  }

  lemma {:induction false} WidestRow(table: seq<SizedAlign>) returns (k: nat)
    requires table != []
    ensures IsThe(table, k, Widest(table))
    ensures forall j :: 0 <= j < |table| ==>
              table[j].sizeBits <= table[k].sizeBits && (table[j].sizeBits == table[k].sizeBits ==> j <= k)
  {
    k := 0;
    if |table| > 1 {
      var rest := WidestRow(table[1..]);
      if table[0].sizeBits <= table[1..][rest].sizeBits {
        k := rest + 1;
      }
    }
  }

  /** A lookup gives the row for the width, and there is one unless the table is empty. */
  lemma LookupRule(table: seq<SizedAlign>, bits: nat) returns (k: nat)
    ensures SizedLookup(table, bits).None? <==> table == []
    ensures table != [] ==> IsThe(table, k, SizedLookup(table, bits)) && IsRowFor(table, bits, k)
    ensures forall j: nat :: j < |table| && IsRowFor(table, bits, j) ==> j == k
  {
    k := 0;
    var exact := ExactRow(table, bits);
    var wider := NextWiderRow(table, bits);
    if Exact(table, bits).Some? {
      k := exact;
    } else if NextWider(table, bits).Some? {
      k := wider;
    } else if table != [] {
      k := WidestRow(table);
    }
  }
}
