/** Reading a whole constant: everything in it folded, innermost first, means no more than
what was written, and reading it again changes nothing. */
module ConstantReading {
  import opened Wrappers
  import opened Layout
  import opened Powers
  import opened ConstantValues
  import opened ConstantMeaning
  import opened ConstantFolding
  import opened FoldingAggregates
  import opened FoldingArithmetic
  import opened FoldingCasts
  import opened FoldingWalks

  /** No walk in the constant is lost where it is read. */
  predicate KeepsLanes(c: Constant)
    decreases c
  {
    match c
    case Aggregate(_, elements) => forall i :: 0 <= i < |elements| ==> KeepsLanes(elements[i])
    case Splat(_, element) => KeepsLanes(element)
    case Expression(op, args, ty) =>
      && (op.Gep? && |args| > 0 ==> !IsLost(op, ReadEach(args), ty))
      && forall i :: 0 <= i < |args| ==> KeepsLanes(args[i])
    case _ => true
  }

  ghost predicate ReadsTyped(e: Target, c: Constant) {
    Read(c).ty == c.ty && WellTyped(e, Read(c))
  }

  ghost predicate ReadsWell(e: Target, c: Constant) {
    Read(c).ty == c.ty && WellTyped(e, Read(c)) && Refines(e, Read(c), c)
  }

  // ------------------------------------------------------------------- keeping types

  lemma ReadEachTyped(e: Target, cs: seq<Constant>)
    requires forall i :: 0 <= i < |cs| ==> ReadsTyped(e, cs[i])
    ensures Types(ReadEach(cs)) == Types(cs)
    ensures forall i :: 0 <= i < |cs| ==> WellTyped(e, ReadEach(cs)[i]) && ReadEach(cs)[i].ty == cs[i].ty
  {
    forall i | 0 <= i < |cs| ensures ReadEach(cs)[i].ty == cs[i].ty && WellTyped(e, ReadEach(cs)[i]) {
      assert ReadsTyped(e, cs[i]);
    }
    assert Types(ReadEach(cs)) == Types(cs);
  }

  lemma AggregateReadsTyped(e: Target, ty: Type, elements: seq<Constant>)
    requires WellTyped(e, Aggregate(ty, elements)) && forall i :: 0 <= i < |elements| ==> ReadsTyped(e, elements[i])
    ensures ReadsTyped(e, Aggregate(ty, elements))
  {
    var read := ReadEach(elements);
    ReadEachTyped(e, elements);
    assert WellTyped(e, Aggregate(ty, read));
    if ty.Struct? {
      StructFoldKeepsMeaning(e, ty, read);
    } else {
      AggregateFoldKeepsMeaning(e, ty, read);
    }
  }

  lemma ExpressionFoldTyped(e: Target, op: Operation, args: seq<Constant>, ty: Type)
    requires Written(e, op, args, ty) && (op.Gep? ==> !IsLost(op, args, ty))
    ensures FoldExpression(op, args, ty).ty == ty && WellTyped(e, FoldExpression(op, args, ty))
  {
    match op
    case Binary(_, _, _) => BinaryFoldRefines(e, op, args, ty);
    case Gep(_, _, _) => WalkFoldRefines(e, op, args, ty);
    case Cast(cast) =>
      assert args == [args[0]];
      if FoldedCast(cast, args[0], ty).Some? {
        CastFoldTyped(e, cast, args[0], ty);
      }
    case _ =>
  }

  lemma ExpressionReadsTyped(e: Target, op: Operation, args: seq<Constant>, ty: Type)
    requires WellTyped(e, Expression(op, args, ty)) && (op.Gep? ==> !IsLost(op, ReadEach(args), ty))
    requires forall i :: 0 <= i < |args| ==> ReadsTyped(e, args[i])
    ensures ReadsTyped(e, Expression(op, args, ty))
  {
    ReadEachTyped(e, args);
    ExpressionFoldTyped(e, op, ReadEach(args), ty);
  }

  /** Reading keeps a constant's type, on any target. */
  lemma {:induction false} ReadingKeepsType(e: Target, c: Constant)
    requires WellTyped(e, c) && KeepsLanes(c)
    ensures ReadsTyped(e, c)
    decreases c
  {
    match c
    case Aggregate(ty, elements) =>
      forall i | 0 <= i < |elements| ensures ReadsTyped(e, elements[i]) {
        ReadingKeepsType(e, elements[i]);
      }
      AggregateReadsTyped(e, ty, elements);
    case Splat(ty, element) =>
      ReadingKeepsType(e, element);
      SplatFoldRefines(e, ty, Read(element));
    case Expression(op, args, ty) =>
      forall i | 0 <= i < |args| ensures ReadsTyped(e, args[i]) {
        ReadingKeepsType(e, args[i]);
      }
      ExpressionReadsTyped(e, op, args, ty);
    case _ =>
  }

  /** The constant, and every part of it, is read as something of its own type. */
  ghost predicate KeepsTypes(c: Constant)
    decreases c
  {
    && Read(c).ty == c.ty
    && match c {
      case Aggregate(_, elements) => forall i :: 0 <= i < |elements| ==> KeepsTypes(elements[i])
      case Splat(_, element) => KeepsTypes(element)
      case Expression(_, args, _) => forall i :: 0 <= i < |args| ==> KeepsTypes(args[i])
      case _ => true
    }
  }

  /** Types are kept throughout exactly when no walk is lost. */
  lemma {:induction false} TypesAreKeptExactly(e: Target, c: Constant)
    requires WellTyped(e, c)
    ensures KeepsTypes(c) <==> KeepsLanes(c)
    decreases c
  {
    if KeepsLanes(c) {
      ReadingKeepsType(e, c);
    }
    match c
    case Aggregate(_, elements) =>
      forall i | 0 <= i < |elements| ensures KeepsTypes(elements[i]) <==> KeepsLanes(elements[i]) {
        TypesAreKeptExactly(e, elements[i]);
      }
    case Splat(_, element) => TypesAreKeptExactly(e, element);
    case Expression(op, args, ty) =>
      forall i | 0 <= i < |args| ensures KeepsTypes(args[i]) <==> KeepsLanes(args[i]) {
        TypesAreKeptExactly(e, args[i]);
      }
      if op.Gep? && forall i :: 0 <= i < |args| ==> KeepsLanes(args[i]) {
        forall i | 0 <= i < |args| ensures ReadsTyped(e, args[i]) {
          ReadingKeepsType(e, args[i]);
        }
        ReadEachTyped(e, args);
        WalkKeepsTypeExactly(e, op, ReadEach(args), ty);
      }
    case _ =>
  }

  // ------------------------------------------------------------------ keeping meaning

  /** Folding one expression whose operands are folded. */
  lemma ExpressionFoldRefines(e: Target, op: Operation, args: seq<Constant>, ty: Type)
    requires Written(e, op, args, ty) && Pointers64(e) && (op.Gep? ==> !IsLost(op, args, ty))
    ensures Replaces(e, FoldExpression(op, args, ty), op, args, ty)
  {
    match op
    case Binary(_, _, _) => BinaryFoldRefines(e, op, args, ty);
    case Gep(_, _, _) => WalkFoldRefines(e, op, args, ty);
    case Cast(cast) =>
      assert args == [args[0]];
      if FoldedCast(cast, args[0], ty).Some? {
        CastFoldReplaces(e, cast, args[0], ty);
      } else {
        SameRefines(e, Expression(op, args, ty), Expression(op, args, ty));
      }
    case _ => SameRefines(e, Expression(op, args, ty), Expression(op, args, ty));
  }

  lemma ReadEachRefines(e: Target, cs: seq<Constant>)
    requires forall i :: 0 <= i < |cs| ==> ReadsWell(e, cs[i])
    ensures RefinesEach(e, ReadEach(cs), cs) && Types(ReadEach(cs)) == Types(cs)
    ensures forall i :: 0 <= i < |cs| ==> WellTyped(e, ReadEach(cs)[i]) && ReadEach(cs)[i].ty == cs[i].ty
  {
    forall i | 0 <= i < |cs|
      ensures Refines(e, ReadEach(cs)[i], cs[i]) && ReadEach(cs)[i].ty == cs[i].ty && WellTyped(e, ReadEach(cs)[i])
    {
      assert ReadsWell(e, cs[i]);
    }
    assert Types(ReadEach(cs)) == Types(cs);
  }

  lemma AggregateReadsWell(e: Target, ty: Type, elements: seq<Constant>)
    requires WellTyped(e, Aggregate(ty, elements)) && forall i :: 0 <= i < |elements| ==> ReadsWell(e, elements[i])
    ensures ReadsWell(e, Aggregate(ty, elements))
  {
    var c, read := Aggregate(ty, elements), ReadEach(elements);
    ReadEachRefines(e, elements);
    AggregateRefines(e, ty, read, elements);
    assert WellTyped(e, Aggregate(ty, read));
    if ty.Struct? {
      StructFoldKeepsMeaning(e, ty, read);
    } else {
      AggregateFoldKeepsMeaning(e, ty, read);
    }
    SameRefines(e, Read(c), Aggregate(ty, read));
    RefinesTrans(e, Read(c), Aggregate(ty, read), c);
  }

  lemma SplatReadsWell(e: Target, ty: Type, element: Constant)
    requires WellTyped(e, Splat(ty, element)) && ReadsWell(e, element)
    ensures ReadsWell(e, Splat(ty, element))
  {
    var c, read := Splat(ty, element), Read(element);
    SplatRefines(e, ty, read, element);
    SplatFoldRefines(e, ty, read);
    RefinesTrans(e, Read(c), Splat(ty, read), c);
  }

  lemma ExpressionReadsWell(e: Target, op: Operation, args: seq<Constant>, ty: Type)
    requires WellTyped(e, Expression(op, args, ty)) && KeepsLanes(Expression(op, args, ty)) && Pointers64(e)
    requires forall i :: 0 <= i < |args| ==> ReadsWell(e, args[i])
    ensures ReadsWell(e, Expression(op, args, ty))
  {
    var c, read := Expression(op, args, ty), ReadEach(args);
    ReadEachRefines(e, args);
    ExpressionRefines(e, op, ty, read, args);
    ExpressionFoldRefines(e, op, read, ty);
    RefinesTrans(e, Read(c), Expression(op, read, ty), c);
  }

  /** Reading keeps a constant's type and refines its meaning, lane by lane, on targets with
  pointers of sixty-four bits. */
  lemma {:induction false} ReadingRefines(e: Target, c: Constant)
    requires WellTyped(e, c) && KeepsLanes(c) && Pointers64(e)
    ensures Read(c).ty == c.ty && WellTyped(e, Read(c)) && Refines(e, Read(c), c)
    decreases c
  {
    match c
    case Aggregate(ty, elements) =>
      forall i | 0 <= i < |elements| ensures ReadsWell(e, elements[i]) {
        ReadingRefines(e, elements[i]);
      }
      AggregateReadsWell(e, ty, elements);
    case Splat(ty, element) =>
      ReadingRefines(e, element);
      SplatReadsWell(e, ty, element);
    case Expression(op, args, ty) =>
      forall i | 0 <= i < |args| ensures ReadsWell(e, args[i]) {
        ReadingRefines(e, args[i]);
      }
      ExpressionReadsWell(e, op, args, ty);
    case _ => SameRefines(e, c, c);
  }

  // ------------------------------------------------------- how wide a pointer has to be

  function ThroughMiddle(cast: CastOp, under: CastOp, c: Constant, middle: Type): Constant {
    Expression(Cast(cast), [Expression(Cast(under), [c], middle)], c.ty)
  }

  lemma ThroughNarrow(e: Target, cast: CastOp, under: CastOp, ty: Type, middle: Type, v: Value)
    requires IsScalar(ty) && IsScalar(middle) && Width(e, middle) < Width(e, ty)
    requires !cast.BitCast? && !cast.OtherCast? && !under.BitCast? && !under.OtherCast?
    requires Means(e, ThroughMiddle(cast, under, Undef(ty), middle), v)
    ensures v.Bits? && v.n < Pow2(Width(e, middle))
  {
    var inner := Expression(Cast(under), [Undef(ty)], middle);
    var u := OneOperand(e, cast, inner, ty, v);
    var t := OneOperand(e, under, Undef(ty), middle, u);
    CastLaneOf(e, under, ty, middle, t, 0);
    CastLaneOf(e, cast, middle, ty, u, 0);
    Pow2Grows(Width(e, middle), Width(e, ty));
    ModUnique(u.n, Pow2(Width(e, ty)), 0, u.n);
  }

  lemma OneOperand(e: Target, cast: CastOp, c: Constant, ty: Type, v: Value) returns (u: Value)
    requires Means(e, Expression(Cast(cast), [c], ty), v)
    ensures Means(e, c, u) && v == Apply(e, Cast(cast), ty, [c.ty], [u])
  {
    var vs := Operands(e, Cast(cast), [c], ty, v);
    u := vs[0];
    assert MeansOperand(e, Cast(cast), ty, [c][0], vs[0]);
    assert Types([c]) == [c.ty] && vs == [u];
  }

  /** Dropping a cast and the one under it, between addresses and numbers, is right for every
  operand exactly when the type between them is no narrower: a reader that counts on
  sixty-four bits is wrong about an `i64` on a target with narrower pointers. */
  lemma UndoingIsRightExactly(e: Target, cast: CastOp, under: CastOp, ty: Type, middle: Type)
    requires (cast.IntToPtr? && under.PtrToInt? && ty.Pointer? && middle.Integer?)
          || (cast.PtrToInt? && under.IntToPtr? && ty.Integer? && middle.Pointer?)
    requires Width(e, ty) > 0 && Width(e, middle) > 0
    ensures (forall c :: WellTyped(e, c) && c.ty == ty ==> Refines(e, c, ThroughMiddle(cast, under, c, middle)))
       <==> Width(e, ty) <= Width(e, middle)
  {
    if Width(e, ty) <= Width(e, middle) {
      forall c | WellTyped(e, c) && c.ty == ty ensures Refines(e, c, ThroughMiddle(cast, under, c, middle)) {
        forall v | Means(e, c, v) ensures MeansAbove(e, ThroughMiddle(cast, under, c, middle), v) {
          MeaningIsTyped(e, c, v);
          CastMeans(e, under, c, middle, v);
          CastMeans(e, cast, Expression(Cast(under), [c], middle), ty, Apply(e, Cast(under), middle, [ty], [v]));
          ThereAndBack(e, cast, under, ty, middle, v);
          assert Below(v, v);
        }
      }
    } else {
      var c, v := Undef(ty), Bits(Pow2(Width(e, middle)));
      Pow2Strict(Width(e, middle), Width(e, ty));
      assert WellTyped(e, c) && Means(e, c, v);
      if Refines(e, c, ThroughMiddle(cast, under, c, middle)) {
        ThroughNarrow(e, cast, under, ty, middle, Chosen(e, ThroughMiddle(cast, under, c, middle), v));
      }
    }
  }

  // ------------------------------------------------------------- where reading misreads

  ghost predicate PointersHaveWidth(e: Target) {
    forall space: nat :: e.layout.PointerSpec(space).sizeBits > 0
  }

  /** `ptrtoint (inttoptr undef)` at sixty-four bits. */
  function ThereThroughPointer(space: nat): Constant {
    ThroughMiddle(PtrToInt, IntToPtr, Undef(Integer(64)), Pointer(space))
  }

  /** `inttoptr (ptrtoint undef)` through sixty-four bits. */
  function ThereThroughNumber(space: nat): Constant {
    ThroughMiddle(IntToPtr, PtrToInt, Undef(Pointer(space)), Integer(64))
  }

  lemma ThroughTyped(e: Target, cast: CastOp, under: CastOp, ty: Type, middle: Type)
    requires (cast.IntToPtr? && under.PtrToInt? && ty.Pointer? && middle.Integer?)
          || (cast.PtrToInt? && under.IntToPtr? && ty.Integer? && middle.Pointer?)
    requires Width(e, ty) > 0 && Width(e, middle) > 0
    ensures WellTyped(e, ThroughMiddle(cast, under, Undef(ty), middle))
    ensures KeepsLanes(ThroughMiddle(cast, under, Undef(ty), middle))
  {
    var inner := Expression(Cast(under), [Undef(ty)], middle);
    assert Types([Undef(ty)]) == [ty] && Types([inner]) == [middle];
    assert WellTyped(e, inner);
  }

  /** A value wider than the middle is lost on the way, but undef may still be it. */
  lemma UndefIsMisread(e: Target, cast: CastOp, under: CastOp, ty: Type, middle: Type)
    requires IsScalar(ty) && IsScalar(middle) && Width(e, middle) < Width(e, ty)
    requires !cast.BitCast? && !cast.OtherCast? && !under.BitCast? && !under.OtherCast?
    ensures !Refines(e, Undef(ty), ThroughMiddle(cast, under, Undef(ty), middle))
  {
    var c, v := ThroughMiddle(cast, under, Undef(ty), middle), Bits(Pow2(Width(e, middle)));
    Pow2Strict(Width(e, middle), Width(e, ty));
    assert Means(e, Undef(ty), v);
    if MeansAbove(e, c, v) {
      ThroughNarrow(e, cast, under, ty, middle, Chosen(e, c, v));
    }
  }

  lemma ReadsThrough(cast: CastOp, under: CastOp, ty: Type, middle: Type)
    requires (cast.IntToPtr? && under.PtrToInt? && ty.Pointer? && middle == Integer(64))
          || (cast.PtrToInt? && under.IntToPtr? && ty == Integer(64) && middle.Pointer?)
    ensures Read(ThroughMiddle(cast, under, Undef(ty), middle)) == Undef(ty)
  {
    var c := ThroughMiddle(cast, under, Undef(ty), middle);
    var inner := Expression(Cast(under), [Undef(ty)], middle);
    assert ReadEach([Undef(ty)]) == [Undef(ty)];
    assert FoldedCast(under, Undef(ty), middle).None?;
    assert Read(inner) == inner;
    assert ReadEach([inner]) == [inner];
    assert Undoes(cast, inner, ty);
  }

  /** With pointers narrower than sixty-four bits the reader drops a pair of casts that loses
  bits on the way through an address. */
  lemma NarrowPointersAreMisread(e: Target, space: nat)
    requires 0 < e.layout.PointerSpec(space).sizeBits < 64
    ensures var c := ThereThroughPointer(space);
            && WellTyped(e, c) && KeepsLanes(c)
            && Read(c) == Undef(Integer(64)) && !Refines(e, Read(c), c)
  {
    ThroughTyped(e, PtrToInt, IntToPtr, Integer(64), Pointer(space));
    ReadsThrough(PtrToInt, IntToPtr, Integer(64), Pointer(space));
    UndefIsMisread(e, PtrToInt, IntToPtr, Integer(64), Pointer(space));
  }

  /** With wider ones it drops a pair that loses bits on the way through a number. */
  lemma WidePointersAreMisread(e: Target, space: nat)
    requires e.layout.PointerSpec(space).sizeBits > 64
    ensures var c := ThereThroughNumber(space);
            && WellTyped(e, c) && KeepsLanes(c)
            && Read(c) == Undef(Pointer(space)) && !Refines(e, Read(c), c)
  {
    ThroughTyped(e, IntToPtr, PtrToInt, Pointer(space), Integer(64));
    ReadsThrough(IntToPtr, PtrToInt, Pointer(space), Integer(64));
    UndefIsMisread(e, IntToPtr, PtrToInt, Pointer(space), Integer(64));
  }

  /** Reading is right about every constant whose walks are not lost exactly on the targets
  whose pointers are all of sixty-four bits. */
  lemma ReadingIsRightExactly(e: Target)
    requires PointersHaveWidth(e)
    ensures (forall c :: WellTyped(e, c) && KeepsLanes(c) ==> ReadsWell(e, c)) <==> Pointers64(e)
  {
    if Pointers64(e) {
      forall c | WellTyped(e, c) && KeepsLanes(c) ensures ReadsWell(e, c) {
        ReadingRefines(e, c);
      }
    } else {
      var space: nat :| e.layout.PointerSpec(space).sizeBits != 64;
      if e.layout.PointerSpec(space).sizeBits < 64 {
        NarrowPointersAreMisread(e, space);
        assert !ReadsWell(e, ThereThroughPointer(space));
      } else {
        WidePointersAreMisread(e, space);
        assert !ReadsWell(e, ThereThroughNumber(space));
      }
    }
  }

  /** `getelementptr (i8, ptr @g, <vscale x 2 x i64> zeroinitializer)`. */
  const LostWalk: Constant :=
    Expression(Gep(Integer(8), {}, None),
               [Symbol(Pointer(0), "g"), ZeroInitializer(Vector(Integer(64), 2, true))], Vector(Pointer(0), 2, true))

  /** A walk that is lost: it is well typed, and read as its scalar base. */
  lemma LostWalkIsMisread(e: Target)
    requires e.layout.PointerSpec(0).sizeBits > 0
    ensures WellTyped(e, LostWalk) && !KeepsLanes(LostWalk)
    ensures Read(LostWalk) == Symbol(Pointer(0), "g") && Read(LostWalk).ty != LostWalk.ty
  {
    var args := LostWalk.args;
    assert Types(args) == [Pointer(0), Vector(Integer(64), 2, true)];
    assert ReadEach(args) == args;
    assert args[1..] == [ZeroInitializer(Vector(Integer(64), 2, true))];
    assert WidenIndices(LostWalk.ty, Integer(8), args[1..]) == args[1..];
  }
}
