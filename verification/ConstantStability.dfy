/** What a reader folds a constant into is what it folds that into: a constant read is read
the same again. */
module ConstantStability {
  import opened Wrappers
  import opened Layout
  import opened ConstantValues
  import opened ConstantFolding
  import opened FoldingArithmetic
  import opened FoldingWalks
  import opened ConstantReading

  /** No part of the constant folds any further. */
  ghost predicate Stable(c: Constant)
    decreases c
  {
    match c
    case Aggregate(ty, elements) =>
      && (forall i :: 0 <= i < |elements| ==> Stable(elements[i]))
      && (if ty.Struct? then FoldStruct(ty, elements) else FoldAggregate(ty, elements, ty.Vector?)) == c
    case Splat(ty, element) => Stable(element) && FoldSplat(ty, element) == c
    case Expression(op, args, ty) =>
      && (forall i :: 0 <= i < |args| ==> Stable(args[i]))
      && (RightCount(op, |args|) ==> FoldExpression(op, args, ty) == c)
    case _ => true
  }

  ghost predicate StableEach(cs: seq<Constant>) {
    forall i :: 0 <= i < |cs| ==> Stable(cs[i])
  }

  lemma {:induction false} StableReadsAsItself(c: Constant)
    requires Stable(c)
    ensures Read(c) == c
    decreases c
  {
    match c
    case Aggregate(ty, elements) =>
      forall i | 0 <= i < |elements| ensures Read(elements[i]) == elements[i] {
        StableReadsAsItself(elements[i]);
      }
      assert ReadEach(elements) == elements;
    case Splat(_, element) => StableReadsAsItself(element);
    case Expression(op, args, ty) =>
      forall i | 0 <= i < |args| ensures Read(args[i]) == args[i] {
        StableReadsAsItself(args[i]);
      }
      assert ReadEach(args) == args;
    case _ =>
  }

  lemma AggregateIsStable(ty: Type, elements: seq<Constant>)
    requires StableEach(elements) && !ty.Struct?
    ensures Stable(FoldAggregate(ty, elements, ty.Vector?))
  {
    var c := FoldAggregate(ty, elements, ty.Vector?);
    if c.Splat? {
      assert Stable(elements[0]);
    }
  }

  lemma LanesAreStable(ty: Type, lanes: seq<Option<Constant>>)
    requires ty.Vector? && FoldLanes(ty, lanes).Some?
    requires forall i :: 0 <= i < |lanes| && lanes[i].Some? ==> Stable(lanes[i].value)
    ensures Stable(FoldLanes(ty, lanes).value)
  {
    AggregateIsStable(ty, Values(lanes));
  }

  lemma WrittenLanesAreStable(c: Constant, n: nat)
    requires Stable(c) && CastLanes(c, n).Some?
    ensures StableEach(CastLanes(c, n).value)
  {
  }

  lemma {:induction false} ComputedIsStable(op: BinaryOp, lhs: Constant, rhs: Constant)
    requires ComputedBinary(op, lhs, rhs).Some?
    ensures Stable(ComputedBinary(op, lhs, rhs).value)
    decreases lhs
  {
    if IsFixedVector(lhs.ty) {
      var lanes := ComputedLanes(op, lhs, rhs);
      forall i | 0 <= i < |lanes| && lanes[i].Some? ensures Stable(lanes[i].value) {
        ComputedIsStable(op, if lhs.Aggregate? then lhs.elements[i] else lhs.element, LanesWritten(rhs, lhs.ty.count)[i]);
      }
      LanesAreStable(lhs.ty, lanes);
    }
  }

  lemma {:induction false} EachCastIsStable(cast: CastOp, lanes: seq<Constant>, ty: Type)
    requires ty.Vector? && StableEach(lanes)
    ensures var folded := seq(|lanes|, i requires 0 <= i < |lanes| => FoldedCast(cast, lanes[i], ty.element));
            FoldLanes(ty, folded).Some? ==> Stable(FoldLanes(ty, folded).value)
    decreases ty, 0
  {
    var folded := seq(|lanes|, i requires 0 <= i < |lanes| => FoldedCast(cast, lanes[i], ty.element));
    forall i | 0 <= i < |lanes| && folded[i].Some? ensures Stable(folded[i].value) {
      CastIsStable(cast, lanes[i], ty.element);
    }
    if FoldLanes(ty, folded).Some? {
      LanesAreStable(ty, folded);
    }
  }

  lemma {:induction false} CastIsStable(cast: CastOp, operand: Constant, ty: Type)
    requires Stable(operand) && FoldedCast(cast, operand, ty).Some?
    ensures Stable(FoldedCast(cast, operand, ty).value)
    decreases ty, 1
  {
    if operand.ty != ty && !Undoes(cast, operand, ty) && ty.Vector? {
      if cast.BitCast? && IsFixedVector(ty) && IsFixedVector(operand.ty) {
        if operand.Aggregate? {
          EachCastIsStable(BitCast, operand.elements, ty);
        }
      } else if !cast.BitCast? {
        WrittenLanesAreStable(operand, ty.count);
        EachCastIsStable(cast, CastLanes(operand, ty.count).value, ty);
      }
    }
  }

  // -------------------------------------------------------------------------- walks

  lemma WideningIsStable(ty: Type, c: Constant)
    requires Stable(c)
    ensures Stable(WidenTo(ty, c)) && WidenTo(ty, WidenTo(ty, c)) == WidenTo(ty, c)
  {
    if IsFixedVector(ty) && !c.ty.Vector? {
      AggregateIsStable(Vector(c.ty, ty.count, false), Copies(c, ty.count));
    }
  }

  lemma NarrowingIsStable(e: Target, ty: Type, index: Constant)
    requires Stable(index) && WellTyped(e, index) && IsOperandType(e, ty, index.ty)
    ensures Stable(NarrowStructIndex(index)) && NarrowStructIndex(NarrowStructIndex(index)) == NarrowStructIndex(index)
  {
    if index.Aggregate? && index.elements != [] {
      assert WellTyped(e, index.elements[0]) && index.elements[0].ty == PartType(e, index.ty, 0);
    }
  }

  lemma {:induction false} RestIsStable(e: Target, ty: Type, current: Option<Type>, indices: seq<Constant>)
    requires AreIndices(e, ty, indices) && StableEach(indices)
    ensures var widened := WidenRest(ty, current, indices);
            StableEach(widened) && WidenRest(ty, current, widened) == widened
    decreases |indices|
  {
    if indices != [] {
      var (index, next) := WidenStep(ty, current, indices[0]);
      if current.Some? && current.value.Struct? {
        NarrowingIsStable(e, ty, indices[0]);
      } else {
        WideningIsStable(ty, indices[0]);
      }
      RestIsStable(e, ty, next, indices[1..]);
      var rest := WidenRest(ty, next, indices[1..]);
      assert WidenStep(ty, current, index) == (index, next);
      assert ([index] + rest)[1..] == rest;
    }
  }

  lemma WalkIsStable(e: Target, op: Operation, args: seq<Constant>, ty: Type)
    requires op.Gep? && Written(e, op, args, ty) && StableEach(args)
    ensures Stable(FoldGep(op, args, ty))
  {
    WrittenWalk(e, op, args, ty);
    WideningIsStable(ty, args[0]);
    var indices := WidenIndices(ty, op.source, args[1..]);
    if |args| > 1 {
      WideningIsStable(ty, args[1]);
      RestIsStable(e, ty, Some(op.source), args[1..][1..]);
      var rest := WidenRest(ty, Some(op.source), args[1..][1..]);
      assert indices == [WidenTo(ty, args[1])] + rest && indices[1..] == rest;
      assert StableEach(indices) && WidenIndices(ty, op.source, indices) == indices;
    }
    assert ([args[0]] + indices)[1..] == indices;
  }

  // ----------------------------------------------------------------------- altogether

  lemma ExpressionIsStable(e: Target, op: Operation, args: seq<Constant>, ty: Type)
    requires Written(e, op, args, ty) && StableEach(args)
    ensures Stable(FoldExpression(op, args, ty))
  {
    match op
    case Binary(b, _, _) =>
      if ComputedBinary(b, args[0], args[1]).Some? {
        ComputedIsStable(b, args[0], args[1]);
      }
    case Cast(cast) =>
      if FoldedCast(cast, args[0], ty).Some? {
        CastIsStable(cast, args[0], ty);
      }
    case Gep(_, _, _) => WalkIsStable(e, op, args, ty);
    case _ =>
  }

  lemma SplatIsStable(ty: Type, element: Constant)
    requires Stable(element)
    ensures Stable(FoldSplat(ty, element))
  {
    if ty.Vector? && !IsData(element) {
      if ty.scalable {
        var inserted := [Poisoned(ty), element, Number(Integer(64), 0)];
        assert FoldExpression(InsertElement, inserted, ty) == Expression(InsertElement, inserted, ty);
        assert Stable(Expression(InsertElement, inserted, ty));
      } else {
        AggregateIsStable(ty, Copies(element, ty.count));
      }
    }
  }

  lemma {:induction false} ReadingIsStable(e: Target, c: Constant)
    requires WellTyped(e, c) && KeepsLanes(c)
    ensures Stable(Read(c))
    decreases c
  {
    match c
    case Aggregate(ty, elements) =>
      forall i | 0 <= i < |elements| ensures Stable(ReadEach(elements)[i]) {
        ReadingIsStable(e, elements[i]);
      }
      if !ty.Struct? {
        AggregateIsStable(ty, ReadEach(elements));
      }
    case Splat(ty, element) =>
      ReadingIsStable(e, element);
      SplatIsStable(ty, Read(element));
    case Expression(op, args, ty) =>
      forall i | 0 <= i < |args| ensures Stable(ReadEach(args)[i]) && ReadsTyped(e, args[i]) {
        ReadingIsStable(e, args[i]);
        ReadingKeepsType(e, args[i]);
      }
      ReadEachTyped(e, args);
      ExpressionIsStable(e, op, ReadEach(args), ty);
    case _ =>
  }

  /** Reading is idempotent. */
  lemma ReadingTwiceIsReadingOnce(e: Target, c: Constant)
    requires WellTyped(e, c) && KeepsLanes(c)
    ensures Read(Read(c)) == Read(c)
  {
    ReadingIsStable(e, c);
    StableReadsAsItself(Read(c));
  }
}
