/** The three arithmetic constant expressions: what a reader works out refines what was
written, promises about overflow included. */
module FoldingArithmetic {
  import opened Wrappers
  import opened Layout
  import opened Powers
  import opened ConstantValues
  import opened ConstantMeaning
  import opened ConstantFolding
  import opened FoldingAggregates

  /** A fold is as good as what it replaces: same type, well typed, and a refinement. */
  ghost predicate Replaces(e: Target, folded: Constant, op: Operation, args: seq<Constant>, ty: Type) {
    folded.ty == ty && WellTyped(e, folded) && Refines(e, folded, Expression(op, args, ty))
  }

  ghost predicate Written(e: Target, op: Operation, args: seq<Constant>, ty: Type) {
    OpTyped(e, op, Types(args), ty) && forall i :: 0 <= i < |args| ==> WellTyped(e, args[i])
  }

  /** Lanes a fold may work on: those a vector is written with, each typed as one. */
  lemma WrittenLanes(e: Target, c: Constant)
    requires WellTyped(e, c) && IsFixedVector(c.ty) && HasLanes(c)
    ensures var lanes := LanesWritten(c, c.ty.count);
            && HasAsLanes(e, c, c.ty.count, lanes)
            && forall k :: 0 <= k < |lanes| ==> WellTyped(e, lanes[k])
  {
    var lanes := LanesWritten(c, c.ty.count);
    forall vs | MeanEach(e, lanes, vs) ensures Means(e, c, Many(vs)) {
      if c.Splat? {
        assert forall k :: 0 <= k < |vs| ==> lanes[k] == c.element;
        assert MeansInEach(e, c.element, c.ty.count, Many(vs));
      }
    }
    if c.Aggregate? {
      forall k | 0 <= k < |lanes| ensures WellTyped(e, lanes[k]) && lanes[k].ty == ScalarOf(c.ty) {
        assert WellTyped(e, c.elements[k]);
      }
    }
  }

  function Values(lanes: seq<Option<Constant>>): (r: seq<Constant>)
    requires AllSome(lanes)
    ensures |r| == |lanes| && forall i :: 0 <= i < |lanes| ==> r[i] == lanes[i].value
  {
    seq(|lanes|, i requires 0 <= i < |lanes| => lanes[i].value)
  }

  /** Folding every lane folds the vector. */
  lemma LanesReplace(
    e: Target, op: Operation, args: seq<Constant>, ty: Type, lanes: seq<seq<Constant>>, folded: seq<Option<Constant>>)
    requires IsLanewise(e, op, ty, Types(args)) && IsFixedVector(ty) && |folded| == ty.count && AllSome(folded)
    requires HaveAsLanes(e, args, ty.count, lanes)
    requires forall i, k :: 0 <= i < |lanes| && 0 <= k < ty.count ==> WellTyped(e, lanes[i][k])
    requires forall k :: 0 <= k < ty.count ==> Replaces(e, folded[k].value, op, At(lanes, k), ty.element)
    ensures FoldLanes(ty, folded).Some? && Replaces(e, FoldLanes(ty, folded).value, op, args, ty)
  {
    var values := Values(folded);
    forall k | 0 <= k < ty.count ensures values[k].ty == ty.element && WellTyped(e, values[k])
        && Refines(e, values[k], Expression(op, At(lanes, k), ScalarOf(ty))) {
      assert Replaces(e, folded[k].value, op, At(lanes, k), ty.element);
    }
    LanesRefine(e, op, args, ty, lanes, values);
    AggregateFoldKeepsMeaning(e, ty, values);
    SameRefines(e, FoldAggregate(ty, values, true), Aggregate(ty, values));
    RefinesTrans(e, FoldAggregate(ty, values, true), Aggregate(ty, values), Expression(op, args, ty));
  }

  /** Refinement of an operation whose operands can each be only one scalar. */
  lemma OnlyResult(e: Target, c: Constant, op: Operation, args: seq<Constant>, ty: Type, vs: seq<Value>)
    requires RightCount(op, |args|) && MeanOperands(e, op, ty, args, vs)
    requires forall v :: Means(e, c, v) ==> Below(v, Apply(e, op, ty, Types(args), vs))
    ensures Refines(e, c, Expression(op, args, ty))
  {
    MeansApplied(e, op, args, ty, vs);
  }

  lemma NumbersReplace(e: Target, op: Operation, lhs: Constant, rhs: Constant, ty: Type)
    requires op.Binary? && Written(e, op, [lhs, rhs], ty) && lhs.Number? && rhs.Number? && !ty.Vector?
    ensures Replaces(e, ComputedNumber(op.op, lhs.ty, lhs.value, rhs.value), op, [lhs, rhs], ty)
  {
    var args := [lhs, rhs];
    assert Types(args)[0] == lhs.ty == ty && Types(args)[1] == rhs.ty && args[0] == lhs && args[1] == rhs;
    var c := ComputedNumber(op.op, ty, lhs.value, rhs.value);
    var vs := [Bits(lhs.value), Bits(rhs.value)];
    forall i | 0 <= i < 2 ensures MeansOperand(e, op, ty, args[i], vs[i]) {}
    assert LanesAt(vs, 0) == vs;
    assert Numbers(vs) == [lhs.value, rhs.value];
    assert Apply(e, op, ty, Types(args), vs) == BinaryLane(op, ty.bits, lhs.value, rhs.value);
    OnlyResult(e, c, op, args, ty, vs);
  }

  lemma {:induction false} ComputedReplaces(e: Target, op: Operation, lhs: Constant, rhs: Constant, ty: Type)
    requires op.Binary? && Written(e, op, [lhs, rhs], ty) && ComputedBinary(op.op, lhs, rhs).Some?
    ensures Replaces(e, ComputedBinary(op.op, lhs, rhs).value, op, [lhs, rhs], ty)
    decreases lhs
  {
    var args := [lhs, rhs];
    assert Types(args)[0] == lhs.ty == ty && Types(args)[1] == rhs.ty && args[0] == lhs && args[1] == rhs;
    if IsFixedVector(ty) {
      WrittenLanes(e, lhs);
      WrittenLanes(e, rhs);
      var left, right := LanesWritten(lhs, ty.count), LanesWritten(rhs, ty.count);
      var folded := ComputedLanes(op.op, lhs, rhs);
      var lanes := [left, right];
      forall k | 0 <= k < ty.count ensures Replaces(e, folded[k].value, op, At(lanes, k), ty.element) {
        assert At(lanes, k) == [left[k], right[k]];
        assert Types([left[k], right[k]]) == [ty.element, ty.element];
        assert folded[k].Some?;
        ComputedReplaces(e, op, left[k], right[k], ty.element);
      }
      LanesReplace(e, op, args, ty, lanes, folded);
    } else {
      NumbersReplace(e, op, lhs, rhs, ty);
    }
  }

  // ------------------------------------------------------------------- identities

  lemma XorIdentity(w: nat, a: nat)
    requires a < Pow2(w)
    ensures NumberOf(seq(w, i requires 0 <= i => BitOf(a, i) != BitOf(0, i))) == a
    ensures NumberOf(seq(w, i requires 0 <= i => BitOf(0, i) != BitOf(a, i))) == a
  {
    forall i: nat ensures BitOf(0, i) == false {
      ConstantBits.UniformBits(0, i);
    }
    assert seq(w, i requires 0 <= i => BitOf(a, i) != BitOf(0, i)) == BitsOf(a, w);
    assert seq(w, i requires 0 <= i => BitOf(0, i) != BitOf(a, i)) == BitsOf(a, w);
    BitsRoundTrip(a, w);
  }

  lemma SignedFits(w: nat, a: nat)
    requires w > 0 && a < Pow2(w)
    ensures Signed(0, w) == 0 && FitsSigned(Signed(a, w), w)
  {
    assert Pow2(w) == 2 * Pow2(w - 1);
  }

  lemma IdentityLane(op: Operation, w: nat, a: nat)
    requires op.Binary? && w > 0 && a < Pow2(w)
    ensures BinaryLane(op, w, a, 0) == Bits(a)
    ensures !op.op.Sub? ==> BinaryLane(op, w, 0, a) == Bits(a)
  {
    if op.op.Xor? {
      XorIdentity(w, a);
    } else {
      SignedFits(w, a);
      ModUnique(a, Pow2(w), 0, a);
    }
  }

  lemma IdentityResult(e: Target, op: Operation, ty: Type, vs: seq<Value>, x: nat, k: nat)
    requires op.Binary? && OpTyped(e, op, [ty, ty], ty) && |vs| == 2 && x < 2
    requires OfType(e, Lane(vs[x], k), ScalarOf(ty)) && Lane(vs[1 - x], k) == Bits(0) && (x == 1 ==> !op.op.Sub?)
    ensures ResultLane(e, op, ty, [ty, ty], vs, k) == Lane(vs[x], k)
  {
    var w := Width(e, ScalarOf(ty));
    var at := LanesAt(vs, k);
    if Lane(vs[x], k).Bits? {
      IdentityLane(op, w, Lane(vs[x], k).n);
      assert AllBits(at) && Numbers(at)[x] == Lane(vs[x], k).n && Numbers(at)[1 - x] == 0;
    } else {
      assert at[x].Poison?;
    }
  }

  /** Operand `x` is the answer when the other is nought. */
  lemma IdentityReplaces(e: Target, op: Operation, args: seq<Constant>, ty: Type, x: nat)
    requires op.Binary? && Written(e, op, args, ty) && x < 2 && (x == 1 ==> !op.op.Sub?) && IsZero(args[1 - x])
    ensures Replaces(e, args[x], op, args, ty)
  {
    assert Types(args) == [args[0].ty, args[1].ty] == [ty, ty];
    var zero := Filled(e, ty, Bits(0));
    ZeroMeans(e, args[1 - x], zero);
    forall v | Means(e, args[x], v) ensures MeansAbove(e, Expression(op, args, ty), v) {
      MeaningIsTyped(e, args[x], v);
      var vs := if x == 0 then [v, zero] else [zero, v];
      forall i | 0 <= i < 2 ensures MeansOperand(e, op, ty, args[i], vs[i]) {}
      MeansApplied(e, op, args, ty, vs);
      forall k | 0 <= k < LaneCount(e, ty) ensures ResultLane(e, op, ty, [ty, ty], vs, k) == Lane(v, k) {
        IdentityResult(e, op, ty, vs, x, k);
      }
      SameLanes(e, ty, v, Apply(e, op, ty, [ty, ty], vs));
      assert Below(v, v);
    }
  }

  lemma SameLanes(e: Target, ty: Type, v: Value, w: Value)
    requires IsLaned(e, ty) && OfType(e, v, ty)
    requires if ty.Vector? then w.Many? && |w.parts| == LaneCount(e, ty) else !w.Many?
    requires forall k :: 0 <= k < LaneCount(e, ty) ==> Lane(w, k) == Lane(v, k)
    ensures v == w
  {
    if ty.Vector? {
      forall k | 0 <= k < |v.parts| ensures v.parts[k] == w.parts[k] {
        assert Lane(w, k) == Lane(v, k);
      }
      assert v.parts == w.parts;
    } else {
      assert Lane(w, 0) == Lane(v, 0);
    }
  }

  /** What the three expressions fold to refines them. */
  lemma BinaryFoldRefines(e: Target, op: Operation, args: seq<Constant>, ty: Type)
    requires op.Binary? && Written(e, op, args, ty)
    ensures Replaces(e, FoldExpression(op, args, ty), op, args, ty)
  {
    assert args == [args[0], args[1]];
    assert Types(args)[0] == ty && Types(args)[1] == ty;
    if ComputedBinary(op.op, args[0], args[1]).Some? {
      ComputedReplaces(e, op, args[0], args[1], ty);
    } else if IsZero(args[1]) {
      IdentityReplaces(e, op, args, ty, 0);
    } else if !op.op.Sub? && IsZero(args[0]) {
      IdentityReplaces(e, op, args, ty, 1);
    } else {
      SameRefines(e, Expression(op, args, ty), Expression(op, args, ty));
    }
  }
}
