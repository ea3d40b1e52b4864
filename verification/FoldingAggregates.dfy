/** Folding an aggregate loses nothing, and folding a vector operation lane by lane is
folding the operation. */
module FoldingAggregates {
  import opened Layout
  import opened ConstantValues
  import opened ConstantMeaning
  import opened ConstantFolding
  import ConstantBits

  lemma ZeroMeans(e: Target, c: Constant, v: Value)
    requires WellTyped(e, c) && IsZero(c)
    ensures Means(e, c, v) <==> v == Filled(e, c.ty, Bits(0))
  {
  }

  ghost predicate OnlyMeans(e: Target, c: Constant, w: Value) {
    forall x :: Means(e, c, x) <==> x == w
  }

  lemma FilledParts(e: Target, ty: Type, cs: seq<Constant>, v: Value, s: Value)
    requires HasParts(ty) && |cs| == PartCount(e, ty)
    requires forall i :: 0 <= i < |cs| ==> OnlyMeans(e, cs[i], Filled(e, PartType(e, ty, i), s))
    ensures Means(e, Aggregate(ty, cs), v) <==> v == Filled(e, ty, s)
  {
    var w := Filled(e, ty, s);
    assert Means(e, Aggregate(ty, cs), v) <==> v.Many? && MeanEach(e, cs, v.parts);
    if v.Many? && |v.parts| == |cs| {
      forall i | 0 <= i < |cs| ensures Means(e, cs[i], v.parts[i]) <==> v.parts[i] == w.parts[i] {
        assert OnlyMeans(e, cs[i], w.parts[i]);
      }
      assert MeanEach(e, cs, v.parts) <==> v.parts == w.parts;
    }
  }

  lemma AllZeroSame(e: Target, ty: Type, cs: seq<Constant>)
    requires WellTyped(e, Aggregate(ty, cs)) && AllZero(cs)
    ensures SameMeaning(e, ZeroInitializer(ty), Aggregate(ty, cs))
  {
    forall i | 0 <= i < |cs| ensures OnlyMeans(e, cs[i], Filled(e, PartType(e, ty, i), Bits(0))) {
      forall x ensures Means(e, cs[i], x) <==> x == Filled(e, PartType(e, ty, i), Bits(0)) {
        ZeroMeans(e, cs[i], x);
      }
    }
    forall v ensures Means(e, ZeroInitializer(ty), v) <==> Means(e, Aggregate(ty, cs), v) {
      FilledParts(e, ty, cs, v, Bits(0));
    }
  }

  lemma AllPoisonSame(e: Target, ty: Type, cs: seq<Constant>)
    requires WellTyped(e, Aggregate(ty, cs)) && AllSame(cs) && (cs == [] || cs[0].Poisoned?)
    ensures SameMeaning(e, Poisoned(ty), Aggregate(ty, cs))
  {
    forall i | 0 <= i < |cs| ensures OnlyMeans(e, cs[i], Filled(e, PartType(e, ty, i), Poison)) {
      assert cs[i] == cs[0];
    }
    forall v ensures Means(e, Poisoned(ty), v) <==> Means(e, Aggregate(ty, cs), v) {
      FilledParts(e, ty, cs, v, Poison);
    }
  }

  lemma AllUndefSame(e: Target, ty: Type, cs: seq<Constant>)
    requires WellTyped(e, Aggregate(ty, cs)) && cs != [] && AllSame(cs) && cs[0].Undef?
    ensures SameMeaning(e, Undef(ty), Aggregate(ty, cs))
  {
    forall v ensures Means(e, Undef(ty), v) <==> Means(e, Aggregate(ty, cs), v) {
      assert Means(e, Aggregate(ty, cs), v) <==> v.Many? && MeanEach(e, cs, v.parts);
      if v.Many? && |v.parts| == |cs| {
        forall i | 0 <= i < |cs|
          ensures Means(e, cs[i], v.parts[i]) <==> OfType(e, v.parts[i], PartType(e, ty, i)) && Definite(v.parts[i])
        {
          assert cs[i] == cs[0];
        }
      }
    }
  }

  /** Folding an array or a vector changes neither its type nor any value it may have. */
  lemma AggregateFoldKeepsMeaning(e: Target, ty: Type, cs: seq<Constant>)
    requires WellTyped(e, Aggregate(ty, cs))
    ensures var folded := FoldAggregate(ty, cs, ty.Vector?);
            folded.ty == ty && WellTyped(e, folded) && SameMeaning(e, folded, Aggregate(ty, cs))
  {
    if cs == [] && !ty.Vector? {
      AllPoisonSame(e, ty, cs);
    } else if cs != [] && AllZero(cs) {
      AllZeroSame(e, ty, cs);
    } else if cs != [] && AllSame(cs) && cs[0].Undef? {
      AllUndefSame(e, ty, cs);
    } else if cs != [] && AllSame(cs) && cs[0].Poisoned? {
      AllPoisonSame(e, ty, cs);
    } else if cs != [] && AllSame(cs) && ty.Vector? && IsData(cs[0]) {
      CopiesSame(e, ty, cs[0]);
      assert cs == Copies(cs[0], ty.count);
      assert WellTyped(e, cs[0]) && cs[0].ty == PartType(e, ty, 0);
    }
  }

  lemma CopiesSame(e: Target, ty: Type, c: Constant)
    requires IsFixedVector(ty)
    ensures SameMeaning(e, Splat(ty, c), Aggregate(ty, Copies(c, ty.count)))
  {
    forall v ensures Means(e, Splat(ty, c), v) <==> Means(e, Aggregate(ty, Copies(c, ty.count)), v) {
      if v.Many? && |v.parts| == ty.count {
        assert forall i :: 0 <= i < ty.count ==> Copies(c, ty.count)[i] == c;
      }
    }
  }

  lemma StructFoldKeepsMeaning(e: Target, ty: Type, cs: seq<Constant>)
    requires WellTyped(e, Aggregate(ty, cs)) && ty.Struct?
    ensures var folded := FoldStruct(ty, cs);
            folded.ty == ty && WellTyped(e, folded) && SameMeaning(e, folded, Aggregate(ty, cs))
  {
    if AllZero(cs) {
      AllZeroSame(e, ty, cs);
    }
  }

  lemma BuiltSplatTyped(e: Target, ty: Type, element: Constant)
    requires WellTyped(e, Splat(ty, element)) && ty.scalable
    ensures WellTyped(e, BuiltSplat(ty, element, ty.count))
  {
    var built := BuiltSplat(ty, element, ty.count);
    InsertedTyped(e, ty, element);
    assert Types(built.args) == [ty, ty, Vector(Integer(32), ty.count, true)];
  }

  lemma InsertedTyped(e: Target, ty: Type, element: Constant)
    requires ty.Vector? && IsLaned(e, ty) && element.ty == ty.element && WellTyped(e, element)
    ensures WellTyped(e, Expression(InsertElement, [Poisoned(ty), element, Number(Integer(64), 0)], ty))
  {
    assert Types([Poisoned(ty), element, Number(Integer(64), 0)]) == [ty, ty.element, Integer(64)];
    assert WellTyped(e, Number(Integer(64), 0));
  }

  lemma InsertedMeans(e: Target, ty: Type, element: Constant, a: Value)
    requires ty.Vector? && LaneCount(e, ty) > 0
    requires Means(e, Expression(InsertElement, [Poisoned(ty), element, Number(Integer(64), 0)], ty), a)
    ensures Means(e, element, Lane(a, 0))
  {
    var args := [Poisoned(ty), element, Number(Integer(64), 0)];
    var us := Operands(e, InsertElement, args, ty, a);
    assert MeansOperand(e, InsertElement, ty, args[1], us[1]);
    assert MeansOperand(e, InsertElement, ty, args[2], us[2]);
  }

  lemma ShuffledMeans(e: Target, ty: Type, args: seq<Constant>, v: Value) returns (a: Value)
    requires ty.Vector? && |args| == 3 && args[0].ty == ty
    requires args[2] == ZeroInitializer(Vector(Integer(32), ty.count, ty.scalable))
    requires Means(e, Expression(ShuffleVector, args, ty), v)
    ensures Means(e, args[0], a) && v == Many(seq(LaneCount(e, ty), _ => Lane(a, 0)))
  {
    var vs := Operands(e, ShuffleVector, args, ty, v);
    a := vs[0];
    assert MeansOperand(e, ShuffleVector, ty, args[0], vs[0]);
    assert MeansOperand(e, ShuffleVector, ty, args[2], vs[2]);
    var mask := args[2].ty;
    assert Means(e, args[2], vs[2]) && Filled(e, mask.element, Bits(0)) == Bits(0);
    assert vs[2] == Filled(e, mask, Bits(0));
    forall k | 0 <= k < LaneCount(e, ty) ensures v.parts[k] == Lane(a, 0) {
      assert Lane(vs[2], k) == Bits(0);
    }
  }

  /** The shuffle of an inserted first lane that reads as a splat refines to one. */
  lemma BuiltSplatRefines(e: Target, ty: Type, element: Constant)
    requires WellTyped(e, Splat(ty, element)) && ty.scalable
    ensures Refines(e, BuiltSplat(ty, element, ty.count), Splat(ty, element))
  {
    var built := BuiltSplat(ty, element, ty.count);
    forall v | Means(e, built, v) ensures MeansAbove(e, Splat(ty, element), v) {
      var a := ShuffledMeans(e, ty, built.args, v);
      if LaneCount(e, ty) > 0 {
        InsertedMeans(e, ty, element, a);
      }
      assert Means(e, Splat(ty, element), v) && Below(v, v);
    }
  }

  lemma SplatFoldRefines(e: Target, ty: Type, element: Constant)
    requires WellTyped(e, Splat(ty, element))
    ensures var folded := FoldSplat(ty, element);
            folded.ty == ty && WellTyped(e, folded) && Refines(e, folded, Splat(ty, element))
  {
    if IsData(element) {
      SameRefines(e, Splat(ty, element), Splat(ty, element));
    } else if ty.scalable {
      BuiltSplatTyped(e, ty, element);
      BuiltSplatRefines(e, ty, element);
    } else {
      AggregateFoldKeepsMeaning(e, ty, Copies(element, ty.count));
      CopiesSame(e, ty, element);
      SameRefines(e, FoldSplat(ty, element), Splat(ty, element));
    }
  }

  // ------------------------------------------------------------------ lane by lane

  function At(lanes: seq<seq<Constant>>, k: nat): (r: seq<Constant>)
    requires forall i :: 0 <= i < |lanes| ==> k < |lanes[i]|
    ensures |r| == |lanes| && forall i :: 0 <= i < |lanes| ==> r[i] == lanes[i][k]
  {
    seq(|lanes|, i requires 0 <= i < |lanes| => lanes[i][k])
  }

  /** The constant may be any vector of values of these lanes. */
  ghost predicate HasAsLanes(e: Target, c: Constant, n: nat, lanes: seq<Constant>) {
    && |lanes| == n && (forall k :: 0 <= k < n ==> lanes[k].ty == ScalarOf(c.ty))
    && forall vs :: MeanEach(e, lanes, vs) ==> Means(e, c, Many(vs))
  }

  ghost predicate HaveAsLanes(e: Target, args: seq<Constant>, n: nat, lanes: seq<seq<Constant>>) {
    |lanes| == |args| && forall i :: 0 <= i < |args| ==> HasAsLanes(e, args[i], n, lanes[i])
  }

  /** An operation that works on each lane alone. */
  ghost predicate IsLanewise(e: Target, op: Operation, ty: Type, types: seq<Type>) {
    && ty.Vector? && (op.Binary? || op.Cast?) && OpTyped(e, op, types, ty)
    && (forall i :: 0 <= i < |types| ==> SameShape(types[i], ty))
    && (op == Cast(BitCast) ==> Width(e, ScalarOf(types[0])) == Width(e, ScalarOf(ty)))
  }

  function Scalars(types: seq<Type>): (r: seq<Type>)
    ensures |r| == |types|
  {
    seq(|types|, i requires 0 <= i < |types| => ScalarOf(types[i]))
  }

  lemma LaneAlone(e: Target, op: Operation, ty: Type, types: seq<Type>, vs: seq<Value>, k: nat)
    requires IsLanewise(e, op, ty, types) && |vs| == |types|
    requires forall i :: 0 <= i < |vs| ==> OfType(e, Lane(vs[i], k), ScalarOf(types[i]))
    ensures ResultLane(e, op, ty, types, vs, k) == Apply(e, op, ScalarOf(ty), Scalars(types), LanesAt(vs, k))
  {
    var alone := LanesAt(vs, k);
    if op == Cast(BitCast) {
      var w := Width(e, ScalarOf(ty));
      ConstantBits.RecutSame(e, vs[0], w, k);
      ConstantBits.RecutSame(e, alone[0], w, 0);
    } else {
      assert LanesAt(alone, 0) == alone;
    }
  }

  ghost predicate LanesFolded(e: Target, op: Operation, ty: Type, lanes: seq<seq<Constant>>, folded: seq<Constant>)
    requires forall i :: 0 <= i < |lanes| ==> |lanes[i]| == |folded|
  {
    forall k :: 0 <= k < |folded| ==>
      Refines(e, folded[k], Expression(op, At(lanes, k), ScalarOf(ty)))
      && forall i :: 0 <= i < |lanes| ==> WellTyped(e, lanes[i][k])
  }

  ghost predicate LaneChosen(e: Target, op: Operation, ty: Type, at: seq<Constant>, v: Value, os: seq<Value>) {
    MeanEach(e, at, os) && RightCount(op, |os|) && Below(v, Apply(e, op, ty, Types(at), os))
  }

  lemma OneLane(e: Target, op: Operation, ty: Type, at: seq<Constant>, c: Constant, v: Value) returns (os: seq<Value>)
    requires Refines(e, c, Expression(op, at, ty)) && Means(e, c, v) && !op.Gep?
    ensures LaneChosen(e, op, ty, at, v, os)
  {
    os := Operands(e, op, at, ty, Chosen(e, Expression(op, at, ty), v));
    forall i | 0 <= i < |at| ensures Means(e, at[i], os[i]) {
      assert MeansOperand(e, op, ty, at[i], os[i]);
    }
  }

  lemma LanesChosen(e: Target, op: Operation, ty: Type, lanes: seq<seq<Constant>>, folded: seq<Constant>, vs: seq<Value>)
    returns (os: seq<seq<Value>>)
    requires !op.Gep? && (forall i :: 0 <= i < |lanes| ==> |lanes[i]| == |folded|)
    requires LanesFolded(e, op, ty, lanes, folded) && MeanEach(e, folded, vs)
    ensures |os| == |vs| && forall k :: 0 <= k < |os| ==> LaneChosen(e, op, ScalarOf(ty), At(lanes, k), vs[k], os[k])
  {
    os := [];
    while |os| < |vs|
      invariant |os| <= |vs|
      invariant forall k :: 0 <= k < |os| ==> LaneChosen(e, op, ScalarOf(ty), At(lanes, k), vs[k], os[k])
    {
      var k := |os|;
      var o := OneLane(e, op, ScalarOf(ty), At(lanes, k), folded[k], vs[k]);
      os := os + [o];
    }
  }

  /** Column `i` of the rows. */
  function Column(os: seq<seq<Value>>, i: nat): (r: seq<Value>)
    requires forall k :: 0 <= k < |os| ==> i < |os[k]|
    ensures |r| == |os| && forall k :: 0 <= k < |os| ==> r[k] == os[k][i]
  {
    seq(|os|, k requires 0 <= k < |os| => os[k][i])
  }

  /** When each lane's fold refines the operation on that lane, the vector of the folds
  refines the operation on the vectors. */
  lemma LanesRefine(e: Target, op: Operation, args: seq<Constant>, ty: Type, lanes: seq<seq<Constant>>, folded: seq<Constant>)
    requires IsLanewise(e, op, ty, Types(args)) && |folded| == LaneCount(e, ty)
    requires HaveAsLanes(e, args, |folded|, lanes) && LanesFolded(e, op, ty, lanes, folded)
    ensures Refines(e, Aggregate(ty, folded), Expression(op, args, ty))
  {
    forall v | Means(e, Aggregate(ty, folded), v) ensures MeansAbove(e, Expression(op, args, ty), v) {
      var os := LanesChosen(e, op, ty, lanes, folded, v.parts);
      RowsAbove(e, op, args, ty, lanes, v.parts, os);
    }
  }

  lemma RowsAbove(
    e: Target, op: Operation, args: seq<Constant>, ty: Type, lanes: seq<seq<Constant>>, parts: seq<Value>,
    os: seq<seq<Value>>)
    requires IsLanewise(e, op, ty, Types(args)) && |os| == |parts| == LaneCount(e, ty)
    requires HaveAsLanes(e, args, |os|, lanes)
    requires forall i, k :: 0 <= i < |lanes| && 0 <= k < |os| ==> WellTyped(e, lanes[i][k])
    requires forall k :: 0 <= k < |os| ==> LaneChosen(e, op, ScalarOf(ty), At(lanes, k), parts[k], os[k])
    ensures MeansAbove(e, Expression(op, args, ty), Many(parts))
  {
    forall k | 0 <= k < |os| ensures |os[k]| == |args| {
      assert LaneChosen(e, op, ScalarOf(ty), At(lanes, k), parts[k], os[k]);
    }
    var vs := seq(|args|, i requires 0 <= i < |args| => Many(Column(os, i)));
    forall i | 0 <= i < |args| ensures MeansOperand(e, op, ty, args[i], vs[i]) {
      ColumnMeans(e, op, ty, lanes, parts, os, i);
      assert HasAsLanes(e, args[i], |os|, lanes[i]);
    }
    MeansApplied(e, op, args, ty, vs);
    var w := Apply(e, op, ty, Types(args), vs);
    forall k | 0 <= k < |os| ensures Below(parts[k], w.parts[k]) {
      RowBelow(e, op, args, ty, lanes, parts[k], os, vs, k);
    }
    assert Below(Many(parts), w);
  }

  lemma ColumnMeans(e: Target, op: Operation, ty: Type, lanes: seq<seq<Constant>>, vs: seq<Value>, os: seq<seq<Value>>, i: nat)
    requires i < |lanes| && |os| == |vs| && forall j :: 0 <= j < |lanes| ==> |lanes[j]| == |os|
    requires forall k :: 0 <= k < |os| ==> LaneChosen(e, op, ScalarOf(ty), At(lanes, k), vs[k], os[k])
    requires forall k :: 0 <= k < |os| ==> |os[k]| == |lanes|
    ensures MeanEach(e, lanes[i], Column(os, i))
  {
    forall k | 0 <= k < |os| ensures Means(e, lanes[i][k], os[k][i]) {
      assert LaneChosen(e, op, ScalarOf(ty), At(lanes, k), vs[k], os[k]);
      assert At(lanes, k)[i] == lanes[i][k];
    }
  }

  lemma RowBelow(
    e: Target, op: Operation, args: seq<Constant>, ty: Type, lanes: seq<seq<Constant>>, v: Value, os: seq<seq<Value>>,
    vs: seq<Value>, k: nat)
    requires IsLanewise(e, op, ty, Types(args)) && |lanes| == |args| && |vs| == |args| && k < |os|
    requires forall i :: 0 <= i < |args| ==> k < |lanes[i]| && lanes[i][k].ty == ScalarOf(args[i].ty) && WellTyped(e, lanes[i][k])
    requires LaneChosen(e, op, ScalarOf(ty), At(lanes, k), v, os[k])
    requires forall i :: 0 <= i < |args| ==> Lane(vs[i], k) == os[k][i]
    ensures Below(v, ResultLane(e, op, ty, Types(args), vs, k))
  {
    var at := At(lanes, k);
    forall i | 0 <= i < |args| ensures OfType(e, Lane(vs[i], k), ScalarOf(Types(args)[i])) {
      assert Means(e, at[i], os[k][i]);
      MeaningIsTyped(e, at[i], os[k][i]);
    }
    LaneAlone(e, op, ty, Types(args), vs, k);
    assert LanesAt(vs, k) == os[k];
    assert Types(at) == Scalars(Types(args));
  }
}
