/** Address walks: rewriting the indices moves no lane, and the walks a reader folds away
went nowhere. */
module FoldingWalks {
  import opened Wrappers
  import opened Layout
  import opened Powers
  import opened ConstantValues
  import opened ConstantMeaning
  import opened ConstantFolding
  import opened FoldingAggregates
  import opened FoldingArithmetic
  import opened FoldingCasts

  // ------------------------------------------------------------------------ indices

  predicate IsOperandType(e: Target, ty: Type, operand: Type) {
    IsLaned(e, operand) && (SameShape(operand, ty) || IsScalar(operand))
  }

  /** The two read the same wherever one is written as an operand of the walk. */
  ghost predicate SameOperand(e: Target, op: Operation, ty: Type, a: Constant, b: Constant) {
    && ScalarOf(a.ty) == ScalarOf(b.ty) && WellTyped(e, a) && IsOperandType(e, ty, a.ty)
    && forall v :: MeansOperand(e, op, ty, a, v) <==> MeansOperand(e, op, ty, b, v)
  }

  /** Writing a scalar out in every lane says what the scalar said. */
  lemma WideningKeepsOperand(e: Target, op: Operation, ty: Type, c: Constant)
    requires op.Gep? && WellTyped(e, c) && IsOperandType(e, ty, c.ty)
    ensures SameOperand(e, op, ty, WidenTo(ty, c), c)
    ensures IsFixedVector(ty) ==> WidenTo(ty, c).ty == Vector(ScalarOf(c.ty), ty.count, false)
  {
    if IsFixedVector(ty) && !c.ty.Vector? {
      var vector := Vector(c.ty, ty.count, false);
      assert WellTyped(e, Aggregate(vector, Copies(c, ty.count)));
      AggregateFoldKeepsMeaning(e, vector, Copies(c, ty.count));
      CopiesSame(e, vector, c);
      forall v ensures MeansOperand(e, op, ty, WidenTo(ty, c), v) <==> MeansOperand(e, op, ty, c, v) {
        assert Means(e, WidenTo(ty, c), v) <==> Means(e, Splat(vector, c), v);
      }
    }
  }

  lemma SplatOperand(e: Target, op: Operation, ty: Type, vector: Constant, element: Constant)
    requires op.Gep? && SameShape(vector.ty, ty) && ty.Vector? && element.ty == vector.ty.element
    requires WellTyped(e, element) && IsLaned(e, vector.ty)
    requires SameMeaning(e, vector, Splat(vector.ty, element))
    ensures SameOperand(e, op, ty, element, vector)
  {
    forall v ensures MeansOperand(e, op, ty, element, v) <==> MeansOperand(e, op, ty, vector, v) {
      assert Means(e, vector, v) <==> MeansInEach(e, element, LaneCount(e, ty), v);
    }
  }

  lemma ZeroSplat(e: Target, ty: Type)
    requires ty.Vector? && ty.element.Integer?
    ensures SameMeaning(e, ZeroInitializer(ty), Splat(ty, Number(ty.element, 0)))
  {
    var zero, n := Number(ty.element, 0), LaneCount(e, ty);
    FilledVector(e, ty, Bits(0));
    forall v ensures Means(e, ZeroInitializer(ty), v) <==> Means(e, Splat(ty, zero), v) {
      assert Means(e, Splat(ty, zero), v) <==> MeansInEach(e, zero, n, v);
      if MeansInEach(e, zero, n, v) {
        assert forall k :: 0 <= k < n ==> Means(e, zero, v.parts[k]);
        assert v.parts == Uniform(n, Bits(0)).parts;
      }
    }
  }

  /** One field named in every lane is that field named once. */
  lemma NarrowingKeepsOperand(e: Target, op: Operation, ty: Type, index: Constant)
    requires op.Gep? && WellTyped(e, index) && IsOperandType(e, ty, index.ty) && ScalarOf(index.ty).Integer?
    ensures SameOperand(e, op, ty, NarrowStructIndex(index), index)
  {
    var narrow := NarrowStructIndex(index);
    match index
    case Splat(vector, element) => SplatOperand(e, op, ty, index, element);
    case Aggregate(vector, elements) =>
      if elements != [] && AllSame(elements) {
        CopiesSame(e, vector, elements[0]);
        assert elements == Copies(elements[0], vector.count);
        assert WellTyped(e, elements[0]) && elements[0].ty == PartType(e, vector, 0);
        SplatOperand(e, op, ty, index, elements[0]);
      }
    case ZeroInitializer(vector) =>
      if vector.Vector? {
        ZeroSplat(e, vector);
        assert 0 < Pow2(vector.element.bits);
        SplatOperand(e, op, ty, index, narrow);
      }
    case _ =>
  }

  ghost predicate AreIndices(e: Target, ty: Type, indices: seq<Constant>) {
    forall i :: 0 <= i < |indices| ==>
      WellTyped(e, indices[i]) && IsOperandType(e, ty, indices[i].ty) && ScalarOf(indices[i].ty).Integer?
  }

  ghost predicate SameOperands(e: Target, op: Operation, ty: Type, a: seq<Constant>, b: seq<Constant>) {
    |a| == |b| && forall i :: 0 <= i < |a| ==> SameOperand(e, op, ty, a[i], b[i])
  }

  lemma {:induction false} RestKeepsOperands(e: Target, op: Operation, ty: Type, current: Option<Type>, indices: seq<Constant>)
    requires op.Gep? && AreIndices(e, ty, indices)
    ensures SameOperands(e, op, ty, WidenRest(ty, current, indices), indices)
    decreases |indices|
  {
    if indices != [] {
      var (index, next) := WidenStep(ty, current, indices[0]);
      if current.Some? && current.value.Struct? {
        NarrowingKeepsOperand(e, op, ty, indices[0]);
      } else {
        WideningKeepsOperand(e, op, ty, indices[0]);
      }
      RestKeepsOperands(e, op, ty, next, indices[1..]);
    }
  }

  lemma IndicesKeepOperands(e: Target, op: Operation, ty: Type, source: Type, indices: seq<Constant>)
    requires op.Gep? && AreIndices(e, ty, indices)
    ensures SameOperands(e, op, ty, WidenIndices(ty, source, indices), indices)
  {
    if indices != [] {
      WideningKeepsOperand(e, op, ty, indices[0]);
      RestKeepsOperands(e, op, ty, Some(source), indices[1..]);
    }
  }

  lemma WalkIgnoresShape(e: Target, op: Operation, ty: Type, a: seq<Type>, b: seq<Type>, vs: seq<Value>)
    requires op.Gep? && |a| == |b| == |vs| > 0 && Scalars(a) == Scalars(b)
    ensures Apply(e, op, ty, a, vs) == Apply(e, op, ty, b, vs)
  {
    forall k: nat ensures ResultLane(e, op, ty, a, vs, k) == ResultLane(e, op, ty, b, vs, k) {
      if AllBits(LanesAt(vs, k)) {
        var ns := Numbers(LanesAt(vs, k));
        forall i | 0 <= i < |ns| - 1
          ensures SignedAll(e, a[1..], ns[1..])[i] == SignedAll(e, b[1..], ns[1..])[i]
        {
          assert Scalars(a)[i + 1] == Scalars(b)[i + 1];
        }
        assert SignedAll(e, a[1..], ns[1..]) == SignedAll(e, b[1..], ns[1..]);
      }
    }
  }

  lemma SameOperandsSameWalk(e: Target, op: Operation, ty: Type, a: seq<Constant>, b: seq<Constant>)
    requires op.Gep? && SameOperands(e, op, ty, a, b) && |a| > 0
    ensures SameMeaning(e, Expression(op, a, ty), Expression(op, b, ty))
  {
    assert Scalars(Types(a)) == Scalars(Types(b)) by {
      forall i | 0 <= i < |a| ensures ScalarOf(a[i].ty) == ScalarOf(b[i].ty) {
        assert SameOperand(e, op, ty, a[i], b[i]);
      }
    }
    forall v ensures Means(e, Expression(op, a, ty), v) <==> Means(e, Expression(op, b, ty), v) {
      if Means(e, Expression(op, a, ty), v) {
        var vs := Operands(e, op, a, ty, v);
        OperandsCarry(e, op, ty, a, b, vs);
        WalkIgnoresShape(e, op, ty, Types(a), Types(b), vs);
        MeansApplied(e, op, b, ty, vs);
      }
      if Means(e, Expression(op, b, ty), v) {
        var vs := Operands(e, op, b, ty, v);
        OperandsCarry(e, op, ty, a, b, vs);
        WalkIgnoresShape(e, op, ty, Types(a), Types(b), vs);
        MeansApplied(e, op, a, ty, vs);
      }
    }
  }

  lemma OperandsCarry(e: Target, op: Operation, ty: Type, a: seq<Constant>, b: seq<Constant>, vs: seq<Value>)
    requires SameOperands(e, op, ty, a, b)
    ensures MeanOperands(e, op, ty, a, vs) <==> MeanOperands(e, op, ty, b, vs)
  {
    if |vs| == |a| {
      forall i | 0 <= i < |a| ensures MeansOperand(e, op, ty, a[i], vs[i]) <==> MeansOperand(e, op, ty, b[i], vs[i]) {
        assert SameOperand(e, op, ty, a[i], b[i]);
      }
    }
  }

  // ------------------------------------------------------------------ walking nowhere

  predicate AllNought(indices: seq<int>) {
    forall i :: 0 <= i < |indices| ==> indices[i] == 0
  }

  /** Field nought is at the start, so stepping into first parts never moves. */
  lemma {:induction false} FirstFieldAtStart(l: DataLayout, t: Type, n: nat)
    requires t.Struct? && 0 < n <= |t.fields| && PlaceUpTo(l, t, n).Ok?
    ensures PlaceUpTo(l, t, n).value.offsets[0] == 0
  {
    if n == 1 {
      AlignUpIsLeast(FieldAlign(l, t, 0).value, 0, 0);
      assert 0 % FieldAlign(l, t, 0).value.Bytes() == 0;
    } else {
      FirstFieldAtStart(l, t, n - 1);
    }
  }

  lemma {:induction false} NoughtGoesNowhere(l: DataLayout, ty: Type, indices: seq<int>)
    requires AllNought(indices)
    ensures Walk(l, ty, indices) == 0
    decreases ty
  {
    if indices != [] {
      match ty
      case Array(element, _) => NoughtGoesNowhere(l, element, indices[1..]);
      case Vector(element, _, _) => NoughtGoesNowhere(l, element, indices[1..]);
      case Struct(fields, _) =>
        if 0 < |fields| && StructLayout(l, ty).Ok? {
          FirstFieldAtStart(l, ty, |fields|);
          NoughtGoesNowhere(l, fields[0], indices[1..]);
        }
      case _ =>
    }
  }

  /** A walk by noughts, in one lane, is the base it started from. */
  lemma NoughtLane(e: Target, op: Operation, ty: Type, types: seq<Type>, vs: seq<Value>, k: nat)
    requires op.Gep? && |types| == |vs| > 0 && IsLaned(e, ty) && OfType(e, Lane(vs[0], k), ScalarOf(ty))
    requires forall i :: 1 <= i < |types| ==> ScalarOf(types[i]).Integer? && Width(e, ScalarOf(types[i])) > 0
    requires forall i :: 1 <= i < |vs| ==> Lane(vs[i], k) == Bits(0)
    ensures Below(Lane(vs[0], k), ResultLane(e, op, ty, types, vs, k))
  {
    var at := LanesAt(vs, k);
    if at[0].Bits? {
      assert AllBits(at);
      var ns := Numbers(at);
      var signed := SignedAll(e, types[1..], ns[1..]);
      assert AllNought(signed) by {
        forall i | 0 <= i < |signed| ensures signed[i] == 0 {
          assert ns[1..][i] == at[i + 1].n == 0;
        }
      }
      if signed != [] {
        NoughtGoesNowhere(e.layout, op.source, signed[1..]);
      }
      assert Distance(e.layout, op.source, signed) == 0;
      ModUnique(ns[0], Pow2(Width(e, ScalarOf(ty))), 0, ns[0]);
    } else {
      assert at[0].Poison?;
    }
  }

  function LaneOr(e: Target, op: Operation, ty: Type, c: Constant, s: Value): Value {
    if IsSpread(op, ty, c.ty) then Uniform(LaneCount(e, ty), s) else Filled(e, c.ty, s)
  }

  lemma ZeroOperand(e: Target, op: Operation, ty: Type, c: Constant)
    requires WellTyped(e, c) && IsZero(c) && IsOperandType(e, ty, c.ty)
    ensures MeansOperand(e, op, ty, c, LaneOr(e, op, ty, c, Bits(0)))
    ensures forall k :: 0 <= k < LaneCount(e, ty) ==> Lane(LaneOr(e, op, ty, c, Bits(0)), k) == Bits(0)
  {
    ZeroMeans(e, c, Filled(e, c.ty, Bits(0)));
    if c.ty.Vector? {
      FilledVector(e, c.ty, Bits(0));
    }
  }

  lemma ResultsBelow(e: Target, op: Operation, ty: Type, types: seq<Type>, vs: seq<Value>, v: Value)
    requires RightCount(op, |vs|) && |types| == |vs| && IsLaned(e, ty) && OfType(e, v, ty)
    requires forall k :: 0 <= k < LaneCount(e, ty) ==> Below(Lane(v, k), ResultLane(e, op, ty, types, vs, k))
    ensures Below(v, Apply(e, op, ty, types, vs))
  {
    if ty.Vector? {
      var w := Apply(e, op, ty, types, vs);
      forall k | 0 <= k < |v.parts| ensures Below(v.parts[k], w.parts[k]) {
        assert Below(Lane(v, k), ResultLane(e, op, ty, types, vs, k));
      }
    } else {
      assert Below(Lane(v, 0), ResultLane(e, op, ty, types, vs, 0));
    }
  }

  lemma SpreadTyped(e: Target, op: Operation, ty: Type, c: Constant, v: Value)
    requires op.Gep? && WellTyped(e, c) && ScalarOf(c.ty) == ScalarOf(ty) && IsOperandType(e, ty, c.ty)
    requires MeansOperand(e, op, ty, c, v)
    ensures OfType(e, v, ty)
  {
    if IsSpread(op, ty, c.ty) {
      forall k | 0 <= k < |v.parts| ensures OfType(e, v.parts[k], c.ty) {
        MeaningIsTyped(e, c, v.parts[k]);
      }
    } else {
      MeaningIsTyped(e, c, v);
    }
  }

  /** A scalar base a scalable answer would need in lanes that are not counted. */
  predicate LosesLanes(ty: Type, base: Constant) {
    ty.Vector? && ty.scalable && !base.ty.Vector?
  }

  ghost predicate IsWalk(e: Target, op: Operation, args: seq<Constant>, ty: Type) {
    && op.Gep? && |args| > 0 && IsLaned(e, ty) && ScalarOf(ty).Pointer? && WellTyped(e, args[0]) && IsOperandType(e, ty, args[0].ty)
    && ScalarOf(args[0].ty) == ScalarOf(ty) && AreIndices(e, ty, args[1..])
  }

  lemma NoughtWalkRefines(e: Target, op: Operation, args: seq<Constant>, ty: Type)
    requires IsWalk(e, op, args, ty) && AllZero(args[1..]) && !LosesLanes(ty, args[0])
    ensures Replaces(e, WidenTo(ty, args[0]), op, args, ty)
  {
    var base := args[0];
    WideningKeepsOperand(e, op, ty, base);
    forall v | Means(e, WidenTo(ty, base), v) ensures MeansAbove(e, Expression(op, args, ty), v) {
      assert MeansOperand(e, op, ty, WidenTo(ty, base), v);
      NoughtWalkAbove(e, op, args, ty, v);
    }
  }

  lemma NoughtWalkAbove(e: Target, op: Operation, args: seq<Constant>, ty: Type, v: Value)
    requires IsWalk(e, op, args, ty) && AllZero(args[1..]) && MeansOperand(e, op, ty, args[0], v)
    ensures MeansAbove(e, Expression(op, args, ty), v)
  {
    SpreadTyped(e, op, ty, args[0], v);
    var vs := seq(|args|, i requires 0 <= i < |args| => if i == 0 then v else LaneOr(e, op, ty, args[i], Bits(0)));
    forall i | 0 <= i < |args|
      ensures MeansOperand(e, op, ty, args[i], vs[i])
      ensures i > 0 ==> forall k :: 0 <= k < LaneCount(e, ty) ==> Lane(vs[i], k) == Bits(0)
    {
      if i > 0 {
        assert args[1..][i - 1] == args[i];
        ZeroOperand(e, op, ty, args[i]);
      }
    }
    MeansApplied(e, op, args, ty, vs);
    forall k | 0 <= k < LaneCount(e, ty) ensures Below(Lane(v, k), ResultLane(e, op, ty, Types(args), vs, k)) {
      forall i | 1 <= i < |args| ensures ScalarOf(args[i].ty).Integer? && Width(e, ScalarOf(args[i].ty)) > 0 {
        assert args[1..][i - 1] == args[i];
      }
      NoughtLane(e, op, ty, Types(args), vs, k);
    }
    ResultsBelow(e, op, ty, Types(args), vs, v);
  }

  // ---------------------------------------------------------------- walking from nowhere

  /** Where a walk has to start to arrive at `target`, when it takes the steps the other
  operands say. */
  function StartFor(e: Target, op: Operation, ty: Type, types: seq<Type>, vs: seq<Value>, k: nat, target: nat): nat
    requires op.Gep? && |types| == |vs| > 0
  {
    var rest := LanesAt(vs[1..], k);
    if AllBits(rest) then
      (target - Distance(e.layout, op.source, SignedAll(e, types[1..], Numbers(rest)))) % Pow2(Width(e, ScalarOf(ty)))
    else 0
  }

  lemma Arrives(target: nat, distance: int, m: nat)
    requires 0 <= target < m
    ensures ((target - distance) % m + distance) % m == target
  {
    var d := target - distance;
    ModUnique(d % m + distance, m, -(d / m), target) by {
      assert d == (d / m) * m + d % m;
      assert -(d / m) * m == -((d / m) * m);
    }
  }

  lemma StartArrives(e: Target, op: Operation, ty: Type, types: seq<Type>, vs: seq<Value>, k: nat, target: nat)
    requires op.Gep? && |types| == |vs| > 0 && target < Pow2(Width(e, ScalarOf(ty)))
    requires Lane(vs[0], k) == Bits(StartFor(e, op, ty, types, vs, k, target))
    ensures Below(Bits(target), ResultLane(e, op, ty, types, vs, k))
  {
    var at, rest := LanesAt(vs, k), LanesAt(vs[1..], k);
    assert at[1..] == rest;
    if AllBits(at) {
      NumbersTail(at);
      var distance := Distance(e.layout, op.source, SignedAll(e, types[1..], Numbers(rest)));
      Arrives(target, distance, Pow2(Width(e, ScalarOf(ty))));
    }
  }

  lemma NumbersTail(at: seq<Value>)
    requires AllBits(at) && at != []
    ensures AllBits(at[1..]) && Numbers(at)[1..] == Numbers(at[1..])
  {
    forall i | 0 <= i < |at| - 1 ensures at[1..][i].Bits? {
      assert at[1..][i] == at[i + 1];
    }
  }

  lemma UndefOperand(e: Target, op: Operation, ty: Type, base: Constant, v: Value)
    requires op.Gep? && base.Undef? && IsLaned(e, ty) && ScalarOf(base.ty) == ScalarOf(ty) && IsOperandType(e, ty, base.ty)
    requires OfType(e, v, ty) && Definite(v)
    ensures MeansOperand(e, op, ty, base, v)
  {
    if IsSpread(op, ty, base.ty) {
      forall k | 0 <= k < |v.parts| ensures Means(e, base, v.parts[k]) {
        assert OfType(e, v.parts[k], ty.element) && Definite(v.parts[k]);
      }
    }
  }

  /** The base a walk from undef is taken to have started from. */
  function Starts(e: Target, op: Operation, ty: Type, types: seq<Type>, vs: seq<Value>, v: Value): (u: Value)
    requires op.Gep? && |types| == |vs| > 0
    ensures ty.Vector? ==> u.Many? && |u.parts| == LaneCount(e, ty)
  {
    var lane := (k: nat) => match Lane(v, k) case Bits(n) => Bits(StartFor(e, op, ty, types, vs, k, n)) case _ => Poison;
    if ty.Vector? then Many(seq(LaneCount(e, ty), k requires 0 <= k => lane(k))) else lane(0)
  }

  lemma UndefWalkRefines(e: Target, op: Operation, args: seq<Constant>, ty: Type)
    requires IsWalk(e, op, args, ty) && args[0].Undef?
    ensures Replaces(e, Undef(ty), op, args, ty)
  {
    forall v | Means(e, Undef(ty), v) ensures MeansAbove(e, Expression(op, args, ty), v) {
      var vs := SampledOperands(e, op, args, ty);
      var u := Starts(e, op, ty, Types(args), vs, v);
      StartsTyped(e, op, ty, Types(args), vs, v);
      UndefOperand(e, op, ty, args[0], u);
      MeansApplied(e, op, args, ty, vs[0 := u]);
      StartsArrive(e, op, ty, Types(args), vs, v);
    }
  }

  lemma SampledOperands(e: Target, op: Operation, args: seq<Constant>, ty: Type) returns (vs: seq<Value>)
    requires IsWalk(e, op, args, ty)
    ensures MeanOperands(e, op, ty, args, vs)
  {
    forall i | 0 <= i < |args| ensures WellTyped(e, args[i]) {
      assert i > 0 ==> args[1..][i - 1] == args[i];
    }
    vs := SampleOperands(e, op, ty, args);
    HaveMeaning(e, op, ty, args);
  }

  lemma StartsArrive(e: Target, op: Operation, ty: Type, types: seq<Type>, vs: seq<Value>, v: Value)
    requires op.Gep? && |types| == |vs| > 0 && IsLaned(e, ty) && OfType(e, v, ty) && Definite(v)
    ensures Below(v, Apply(e, op, ty, types, vs[0 := Starts(e, op, ty, types, vs, v)]))
  {
    var u := Starts(e, op, ty, types, vs, v);
    var ws := vs[0 := u];
    StartsTyped(e, op, ty, types, vs, v);
    forall k | 0 <= k < LaneCount(e, ty) ensures Below(Lane(v, k), ResultLane(e, op, ty, types, ws, k)) {
      StartArrivesAt(e, op, ty, types, vs, u, k, v);
    }
    ResultsBelow(e, op, ty, types, ws, v);
  }

  lemma StartArrivesAt(e: Target, op: Operation, ty: Type, types: seq<Type>, vs: seq<Value>, u: Value, k: nat, v: Value)
    requires op.Gep? && |types| == |vs| > 0 && IsLaned(e, ty) && OfType(e, v, ty) && Definite(v) && k < LaneCount(e, ty)
    requires Lane(v, k).Bits? && Lane(u, k) == Bits(StartFor(e, op, ty, types, vs, k, Lane(v, k).n))
    ensures Below(Lane(v, k), ResultLane(e, op, ty, types, vs[0 := u], k))
  {
    LaneDefinite(e, ty, v, k);
    assert vs[0 := u][1..] == vs[1..];
    StartArrives(e, op, ty, types, vs[0 := u], k, Lane(v, k).n);
  }

  lemma LaneDefinite(e: Target, ty: Type, v: Value, k: nat)
    requires IsLaned(e, ty) && OfType(e, v, ty) && Definite(v) && k < LaneCount(e, ty)
    ensures Lane(v, k).Bits? && Lane(v, k).n < Pow2(Width(e, ScalarOf(ty)))
  {
    if ty.Vector? {
      assert OfType(e, v.parts[k], ty.element) && Definite(v.parts[k]);
    }
  }

  lemma StartsTyped(e: Target, op: Operation, ty: Type, types: seq<Type>, vs: seq<Value>, v: Value)
    requires op.Gep? && |types| == |vs| > 0 && IsLaned(e, ty) && OfType(e, v, ty) && Definite(v)
    ensures var u := Starts(e, op, ty, types, vs, v); OfType(e, u, ty) && Definite(u)
    ensures forall k :: 0 <= k < LaneCount(e, ty) ==>
              Lane(v, k).Bits? && Lane(Starts(e, op, ty, types, vs, v), k) == Bits(StartFor(e, op, ty, types, vs, k, Lane(v, k).n))
  {
    var u := Starts(e, op, ty, types, vs, v);
    forall k | 0 <= k < LaneCount(e, ty)
      ensures Lane(v, k).Bits? && Lane(u, k) == Bits(StartFor(e, op, ty, types, vs, k, Lane(v, k).n))
      ensures OfType(e, Lane(u, k), ScalarOf(ty)) && Definite(Lane(u, k))
    {
      LaneDefinite(e, ty, v, k);
    }
    if ty.Vector? {
      assert forall k :: 0 <= k < |u.parts| ==> Lane(u, k) == u.parts[k];
    } else {
      assert Lane(u, 0) == u;
    }
  }

  lemma PoisonWalkRefines(e: Target, op: Operation, args: seq<Constant>, ty: Type)
    requires IsWalk(e, op, args, ty) && args[0].Poisoned?
    ensures Replaces(e, Poisoned(ty), op, args, ty)
  {
    var vs := SampledOperands(e, op, args, ty);
    MeansApplied(e, op, args, ty, vs);
    forall v | Means(e, Poisoned(ty), v) ensures MeansAbove(e, Expression(op, args, ty), v) {
      FilledTyped(e, ty, Poison);
      forall k | 0 <= k < LaneCount(e, ty) ensures Below(Lane(v, k), ResultLane(e, op, ty, Types(args), vs, k)) {
        PoisonOperand(e, op, ty, args[0], vs[0], k);
        assert LanesAt(vs, k)[0] == Poison;
      }
      ResultsBelow(e, op, ty, Types(args), vs, v);
    }
  }

  lemma PoisonOperand(e: Target, op: Operation, ty: Type, base: Constant, v: Value, k: nat)
    requires base.Poisoned? && IsOperandType(e, ty, base.ty) && MeansOperand(e, op, ty, base, v) && k < LaneCount(e, ty)
    ensures Lane(v, k) == Poison
  {
    if IsSpread(op, ty, base.ty) {
      assert Means(e, base, v.parts[k]);
    } else if base.ty.Vector? {
      FilledVector(e, base.ty, Poison);
    }
  }

  // ------------------------------------------------------------------------ altogether

  lemma WrittenWalk(e: Target, op: Operation, args: seq<Constant>, ty: Type)
    requires op.Gep? && Written(e, op, args, ty)
    ensures IsWalk(e, op, args, ty)
  {
    forall i | 0 <= i < |args| ensures WellTyped(e, args[i]) && (SameShape(args[i].ty, ty) || IsScalar(args[i].ty))
      ensures i > 0 ==> IsLaned(e, args[i].ty) && ScalarOf(args[i].ty).Integer?
    {
      assert Types(args)[i] == args[i].ty;
    }
    assert Types(args)[0] == args[0].ty;
  }

  lemma RewrittenWalk(e: Target, op: Operation, args: seq<Constant>, ty: Type) returns (new_: seq<Constant>)
    requires IsWalk(e, op, args, ty)
    ensures new_ == [args[0]] + WidenIndices(ty, op.source, args[1..])
    ensures IsWalk(e, op, new_, ty) && Written(e, op, new_, ty)
    ensures SameMeaning(e, Expression(op, new_, ty), Expression(op, args, ty))
  {
    var indices := WidenIndices(ty, op.source, args[1..]);
    new_ := [args[0]] + indices;
    IndicesKeepOperands(e, op, ty, op.source, args[1..]);
    forall i | 0 <= i < |args| ensures SameOperand(e, op, ty, new_[i], args[i])
      ensures i > 0 ==> ScalarOf(new_[i].ty).Integer?
    {
      if i > 0 {
        assert SameOperand(e, op, ty, indices[i - 1], args[1..][i - 1]);
      }
    }
    assert new_[1..] == indices;
    SameOperandsSameWalk(e, op, ty, new_, args);
    forall i | 0 <= i < |new_|
      ensures SameShape(Types(new_)[i], ty) || IsScalar(Types(new_)[i])
      ensures i > 0 ==> IsLaned(e, Types(new_)[i]) && ScalarOf(Types(new_)[i]).Integer?
    {
      assert SameOperand(e, op, ty, new_[i], args[i]);
    }
  }

  /** The walk is folded to a scalar base where its answer is a scalable vector. */
  predicate IsLost(op: Operation, args: seq<Constant>, ty: Type)
    requires op.Gep? && |args| > 0
  {
    LosesLanes(ty, args[0]) && op.inrange.None? && AllZero(WidenIndices(ty, op.source, args[1..]))
  }

  lemma WalkFoldReplaces(e: Target, op: Operation, args: seq<Constant>, ty: Type)
    requires op.Gep? && Written(e, op, args, ty) && !IsLost(op, args, ty)
    ensures Replaces(e, FoldGep(op, args, ty), op, args, ty)
  {
    WrittenWalk(e, op, args, ty);
    var new_ := RewrittenWalk(e, op, args, ty);
    var folded := FoldGep(op, args, ty);
    assert new_[1..] == WidenIndices(ty, op.source, args[1..]);
    if op.inrange.None? && AllZero(new_[1..]) {
      NoughtWalkRefines(e, op, new_, ty);
    } else if args[0].Undef? {
      UndefWalkRefines(e, op, new_, ty);
    } else if args[0].Poisoned? {
      PoisonWalkRefines(e, op, new_, ty);
    } else {
      SameRefines(e, folded, Expression(op, new_, ty));
    }
    SameRefines(e, Expression(op, new_, ty), Expression(op, args, ty));
    RefinesTrans(e, folded, Expression(op, new_, ty), Expression(op, args, ty));
  }

  /** A walk folds to something of its own type exactly when it is not lost: a scalar base is
  left scalar where the answer is a scalable vector and no index moves. */
  lemma WalkKeepsTypeExactly(e: Target, op: Operation, args: seq<Constant>, ty: Type)
    requires op.Gep? && Written(e, op, args, ty)
    ensures FoldGep(op, args, ty).ty == ty <==> !IsLost(op, args, ty)
  {
    WrittenWalk(e, op, args, ty);
    WideningKeepsOperand(e, op, ty, args[0]);
  }

  /** What a walk folds to is of its type, well typed and a refinement of it exactly when the
  walk is not lost. */
  lemma WalkFoldRefines(e: Target, op: Operation, args: seq<Constant>, ty: Type)
    requires op.Gep? && Written(e, op, args, ty)
    ensures Replaces(e, FoldGep(op, args, ty), op, args, ty) <==> !IsLost(op, args, ty)
  {
    WalkKeepsTypeExactly(e, op, args, ty);
    if !IsLost(op, args, ty) {
      WalkFoldReplaces(e, op, args, ty);
    }
  }
}
