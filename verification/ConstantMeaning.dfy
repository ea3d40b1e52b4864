/** What holds of every constant's meaning: it is typed, it is never empty, and it gets no
larger when a part of the constant is refined. */
module ConstantMeaning {
  import opened Layout
  import opened ConstantValues

  // ------------------------------------------------------------------------ order

  lemma {:induction false} BelowTrans(u: Value, v: Value, w: Value)
    requires Below(u, v) && Below(v, w)
    ensures Below(u, w)
    decreases w
  {
    if u.Many? && v.Many? && w.Many? {
      forall i | 0 <= i < |w.parts| && |u.parts| == |w.parts| ensures Below(u.parts[i], w.parts[i]) {
        BelowTrans(u.parts[i], v.parts[i], w.parts[i]);
      }
    }
  }

  lemma LaneBelow(v: Value, w: Value, k: nat)
    requires Below(v, w)
    ensures Below(Lane(v, k), Lane(w, k))
  {
  }

  ghost predicate BelowEach(vs: seq<Value>, ws: seq<Value>) {
    |vs| == |ws| && forall i :: 0 <= i < |vs| ==> Below(vs[i], ws[i])
  }

  ghost function Chosen(e: Target, c: Constant, v: Value): (w: Value)
    requires MeansAbove(e, c, v)
    ensures Means(e, c, w) && Below(v, w)
  {
    var w :| Means(e, c, w) && Below(v, w); w
  }

  lemma RefinesTrans(e: Target, a: Constant, b: Constant, c: Constant)
    requires Refines(e, a, b) && Refines(e, b, c)
    ensures Refines(e, a, c)
  {
    forall v | Means(e, a, v) ensures MeansAbove(e, c, v) {
      var w := Chosen(e, b, v);
      BelowTrans(v, w, Chosen(e, c, w));
    }
  }

  lemma SameRefines(e: Target, a: Constant, b: Constant)
    requires SameMeaning(e, a, b)
    ensures Refines(e, a, b)
  {
    forall v | Means(e, a, v) ensures MeansAbove(e, b, v) {
      assert Below(v, v);
    }
  }

  // ------------------------------------------------------------- refining a part

  lemma RecutBelow(e: Target, v: Value, w: Value, from: nat, to: nat, k: nat)
    requires Below(v, w) && from > 0
    ensures Below(Recut(e, v, from, to, k), Recut(e, w, from, to, k))
  {
    var bits, other := RecutBits(e, w, from, to, k), RecutBits(e, v, from, to, k);
    if AllKnown(bits) {
      forall i | 0 <= i < to ensures other[i] == bits[i] {
        var p := k * to + Place(e, to, i);
        assert bits[i].Some? && bits[i] == BitAt(e, w, from, p);
        LaneBelow(v, w, p / from);
      }
      assert bits == other;
    }
  }

  lemma ResultBelow(e: Target, op: Operation, ty: Type, types: seq<Type>, vs: seq<Value>, ws: seq<Value>, k: nat)
    requires RightCount(op, |vs|) && |types| == |vs| && BelowEach(vs, ws)
    ensures Below(ResultLane(e, op, ty, types, vs, k), ResultLane(e, op, ty, types, ws, k))
  {
    if op == Cast(BitCast) {
      var from := Width(e, ScalarOf(types[0]));
      if from > 0 {
        RecutBelow(e, vs[0], ws[0], from, Width(e, ScalarOf(ty)), k);
      }
    } else if op.Binary? || op.Cast? || op.Gep? {
      if AllBits(LanesAt(ws, k)) {
        forall i | 0 <= i < |vs| ensures LanesAt(vs, k)[i] == LanesAt(ws, k)[i] {
          LaneBelow(vs[i], ws[i], k);
          assert LanesAt(ws, k)[i].Bits?;
        }
        assert LanesAt(vs, k) == LanesAt(ws, k);
      }
    } else if op.ShuffleVector? {
      LaneBelow(vs[2], ws[2], k);
    }
  }

  lemma ApplyBelow(e: Target, op: Operation, ty: Type, types: seq<Type>, vs: seq<Value>, ws: seq<Value>)
    requires RightCount(op, |vs|) && |types| == |vs| && BelowEach(vs, ws)
    ensures Below(Apply(e, op, ty, types, vs), Apply(e, op, ty, types, ws))
  {
    forall k: nat ensures Below(ResultLane(e, op, ty, types, vs, k), ResultLane(e, op, ty, types, ws, k)) {
      ResultBelow(e, op, ty, types, vs, ws, k);
    }
  }

  ghost predicate RefinesEach(e: Target, new_: seq<Constant>, old_: seq<Constant>) {
    && |new_| == |old_|
    && forall i :: 0 <= i < |new_| ==> Refines(e, new_[i], old_[i]) && new_[i].ty == old_[i].ty
  }

  lemma EachAbove(e: Target, new_: seq<Constant>, old_: seq<Constant>, vs: seq<Value>) returns (ws: seq<Value>)
    requires RefinesEach(e, new_, old_) && MeanEach(e, new_, vs)
    ensures MeanEach(e, old_, ws) && BelowEach(vs, ws)
  {
    forall i | 0 <= i < |vs| ensures MeansAbove(e, old_[i], vs[i]) {
      assert Refines(e, new_[i], old_[i]);
    }
    ws := seq(|vs|, i requires 0 <= i < |vs| => Chosen(e, old_[i], vs[i]));
  }

  lemma SpreadAbove(e: Target, new_: Constant, old_: Constant, n: nat, v: Value) returns (w: Value)
    requires Refines(e, new_, old_) && MeansInEach(e, new_, n, v)
    ensures MeansInEach(e, old_, n, w) && Below(v, w)
  {
    w := Many(seq(n, i requires 0 <= i < n => Chosen(e, old_, v.parts[i])));
  }

  lemma AggregateRefines(e: Target, ty: Type, new_: seq<Constant>, old_: seq<Constant>)
    requires RefinesEach(e, new_, old_)
    ensures Refines(e, Aggregate(ty, new_), Aggregate(ty, old_))
  {
    forall v | Means(e, Aggregate(ty, new_), v) ensures MeansAbove(e, Aggregate(ty, old_), v) {
      var ws := EachAbove(e, new_, old_, v.parts);
      assert Below(v, Many(ws));
    }
  }

  lemma SplatRefines(e: Target, ty: Type, new_: Constant, old_: Constant)
    requires Refines(e, new_, old_)
    ensures Refines(e, Splat(ty, new_), Splat(ty, old_))
  {
    forall v | Means(e, Splat(ty, new_), v) ensures MeansAbove(e, Splat(ty, old_), v) {
      var w := SpreadAbove(e, new_, old_, LaneCount(e, ty), v);
    }
  }

  ghost predicate OperandAbove(e: Target, op: Operation, ty: Type, c: Constant, v: Value) {
    exists w :: MeansOperand(e, op, ty, c, w) && Below(v, w)
  }

  lemma OneOperandAbove(e: Target, op: Operation, ty: Type, new_: Constant, old_: Constant, v: Value)
    requires Refines(e, new_, old_) && new_.ty == old_.ty && MeansOperand(e, op, ty, new_, v)
    ensures OperandAbove(e, op, ty, old_, v)
  {
    if IsSpread(op, ty, new_.ty) {
      var w := SpreadAbove(e, new_, old_, LaneCount(e, ty), v);
      assert MeansOperand(e, op, ty, old_, w);
    } else {
      var w := Chosen(e, old_, v);
      assert MeansOperand(e, op, ty, old_, w);
    }
  }

  ghost function ChosenOperand(e: Target, op: Operation, ty: Type, c: Constant, v: Value): (w: Value)
    requires OperandAbove(e, op, ty, c, v)
    ensures MeansOperand(e, op, ty, c, w) && Below(v, w)
  {
    var w :| MeansOperand(e, op, ty, c, w) && Below(v, w); w
  }

  lemma OperandsAbove(e: Target, op: Operation, ty: Type, new_: seq<Constant>, old_: seq<Constant>, vs: seq<Value>)
    returns (ws: seq<Value>)
    requires RefinesEach(e, new_, old_) && MeanOperands(e, op, ty, new_, vs)
    ensures MeanOperands(e, op, ty, old_, ws) && BelowEach(vs, ws)
  {
    forall i | 0 <= i < |vs| ensures OperandAbove(e, op, ty, old_[i], vs[i]) {
      OneOperandAbove(e, op, ty, new_[i], old_[i], vs[i]);
    }
    ws := seq(|vs|, i requires 0 <= i < |vs| => ChosenOperand(e, op, ty, old_[i], vs[i]));
  }

  /** The values of an operation, from values of its operands. */
  lemma MeansApplied(e: Target, op: Operation, args: seq<Constant>, ty: Type, vs: seq<Value>)
    requires RightCount(op, |args|) && MeanOperands(e, op, ty, args, vs)
    ensures Means(e, Expression(op, args, ty), Apply(e, op, ty, Types(args), vs))
  {
  }

  ghost function Operands(e: Target, op: Operation, args: seq<Constant>, ty: Type, v: Value): (vs: seq<Value>)
    requires Means(e, Expression(op, args, ty), v)
    ensures MeanOperands(e, op, ty, args, vs) && RightCount(op, |vs|) && v == Apply(e, op, ty, Types(args), vs)
  {
    var vs: seq<Value> :| MeanOperands(e, op, ty, args, vs) && RightCount(op, |vs|) && v == Apply(e, op, ty, Types(args), vs);
    vs
  }

  lemma ExpressionRefines(e: Target, op: Operation, ty: Type, new_: seq<Constant>, old_: seq<Constant>)
    requires RefinesEach(e, new_, old_)
    ensures Refines(e, Expression(op, new_, ty), Expression(op, old_, ty))
  {
    assert Types(new_) == Types(old_);
    forall v | Means(e, Expression(op, new_, ty), v) ensures MeansAbove(e, Expression(op, old_, ty), v) {
      var vs := Operands(e, op, new_, ty, v);
      var ws := OperandsAbove(e, op, ty, new_, old_, vs);
      ApplyBelow(e, op, ty, Types(new_), vs, ws);
      MeansApplied(e, op, old_, ty, ws);
    }
  }

  // -------------------------------------------------------------------- well typed

  lemma {:induction false} FilledTyped(e: Target, ty: Type, s: Value)
    requires s == Poison || s == Bits(0)
    ensures OfType(e, Filled(e, ty, s), ty)
    ensures s.Bits? ==> Definite(Filled(e, ty, s))
    decreases ty
  {
    if HasParts(ty) {
      forall i | 0 <= i < PartCount(e, ty)
        ensures OfType(e, Filled(e, PartType(e, ty, i), s), PartType(e, ty, i))
        ensures s.Bits? ==> Definite(Filled(e, PartType(e, ty, i), s))
      {
        FilledTyped(e, PartType(e, ty, i), s);
      }
    }
  }

  lemma ResultTyped(e: Target, op: Operation, ty: Type, types: seq<Type>, vs: seq<Value>, k: nat)
    requires |types| == |vs| && OpTyped(e, op, types, ty)
    requires !op.Gep? ==> forall i :: 0 <= i < |vs| ==> OfType(e, vs[i], types[i])
    ensures OfType(e, ResultLane(e, op, ty, types, vs, k), ScalarOf(ty))
  {
    if op.ExtractElement? {
      assert OfType(e, vs[0], types[0]);
    } else if op.InsertElement? {
      assert OfType(e, vs[0], types[0]) && OfType(e, vs[1], types[1]);
    } else if op.ShuffleVector? {
      assert OfType(e, vs[0], types[0]) && OfType(e, vs[1], types[1]);
    }
  }

  lemma ApplyTyped(e: Target, op: Operation, ty: Type, types: seq<Type>, vs: seq<Value>)
    requires |types| == |vs| && OpTyped(e, op, types, ty)
    requires !op.Gep? ==> forall i :: 0 <= i < |vs| ==> OfType(e, vs[i], types[i])
    ensures OfType(e, Apply(e, op, ty, types, vs), ty)
  {
    forall k: nat ensures OfType(e, ResultLane(e, op, ty, types, vs, k), ScalarOf(ty)) {
      ResultTyped(e, op, ty, types, vs, k);
    }
  }

  /** Every value of a well-typed constant is of its type. */
  lemma {:induction false} MeaningIsTyped(e: Target, c: Constant, v: Value)
    requires WellTyped(e, c) && Means(e, c, v)
    ensures OfType(e, v, c.ty)
    decreases c
  {
    match c
    case Poisoned(ty) => FilledTyped(e, ty, Poison);
    case ZeroInitializer(ty) => FilledTyped(e, ty, Bits(0));
    case Aggregate(ty, elements) =>
      forall i | 0 <= i < |elements| ensures OfType(e, v.parts[i], PartType(e, ty, i)) {
        MeaningIsTyped(e, elements[i], v.parts[i]);
      }
    case Splat(ty, element) =>
      forall i | 0 <= i < |v.parts| ensures OfType(e, v.parts[i], ty.element) {
        MeaningIsTyped(e, element, v.parts[i]);
      }
    case Expression(op, args, ty) =>
      var vs := Operands(e, op, args, ty, v);
      if !op.Gep? {
        forall i | 0 <= i < |vs| ensures OfType(e, vs[i], Types(args)[i]) {
          assert MeansOperand(e, op, ty, args[i], vs[i]);
          MeaningIsTyped(e, args[i], vs[i]);
        }
      }
      ApplyTyped(e, op, ty, Types(args), vs);
    case _ =>
  }

  // --------------------------------------------------------------------- inhabited

  /** One of the values a constant may have. */
  ghost function Sample(e: Target, c: Constant): Value
    decreases c, 1
  {
    match c
    case Number(_, value) => Bits(value)
    case FloatBits(_, bits) => Bits(bits)
    case Null(_) => Bits(0)
    case Undef(ty) => Filled(e, ty, Bits(0))
    case Poisoned(ty) => Filled(e, ty, Poison)
    case ZeroInitializer(ty) => Filled(e, ty, Bits(0))
    case Aggregate(_, elements) => Many(seq(|elements|, i requires 0 <= i < |elements| => Sample(e, elements[i])))
    case Splat(ty, element) => Many(seq(LaneCount(e, ty), i => Sample(e, element)))
    case Symbol(ty, name) => InWidth(e.symbol(name), Width(e, ty))
    case Expression(op, args, ty) =>
      var vs := SampleOperands(e, op, ty, args);
      if RightCount(op, |args|) then Apply(e, op, ty, Types(args), vs) else Poison
  }

  ghost function SampleOperands(e: Target, op: Operation, ty: Type, args: seq<Constant>): (vs: seq<Value>)
    ensures |vs| == |args|
    decreases args, 0
  {
    seq(|args|, i requires 0 <= i < |args| =>
      if IsSpread(op, ty, args[i].ty) then Many(seq(LaneCount(e, ty), _ => Sample(e, args[i])))
      else Sample(e, args[i]))
  }

  lemma {:induction false} HasMeaning(e: Target, c: Constant)
    requires WellTyped(e, c)
    ensures Means(e, c, Sample(e, c))
    decreases c, 1
  {
    match c
    case Undef(ty) => FilledTyped(e, ty, Bits(0));
    case Aggregate(_, elements) =>
      forall i | 0 <= i < |elements| ensures Means(e, elements[i], Sample(e, elements[i])) {
        HasMeaning(e, elements[i]);
      }
    case Splat(_, element) => HasMeaning(e, element);
    case Expression(op, args, ty) =>
      HaveMeaning(e, op, ty, args);
      MeansApplied(e, op, args, ty, SampleOperands(e, op, ty, args));
    case _ =>
  }

  lemma {:induction false} HaveMeaning(e: Target, op: Operation, ty: Type, args: seq<Constant>)
    requires forall i :: 0 <= i < |args| ==> WellTyped(e, args[i])
    ensures MeanOperands(e, op, ty, args, SampleOperands(e, op, ty, args))
    decreases args, 0
  {
    forall i | 0 <= i < |args| ensures MeansOperand(e, op, ty, args[i], SampleOperands(e, op, ty, args)[i]) {
      HasMeaning(e, args[i]);
    }
  }
}
