/** Casts: what a reader folds one into refines it, on pointers of sixty-four bits. */
module FoldingCasts {
  import opened Wrappers
  import opened Layout
  import opened Powers
  import opened ConstantValues
  import opened ConstantMeaning
  import opened ConstantFolding
  import opened FoldingAggregates
  import opened FoldingArithmetic

  ghost predicate Pointers64(e: Target) {
    forall space: nat :: e.layout.PointerSpec(space).sizeBits == 64
  }

  lemma CastTypes(e: Target, cast: CastOp, operand: Constant, ty: Type)
    requires Written(e, Cast(cast), [operand], ty)
    ensures Types([operand]) == [operand.ty] && WellTyped(e, operand)
    ensures IsLaned(e, operand.ty) && IsLaned(e, ty) && CastTyped(e, cast, operand.ty, ty)
  {
    assert Types([operand])[0] == operand.ty && [operand][0] == operand;
  }

  /** One value of the operand gives one of the cast. */
  lemma CastMeans(e: Target, cast: CastOp, operand: Constant, ty: Type, v: Value)
    requires Means(e, operand, v)
    ensures Means(e, Expression(Cast(cast), [operand], ty), Apply(e, Cast(cast), ty, [operand.ty], [v]))
  {
    assert Types([operand]) == [operand.ty];
    assert MeansOperand(e, Cast(cast), ty, [operand][0], v);
    MeansApplied(e, Cast(cast), [operand], ty, [v]);
  }

  lemma CastLaneOf(e: Target, cast: CastOp, from: Type, ty: Type, v: Value, k: nat)
    requires cast != BitCast
    ensures ResultLane(e, Cast(cast), ty, [from], [v], k) ==
      if Lane(v, k).Bits? then CastLane(e, cast, ScalarOf(from), ScalarOf(ty), Lane(v, k).n) else Poison
  {
    var at := LanesAt([v], k);
    assert at[0] == Lane(v, k);
    if at[0].Bits? {
      assert Numbers(at)[0] == at[0].n;
    }
  }

  // ---------------------------------------------------------- nothing changes, or is lost

  lemma IdentityCast(e: Target, cast: CastOp, operand: Constant, ty: Type)
    requires Written(e, Cast(cast), [operand], ty) && operand.ty == ty
    ensures Replaces(e, operand, Cast(cast), [operand], ty)
  {
    CastTypes(e, cast, operand, ty);
    var w := Width(e, ScalarOf(ty));
    forall v | Means(e, operand, v) ensures MeansAbove(e, Expression(Cast(cast), [operand], ty), v) {
      MeaningIsTyped(e, operand, v);
      CastMeans(e, cast, operand, ty, v);
      forall k | 0 <= k < LaneCount(e, ty) ensures ResultLane(e, Cast(cast), ty, [ty], [v], k) == Lane(v, k) {
        ConstantBits.RecutSame(e, v, w, k);
      }
      SameLanes(e, ty, v, Apply(e, Cast(cast), ty, [ty], [v]));
      assert Below(v, v);
    }
  }

  /** There and back is where it started, when the middle is wide enough. */
  lemma ThereAndBack(e: Target, cast: CastOp, under: CastOp, ty: Type, middle: Type, v: Value)
    requires IsScalar(ty) && IsScalar(middle) && OfType(e, v, ty) && Width(e, ty) <= Width(e, middle)
    requires (cast.IntToPtr? && under.PtrToInt?) || (cast.PtrToInt? && under.IntToPtr?)
    ensures Apply(e, Cast(cast), ty, [middle], [Apply(e, Cast(under), middle, [ty], [v])]) == v
  {
    var u := Apply(e, Cast(under), middle, [ty], [v]);
    CastLaneOf(e, under, ty, middle, v, 0);
    CastLaneOf(e, cast, middle, ty, u, 0);
    if v.Bits? {
      Pow2Grows(Width(e, ty), Width(e, middle));
      ModUnique(v.n, Pow2(Width(e, middle)), 0, v.n);
      ModUnique(v.n, Pow2(Width(e, ty)), 0, v.n);
    }
  }

  lemma UndoneCast(e: Target, cast: CastOp, operand: Constant, ty: Type)
    requires Written(e, Cast(cast), [operand], ty) && Undoes(cast, operand, ty)
    requires Width(e, ty) <= Width(e, operand.ty)
    ensures Replaces(e, operand.args[0], Cast(cast), [operand], ty)
  {
    CastTypes(e, cast, operand, ty);
    var original, under := operand.args[0], operand.op.cast;
    assert operand.args == [original];
    assert Written(e, Cast(under), [original], operand.ty);
    CastTypes(e, under, original, operand.ty);
    forall v | Means(e, original, v) ensures MeansAbove(e, Expression(Cast(cast), [operand], ty), v) {
      MeaningIsTyped(e, original, v);
      CastMeans(e, under, original, operand.ty, v);
      CastMeans(e, cast, operand, ty, Apply(e, Cast(under), operand.ty, [ty], [v]));
      ThereAndBack(e, cast, under, ty, operand.ty, v);
      assert Below(v, v);
    }
  }

  // -------------------------------------------------------------- moving lane boundaries

  lemma Divided(a: nat, m: nat, b: nat, n: nat, k: nat)
    requires a * m == b * n && k < b
    ensures (k + 1) * n <= a * m
  {
    assert (b - k - 1) * n >= 0;
    assert b * n == (b - k - 1) * n + (k + 1) * n;
  }

  function Uniform(n: nat, s: Value): (v: Value)
    ensures v.Many? && |v.parts| == n && forall k :: 0 <= k < n ==> v.parts[k] == s
  {
    Many(seq(n, _ => s))
  }

  lemma FilledVector(e: Target, ty: Type, s: Value)
    requires ty.Vector? && IsScalar(ty.element)
    ensures Filled(e, ty, s) == Uniform(LaneCount(e, ty), s)
  {
    assert Filled(e, ty.element, s) == s;
    assert Filled(e, ty, s).parts == Uniform(LaneCount(e, ty), s).parts;
  }

  /** The same bit everywhere, or poison everywhere. */
  function AllOf(w: nat, poison: bool, b: bool): Value {
    if poison then Poison else Bits(if b then Pow2(w) - 1 else 0)
  }

  lemma UniformRecut(e: Target, source: Type, ty: Type, poison: bool, b: bool)
    requires source.Vector? && ty.Vector? && IsLaned(e, source) && IsLaned(e, ty) && CastTyped(e, BitCast, source, ty)
    ensures var u := Uniform(LaneCount(e, source), AllOf(Width(e, source.element), poison, b));
            Apply(e, Cast(BitCast), ty, [source], [u]) == Uniform(LaneCount(e, ty), AllOf(Width(e, ty.element), poison, b))
  {
    var n, m := LaneCount(e, source), LaneCount(e, ty);
    var from, to := Width(e, source.element), Width(e, ty.element);
    var lane := AllOf(from, poison, b);
    var u, w := Uniform(n, lane), Uniform(m, AllOf(to, poison, b));
    var r := Apply(e, Cast(BitCast), ty, [source], [u]);
    forall k | 0 <= k < m ensures r.parts[k] == w.parts[k] {
      Divided(n, from, m, to, k);
      ConstantBits.RecutUniform(e, u, n, from, to, k, lane, b);
      assert r.parts[k] == ResultLane(e, Cast(BitCast), ty, [source], [u], k);
    }
    assert r.parts == w.parts;
  }

  /** The same lane everywhere, where every bit of it is the same, is so however the lanes fall. */
  lemma UniformCast(e: Target, operand: Constant, ty: Type, c: Constant, poison: bool, b: bool)
    requires Written(e, Cast(BitCast), [operand], ty) && ty.Vector? && operand.ty.Vector?
    requires Means(e, operand, Uniform(LaneCount(e, operand.ty), AllOf(Width(e, operand.ty.element), poison, b)))
    requires c.ty == ty && WellTyped(e, c)
    requires forall v :: Means(e, c, v) ==> v == Uniform(LaneCount(e, ty), AllOf(Width(e, ty.element), poison, b))
    ensures Replaces(e, c, Cast(BitCast), [operand], ty)
  {
    CastTypes(e, BitCast, operand, ty);
    CastMeans(e, BitCast, operand, ty, Uniform(LaneCount(e, operand.ty), AllOf(Width(e, operand.ty.element), poison, b)));
    UniformRecut(e, operand.ty, ty, poison, b);
    forall v | Means(e, c, v) ensures MeansAbove(e, Expression(Cast(BitCast), [operand], ty), v) {
      assert Below(v, v);
    }
  }

  lemma UndefCast(e: Target, operand: Constant, ty: Type)
    requires Written(e, Cast(BitCast), [operand], ty) && ty.Vector? && operand.ty.Vector? && operand.Undef?
    ensures Replaces(e, Undef(ty), Cast(BitCast), [operand], ty)
  {
    CastTypes(e, BitCast, operand, ty);
    forall v | Means(e, Undef(ty), v) ensures MeansAbove(e, Expression(Cast(BitCast), [operand], ty), v) {
      UndefReaches(e, operand.ty, ty, v);
      var n, m := LaneCount(e, operand.ty), LaneCount(e, ty);
      var from, to := Width(e, operand.ty.element), Width(e, ty.element);
      CastMeans(e, BitCast, operand, ty, ConstantBits.Cut(e, v, to, from, n));
      assert Below(v, v);
    }
  }

  /** Some value of the source type is cut into any value of the target type. */
  lemma UndefReaches(e: Target, source: Type, ty: Type, v: Value)
    requires source.Vector? && ty.Vector? && IsLaned(e, source) && IsLaned(e, ty) && CastTyped(e, BitCast, source, ty)
    requires OfType(e, v, ty) && Definite(v)
    ensures var u := ConstantBits.Cut(e, v, Width(e, ty.element), Width(e, source.element), LaneCount(e, source));
            && OfType(e, u, source) && Definite(u)
            && Apply(e, Cast(BitCast), ty, [source], [u]) == v
  {
    var n, m := LaneCount(e, source), LaneCount(e, ty);
    var from, to := Width(e, source.element), Width(e, ty.element);
    var u := ConstantBits.Cut(e, v, to, from, n);
    assert ConstantBits.DefiniteLanes(e, v, to, m) by {
      forall k | 0 <= k < m ensures Lane(v, k).Bits? && Lane(v, k).n < Pow2(to) {
        assert OfType(e, v.parts[k], ty.element) && Definite(v.parts[k]);
      }
    }
    forall j | 0 <= j < n ensures OfType(e, u.parts[j], source.element) && Definite(u.parts[j]) {
      ConstantBits.CutLane(e, v, to, m, from, n, j);
    }
    var w := Apply(e, Cast(BitCast), ty, [source], [u]);
    forall k | 0 <= k < m ensures w.parts[k] == v.parts[k] {
      ConstantBits.CutBack(e, v, to, m, from, n, k);
    }
    assert w.parts == v.parts;
  }

  lemma SameCountSameWidth(count: nat, a: nat, b: nat)
    requires count > 0 && count * a == count * b
    ensures a == b
  {
    if a < b {
      NonNegative(count - 1, b - a);
    } else if b < a {
      NonNegative(count - 1, a - b);
    }
  }

  // ------------------------------------------------------------------------ literals

  /** A literal that is the cast of the only value its operand has. */
  lemma OnlyCast(e: Target, cast: CastOp, operand: Constant, ty: Type, c: Constant, n: nat, m: nat)
    requires Written(e, Cast(cast), [operand], ty) && c.ty == ty && WellTyped(e, c)
    requires Means(e, operand, Bits(n)) && forall v :: Means(e, c, v) ==> v == Bits(m)
    requires Apply(e, Cast(cast), ty, [operand.ty], [Bits(n)]) == Bits(m)
    ensures Replaces(e, c, Cast(cast), [operand], ty)
  {
    CastMeans(e, cast, operand, ty, Bits(n));
    forall v | Means(e, c, v) ensures MeansAbove(e, Expression(Cast(cast), [operand], ty), v) {
      assert Below(v, v);
    }
  }

  lemma LiteralBits(e: Target, operand: Constant, ty: Type)
    requires Written(e, Cast(BitCast), [operand], ty) && FoldedLiteral(BitCast, operand, ty).Some?
    ensures Replaces(e, FoldedLiteral(BitCast, operand, ty).value, Cast(BitCast), [operand], ty)
  {
    CastTypes(e, BitCast, operand, ty);
    var n := if operand.Number? then operand.value else operand.bits;
    ConstantBits.RecutSame(e, Bits(n), Width(e, ty), 0);
    OnlyCast(e, BitCast, operand, ty, FoldedLiteral(BitCast, operand, ty).value, n, n);
  }

  lemma LiteralNumber(e: Target, cast: CastOp, operand: Constant, ty: Type)
    requires Written(e, Cast(cast), [operand], ty) && FoldedLiteral(cast, operand, ty).Some?
    requires !cast.BitCast? && !ty.Vector?
    ensures Replaces(e, FoldedLiteral(cast, operand, ty).value, Cast(cast), [operand], ty)
  {
    CastTypes(e, cast, operand, ty);
    var n := if operand.Number? then operand.value else 0;
    var c, m := FoldedLiteral(cast, operand, ty).value, n % Pow2(Width(e, ty));
    CastLaneOf(e, cast, operand.ty, ty, Bits(n), 0);
    if !cast.Trunc? {
      ModUnique(0, Pow2(Width(e, ty)), 0, 0);
    }
    OnlyCast(e, cast, operand, ty, c, n, m);
  }

  // ----------------------------------------------------------------------- altogether

  lemma CastLanesWritten(e: Target, operand: Constant, n: nat)
    requires WellTyped(e, operand) && IsFixedVector(operand.ty) && operand.ty.count == n && CastLanes(operand, n).Some?
    ensures var lanes := CastLanes(operand, n).value;
            HasAsLanes(e, operand, n, lanes) && forall k :: 0 <= k < n ==> WellTyped(e, lanes[k])
  {
    if HasLanes(operand) {
      WrittenLanes(e, operand);
    } else {
      var lanes := CastLanes(operand, n).value;
      forall vs | MeanEach(e, lanes, vs) ensures Means(e, operand, Many(vs)) {
        forall k | 0 <= k < n ensures vs[k] == Filled(e, operand.ty.element, Bits(0)) {
          assert Means(e, lanes[k], vs[k]);
        }
        assert Many(vs).parts == Filled(e, operand.ty, Bits(0)).parts;
      }
    }
  }

  /** A vector cast folded lane by lane. */
  lemma {:induction false} EachLaneCast(e: Target, cast: CastOp, operand: Constant, ty: Type, lanes: seq<Constant>)
    requires Written(e, Cast(cast), [operand], ty) && IsFixedVector(ty) && IsFixedVector(operand.ty) && Pointers64(e)
    requires operand.ty.count == ty.count && HasAsLanes(e, operand, ty.count, lanes)
    requires forall k :: 0 <= k < ty.count ==> WellTyped(e, lanes[k]) && FoldedCast(cast, lanes[k], ty.element).Some?
    ensures var folded := seq(|lanes|, i requires 0 <= i < |lanes| => FoldedCast(cast, lanes[i], ty.element));
            FoldLanes(ty, folded).Some? && Replaces(e, FoldLanes(ty, folded).value, Cast(cast), [operand], ty)
    decreases ty, 0
  {
    CastTypes(e, cast, operand, ty);
    var op, args := Cast(cast), [operand];
    var folded := seq(|lanes|, i requires 0 <= i < |lanes| => FoldedCast(cast, lanes[i], ty.element));
    if ty.count == 0 {
      NoLanes(e, op, args, ty, folded);
    } else {
      if cast.BitCast? {
        SameCountSameWidth(ty.count, Width(e, ScalarOf(operand.ty)), Width(e, ScalarOf(ty)));
      }
      forall k | 0 <= k < ty.count ensures Replaces(e, folded[k].value, op, At([lanes], k), ty.element) {
        assert At([lanes], k) == [lanes[k]] && Types([lanes[k]]) == [operand.ty.element];
        CastFoldReplaces(e, cast, lanes[k], ty.element);
      }
      LanesReplace(e, op, args, ty, [lanes], folded);
    }
  }

  lemma NoLanes(e: Target, op: Operation, args: seq<Constant>, ty: Type, folded: seq<Option<Constant>>)
    requires op.Cast? && Written(e, op, args, ty) && IsFixedVector(ty) && ty.count == 0 && folded == []
    ensures FoldLanes(ty, folded).Some? && Replaces(e, FoldLanes(ty, folded).value, op, args, ty)
  {
    var c := FoldLanes(ty, folded).value;
    assert c == Aggregate(ty, []);
    HaveMeaning(e, op, ty, args);
    MeansApplied(e, op, args, ty, SampleOperands(e, op, ty, args));
    forall v | Means(e, c, v) ensures MeansAbove(e, Expression(op, args, ty), v) {
      var w := Apply(e, op, ty, Types(args), SampleOperands(e, op, ty, args));
      assert MeanEach(e, [], v.parts) && v.parts == [] && w.parts == [];
      assert Below(v, w);
    }
  }

  lemma {:induction false} RecutFoldReplaces(e: Target, operand: Constant, ty: Type)
    requires Written(e, Cast(BitCast), [operand], ty) && IsFixedVector(ty) && IsFixedVector(operand.ty) && Pointers64(e)
    requires FoldedRecut(operand, ty).Some?
    ensures Replaces(e, FoldedRecut(operand, ty).value, Cast(BitCast), [operand], ty)
    decreases ty, 1
  {
    CastTypes(e, BitCast, operand, ty);
    match operand
    case ZeroInitializer(_) =>
      FilledVector(e, operand.ty, Bits(0));
      FilledVector(e, ty, Bits(0));
      UniformCast(e, operand, ty, ZeroInitializer(ty), false, false);
    case Undef(_) => UndefCast(e, operand, ty);
    case Poisoned(_) =>
      FilledVector(e, operand.ty, Poison);
      FilledVector(e, ty, Poison);
      UniformCast(e, operand, ty, Poisoned(ty), true, false);
    case Splat(_, element) => OnesCast(e, operand, ty);
    case Aggregate(_, elements) =>
      var folded := seq(|elements|, i requires 0 <= i < |elements| => FoldedCast(BitCast, elements[i], ty.element));
      assert AllSome(folded);
      forall k | 0 <= k < ty.count ensures FoldedCast(BitCast, elements[k], ty.element).Some? {
        assert folded[k].Some?;
      }
      WrittenLanes(e, operand);
      EachLaneCast(e, BitCast, operand, ty, elements);
    case _ =>
  }

  lemma OnesCast(e: Target, operand: Constant, ty: Type)
    requires Written(e, Cast(BitCast), [operand], ty) && IsFixedVector(ty) && IsFixedVector(operand.ty)
    requires operand.Splat? && IsAllOnes(operand.element) && ty.element.Integer?
    ensures Replaces(e, Splat(ty, Number(ty.element, Pow2(ty.element.bits) - 1)), Cast(BitCast), [operand], ty)
  {
    CastTypes(e, BitCast, operand, ty);
    var c := Splat(ty, Number(ty.element, Pow2(ty.element.bits) - 1));
    var n := LaneCount(e, operand.ty);
    var u := Uniform(n, Bits(operand.element.value));
    assert MeansInEach(e, operand.element, n, u);
    forall v | Means(e, c, v) ensures v == Uniform(LaneCount(e, ty), AllOf(Width(e, ty.element), false, true)) {
      assert MeansInEach(e, c.element, LaneCount(e, ty), v);
      assert v.parts == Uniform(LaneCount(e, ty), AllOf(Width(e, ty.element), false, true)).parts;
    }
    UniformCast(e, operand, ty, c, false, true);
  }

  /** What a cast folds to refines it. */
  lemma {:induction false} CastFoldReplaces(e: Target, cast: CastOp, operand: Constant, ty: Type)
    requires Written(e, Cast(cast), [operand], ty) && FoldedCast(cast, operand, ty).Some? && Pointers64(e)
    ensures Replaces(e, FoldedCast(cast, operand, ty).value, Cast(cast), [operand], ty)
    decreases ty, 2
  {
    CastTypes(e, cast, operand, ty);
    if operand.ty == ty {
      IdentityCast(e, cast, operand, ty);
    } else if Undoes(cast, operand, ty) {
      UndoneCast(e, cast, operand, ty);
    } else if cast.BitCast? && IsFixedVector(ty) && IsFixedVector(operand.ty) {
      RecutFoldReplaces(e, operand, ty);
    } else if !cast.BitCast? && ty.Vector? {
      var lanes := CastLanes(operand, ty.count).value;
      CastLanesWritten(e, operand, ty.count);
      var folded := seq(|lanes|, i requires 0 <= i < |lanes| => FoldedCast(cast, lanes[i], ty.element));
      forall k | 0 <= k < ty.count ensures FoldedCast(cast, lanes[k], ty.element).Some? {
        assert folded[k].Some?;
      }
      EachLaneCast(e, cast, operand, ty, lanes);
    } else if cast.BitCast? {
      LiteralBits(e, operand, ty);
    } else {
      LiteralNumber(e, cast, operand, ty);
    }
  }

  // ---------------------------------------------------------- whatever pointers are wide

  lemma LanesTyped(e: Target, ty: Type, folded: seq<Option<Constant>>)
    requires IsFixedVector(ty) && IsLaned(e, ty) && |folded| == ty.count && AllSome(folded)
    requires forall k :: 0 <= k < ty.count ==> folded[k].value.ty == ty.element && WellTyped(e, folded[k].value)
    ensures FoldLanes(ty, folded).Some?
    ensures FoldLanes(ty, folded).value.ty == ty && WellTyped(e, FoldLanes(ty, folded).value)
  {
    AggregateFoldKeepsMeaning(e, ty, Values(folded));
  }

  lemma {:induction false} EachLaneTyped(e: Target, cast: CastOp, operand: Constant, ty: Type, lanes: seq<Constant>)
    requires Written(e, Cast(cast), [operand], ty) && IsFixedVector(ty) && IsFixedVector(operand.ty)
    requires operand.ty.count == ty.count && HasAsLanes(e, operand, ty.count, lanes)
    requires forall k :: 0 <= k < ty.count ==> WellTyped(e, lanes[k]) && FoldedCast(cast, lanes[k], ty.element).Some?
    ensures var folded := seq(|lanes|, i requires 0 <= i < |lanes| => FoldedCast(cast, lanes[i], ty.element));
            && FoldLanes(ty, folded).Some?
            && FoldLanes(ty, folded).value.ty == ty && WellTyped(e, FoldLanes(ty, folded).value)
    decreases ty, 0
  {
    CastTypes(e, cast, operand, ty);
    var folded := seq(|lanes|, i requires 0 <= i < |lanes| => FoldedCast(cast, lanes[i], ty.element));
    forall k | 0 <= k < ty.count ensures folded[k].value.ty == ty.element && WellTyped(e, folded[k].value) {
      if cast.BitCast? {
        SameCountSameWidth(ty.count, Width(e, ScalarOf(operand.ty)), Width(e, ScalarOf(ty)));
      }
      assert Types([lanes[k]]) == [operand.ty.element];
      CastFoldTyped(e, cast, lanes[k], ty.element);
    }
    LanesTyped(e, ty, folded);
  }

  lemma {:induction false} RecutFoldTyped(e: Target, operand: Constant, ty: Type)
    requires Written(e, Cast(BitCast), [operand], ty) && IsFixedVector(ty) && IsFixedVector(operand.ty)
    requires FoldedRecut(operand, ty).Some?
    ensures FoldedRecut(operand, ty).value.ty == ty && WellTyped(e, FoldedRecut(operand, ty).value)
    decreases ty, 1
  {
    CastTypes(e, BitCast, operand, ty);
    if operand.Splat? {
      OnesCast(e, operand, ty);
    } else if operand.Aggregate? {
      var folded := seq(|operand.elements|, i requires 0 <= i < |operand.elements| =>
          FoldedCast(BitCast, operand.elements[i], ty.element));
      assert AllSome(folded);
      forall k | 0 <= k < ty.count ensures FoldedCast(BitCast, operand.elements[k], ty.element).Some? {
        assert folded[k].Some?;
      }
      WrittenLanes(e, operand);
      EachLaneTyped(e, BitCast, operand, ty, operand.elements);
    }
  }

  /** Whatever the target's pointers are, a cast folds to something of its type. */
  lemma {:induction false} CastFoldTyped(e: Target, cast: CastOp, operand: Constant, ty: Type)
    requires Written(e, Cast(cast), [operand], ty) && FoldedCast(cast, operand, ty).Some?
    ensures FoldedCast(cast, operand, ty).value.ty == ty && WellTyped(e, FoldedCast(cast, operand, ty).value)
    decreases ty, 2
  {
    CastTypes(e, cast, operand, ty);
    if operand.ty == ty || Undoes(cast, operand, ty) {
    } else if cast.BitCast? && IsFixedVector(ty) && IsFixedVector(operand.ty) {
      RecutFoldTyped(e, operand, ty);
    } else if !cast.BitCast? && ty.Vector? {
      var lanes := CastLanes(operand, ty.count).value;
      CastLanesWritten(e, operand, ty.count);
      var folded := seq(|lanes|, i requires 0 <= i < |lanes| => FoldedCast(cast, lanes[i], ty.element));
      forall k | 0 <= k < ty.count ensures FoldedCast(cast, lanes[k], ty.element).Some? {
        assert folded[k].Some?;
      }
      EachLaneTyped(e, cast, operand, ty, lanes);
    } else if cast.BitCast? {
      LiteralBits(e, operand, ty);
    } else {
      LiteralNumber(e, cast, operand, ty);
    }
  }
}
