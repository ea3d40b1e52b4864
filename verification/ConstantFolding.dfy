/** What a reader folds a constant into, as it reads it. */
module ConstantFolding {
  import opened Wrappers
  import opened Layout
  import opened Powers
  import opened ConstantValues

  /** Noughts in every bit, which a negative-zero float is not. */
  predicate IsZero(c: Constant) {
    match c
    case ZeroInitializer(_) => true
    case Null(_) => true
    case Number(_, value) => value == 0
    case FloatBits(_, bits) => bits == 0
    case _ => false
  }

  predicate IsData(c: Constant) {
    c.Number? || c.FloatBits?
  }

  predicate AllZero(cs: seq<Constant>) {
    forall i :: 0 <= i < |cs| ==> IsZero(cs[i])
  }

  predicate AllSame(cs: seq<Constant>) {
    forall i :: 0 <= i < |cs| ==> cs[i] == cs[0]
  }

  function Copies(c: Constant, n: nat): (r: seq<Constant>)
    ensures |r| == n && forall i :: 0 <= i < n ==> r[i] == c
  {
    seq(n, _ => c)
  }

  function FoldAggregate(ty: Type, elements: seq<Constant>, isVector: bool): Constant {
    if elements == [] then (if isVector then Aggregate(ty, []) else Poisoned(ty))
    else if AllZero(elements) then ZeroInitializer(ty)
    else if AllSame(elements) && elements[0].Undef? then Undef(ty)
    else if AllSame(elements) && elements[0].Poisoned? then Poisoned(ty)
    else if AllSame(elements) && isVector && IsData(elements[0]) then Splat(ty, elements[0])
    else Aggregate(ty, elements)
  }

  function FoldStruct(ty: Type, fields: seq<Constant>): Constant {
    if AllZero(fields) then ZeroInitializer(ty) else Aggregate(ty, fields)
  }

  /** A splat with no written form of its own: a shuffle by noughts of poison into whose lane
  nought the element went. */
  function BuiltSplat(ty: Type, element: Constant, count: nat): Constant {
    var inserted := Expression(InsertElement, [Poisoned(ty), element, Number(Integer(64), 0)], ty);
    Expression(ShuffleVector, [inserted, Poisoned(ty), ZeroInitializer(Vector(Integer(32), count, true))], ty)
  }

  function FoldSplat(ty: Type, element: Constant): Constant {
    if ty.Vector? && !IsData(element) then
      if ty.scalable then BuiltSplat(ty, element, ty.count)
      else FoldAggregate(ty, Copies(element, ty.count), true)
    else Splat(ty, element)
  }

  predicate AllSome(cs: seq<Option<Constant>>) {
    forall i :: 0 <= i < |cs| ==> cs[i].Some?
  }

  /** The vector of the lanes, unless one of them could not be folded. */
  function FoldLanes(ty: Type, lanes: seq<Option<Constant>>): Option<Constant> {
    if AllSome(lanes) then Some(FoldAggregate(ty, seq(|lanes|, i requires 0 <= i < |lanes| => lanes[i].value), true))
    else None
  }

  // ------------------------------------------------------------------- arithmetic

  predicate IsFixedVector(ty: Type) {
    ty.Vector? && !ty.scalable
  }

  predicate HasLanes(c: Constant) {
    c.Aggregate? || c.Splat?
  }

  function LanesWritten(c: Constant, width: nat): seq<Constant>
    requires HasLanes(c)
  {
    if c.Aggregate? then c.elements else Copies(c.element, width)
  }

  function Min(a: nat, b: nat): nat {
    if a < b then a else b
  }

  function ComputedNumber(op: BinaryOp, ty: Type, a: nat, b: nat): Constant
    requires ty.Integer?
  {
    var m := Pow2(ty.bits);
    match op
    case Add => Number(ty, (a + b) % m)
    case Sub => Number(ty, (a - b) % m)
    case Xor => Number(ty, NumberOf(seq(ty.bits, i requires 0 <= i => BitOf(a, i) != BitOf(b, i))))
  }

  function ComputedLanes(op: BinaryOp, lhs: Constant, rhs: Constant): seq<Option<Constant>>
    requires IsFixedVector(lhs.ty) && HasLanes(lhs) && HasLanes(rhs)
    decreases lhs, 0
  {
    var left, right := LanesWritten(lhs, lhs.ty.count), LanesWritten(rhs, lhs.ty.count);
    seq(Min(|left|, |right|), i requires 0 <= i < Min(|left|, |right|) =>
      ComputedBinary(op, if lhs.Aggregate? then lhs.elements[i] else lhs.element, right[i]))
  }

  /** An answer from known operands: one number, or one for every pair of lanes. */
  function ComputedBinary(op: BinaryOp, lhs: Constant, rhs: Constant): Option<Constant>
    decreases lhs, 1
  {
    if lhs.ty != rhs.ty then None
    else if IsFixedVector(lhs.ty) then
      if !HasLanes(lhs) || !HasLanes(rhs) then None else FoldLanes(lhs.ty, ComputedLanes(op, lhs, rhs))
    else if lhs.Number? && rhs.Number? && lhs.ty.Integer? then Some(ComputedNumber(op, lhs.ty, lhs.value, rhs.value))
    else None
  }

  /** One side the identity. */
  function FoldedBinary(op: BinaryOp, lhs: Constant, rhs: Constant): Option<Constant> {
    if IsZero(rhs) then Some(lhs)
    else if !op.Sub? && IsZero(lhs) && rhs.ty == lhs.ty then Some(rhs)
    else None
  }

  // ------------------------------------------------------------------------ casts

  /** When a cast over a cast is dropped with it: the types match end to end and the middle is
  sixty-four bits, or an integer no wider is being restored. The target is not consulted. */
  predicate Undoes(op: CastOp, operand: Constant, ty: Type) {
    && operand.Expression? && operand.op.Cast? && |operand.args| == 1
    && operand.args[0].ty == ty
    && match op {
      case IntToPtr => operand.op.cast.PtrToInt? && operand.ty == Integer(64)
      case PtrToInt => operand.op.cast.IntToPtr? && ty.Integer? && ty.bits <= 64
      case _ => false
    }
  }

  predicate IsAllOnes(c: Constant) {
    c.Number? && c.ty.Integer? && c.value == Pow2(c.ty.bits) - 1
  }

  function BitWidth(ty: Type): Option<nat> {
    match ty case Integer(bits) => Some(bits) case Float(width) => Some(width) case _ => None
  }

  /** The lanes of a vector in any of its three folded forms. */
  function CastLanes(operand: Constant, width: nat): Option<seq<Constant>> {
    if HasLanes(operand) then Some(LanesWritten(operand, width))
    else if operand.ZeroInitializer? && operand.ty.Vector? then Some(Copies(ZeroInitializer(operand.ty.element), width))
    else None
  }

  function FoldedLiteral(op: CastOp, operand: Constant, ty: Type): Option<Constant> {
    match op
    case Trunc =>
      if operand.Number? && BitWidth(ty).Some? then Some(Number(ty, operand.value % Pow2(BitWidth(ty).value))) else None
    case BitCast =>
      if operand.Number? && ty.Float? then Some(FloatBits(ty, operand.value))
      else if operand.FloatBits? && ty.Integer? then Some(Number(ty, operand.bits))
      else None
    case PtrToInt =>
      if (operand.Null? || operand.ZeroInitializer?) && BitWidth(ty).Some? then Some(Number(ty, 0)) else None
    case IntToPtr =>
      if (operand.Number? && operand.value == 0) || operand.ZeroInitializer? then Some(Null(ty)) else None
    case OtherCast(_) => None
  }

  /** A bitcast between vectors is answered when both have lanes of one width, and when the
  bits are all noughts or all ones, so that where the lanes begin makes no difference. */
  function FoldedRecut(operand: Constant, ty: Type): Option<Constant>
    requires IsFixedVector(ty) && IsFixedVector(operand.ty)
    decreases ty, 0
  {
    match operand
    case ZeroInitializer(_) => Some(ZeroInitializer(ty))
    case Undef(_) => Some(Undef(ty))
    case Poisoned(_) => Some(Poisoned(ty))
    case Splat(_, element) =>
      if IsAllOnes(element) && ty.element.Integer?
      then Some(Splat(ty, Number(ty.element, Pow2(ty.element.bits) - 1)))
      else None
    case Aggregate(_, elements) =>
      if operand.ty.count != ty.count then None
      else FoldLanes(ty, seq(|elements|, i requires 0 <= i < |elements| => FoldedCast(BitCast, elements[i], ty.element)))
    case _ => None
  }

  function FoldedCast(op: CastOp, operand: Constant, ty: Type): Option<Constant>
    decreases ty, 1
  {
    if operand.ty == ty then Some(operand)
    else if Undoes(op, operand, ty) then Some(operand.args[0])
    else if op.BitCast? && IsFixedVector(ty) && IsFixedVector(operand.ty) then FoldedRecut(operand, ty)
    else if !op.BitCast? && ty.Vector? then
      if ty.scalable then None
      else
        match CastLanes(operand, ty.count)
        case None => None
        case Some(lanes) =>
          FoldLanes(ty, seq(|lanes|, i requires 0 <= i < |lanes| => FoldedCast(op, lanes[i], ty.element)))
    else FoldedLiteral(op, operand, ty)
  }

  // ---------------------------------------------------------------- address walks

  function WidenTo(result: Type, c: Constant): Constant {
    if !IsFixedVector(result) || c.ty.Vector? then c
    else FoldAggregate(Vector(c.ty, result.count, false), Copies(c, result.count), true)
  }

  /** The scalar a vector of equal lanes stands for; anything else stays. */
  function NarrowStructIndex(index: Constant): Constant {
    match index
    case Splat(_, element) => element
    case Aggregate(ty, elements) => if ty.Vector? && elements != [] && AllSame(elements) then elements[0] else index
    case ZeroInitializer(ty) =>
      if ty.Vector? && ty.element.Integer? then Number(ty.element, 0) else index
    case _ => index
  }

  function ConstantIndex(index: Constant): Option<nat> {
    match index
    case Number(_, value) => if value < Pow2(64) then Some(value) else None
    case ZeroInitializer(_) => Some(0)
    case _ => None
  }

  function FieldNamed(fields: seq<Type>, index: Constant): Option<Type> {
    match ConstantIndex(index)
    case Some(i) => if i < |fields| then Some(fields[i]) else None
    case None => None
  }

  /** One index after the first, and the type it leads into; None from where types are no
  longer followed. */
  function WidenStep(result: Type, current: Option<Type>, index: Constant): (Constant, Option<Type>) {
    if current.Some? && current.value.Struct? then
      var narrow := NarrowStructIndex(index);
      (narrow, FieldNamed(current.value.fields, narrow))
    else
      (WidenTo(result, index),
       if current.Some? && (current.value.Array? || current.value.Vector?) then Some(current.value.element) else None)
  }

  function WidenRest(result: Type, current: Option<Type>, indices: seq<Constant>): (r: seq<Constant>)
    ensures |r| == |indices|
    decreases |indices|
  {
    if indices == [] then []
    else
      var (index, next) := WidenStep(result, current, indices[0]);
      [index] + WidenRest(result, next, indices[1..])
  }

  function WidenIndices(result: Type, source: Type, indices: seq<Constant>): (r: seq<Constant>)
    ensures |r| == |indices|
  {
    if indices == [] then [] else [WidenTo(result, indices[0])] + WidenRest(result, Some(source), indices[1..])
  }

  method WidenGepIndices(result: Type, source: Type, indices: seq<Constant>) returns (widened: seq<Constant>)
    ensures widened == WidenIndices(result, source, indices)
  {
    var current := Some(source);
    widened := [];
    for position := 0 to |indices|
      invariant position == 0 ==> widened == [] && current == Some(source)
      invariant position > 0 ==> WidensTo(result, source, indices, widened, current, position)
    {
      var index := indices[position];
      if position == 0 {
        widened := [WidenTo(result, index)];
      } else {
        var (narrow, next) := WidenStep(result, current, index);
        WidensStep(result, source, indices, widened, current, position);
        widened, current := widened + [narrow], next;
      }
    }
  }

  ghost predicate WidensTo(
    result: Type, source: Type, indices: seq<Constant>, widened: seq<Constant>, current: Option<Type>, n: nat)
  {
    n <= |indices| && widened + WidenRest(result, current, indices[n..]) == WidenIndices(result, source, indices)
  }

  lemma WidensStep(
    result: Type, source: Type, indices: seq<Constant>, widened: seq<Constant>, current: Option<Type>, n: nat)
    requires n < |indices| && WidensTo(result, source, indices, widened, current, n)
    ensures var (narrow, next) := WidenStep(result, current, indices[n]);
            WidensTo(result, source, indices, widened + [narrow], next, n + 1)
  {
    var (narrow, next) := WidenStep(result, current, indices[n]);
    var rest := WidenRest(result, next, indices[n + 1..]);
    assert indices[n..][1..] == indices[n + 1..];
    assert widened + ([narrow] + rest) == widened + [narrow] + rest;
  }

  function FoldGep(op: Operation, args: seq<Constant>, ty: Type): Constant
    requires op.Gep? && |args| > 0
  {
    var base, indices := args[0], WidenIndices(ty, op.source, args[1..]);
    if op.inrange.None? && AllZero(indices) then WidenTo(ty, base)
    else if base.Undef? then Undef(ty)
    else if base.Poisoned? then Poisoned(ty)
    else Expression(op, [base] + indices, ty)
  }

  function FoldExpression(op: Operation, args: seq<Constant>, ty: Type): Constant
    requires RightCount(op, |args|)
  {
    match op
    case Gep(_, _, _) => FoldGep(op, args, ty)
    case Binary(b, _, _) =>
      if ComputedBinary(b, args[0], args[1]).Some? then ComputedBinary(b, args[0], args[1]).value
      else if FoldedBinary(b, args[0], args[1]).Some? then FoldedBinary(b, args[0], args[1]).value
      else Expression(op, args, ty)
    case Cast(cast) =>
      if FoldedCast(cast, args[0], ty).Some? then FoldedCast(cast, args[0], ty).value else Expression(op, args, ty)
    case _ => Expression(op, args, ty)
  }

  // ---------------------------------------------------------------------- reading

  /** A constant as it is held once read: everything in it folded, innermost first. */
  function Read(c: Constant): Constant
    decreases c
  {
    match c
    case Aggregate(ty, elements) =>
      var read := ReadEach(elements);
      if ty.Struct? then FoldStruct(ty, read) else FoldAggregate(ty, read, ty.Vector?)
    case Splat(ty, element) => FoldSplat(ty, Read(element))
    case Expression(op, args, ty) =>
      if RightCount(op, |args|) then FoldExpression(op, ReadEach(args), ty) else c
    case _ => c
  }

  function ReadEach(cs: seq<Constant>): (r: seq<Constant>)
    ensures |r| == |cs|
    decreases cs
  {
    seq(|cs|, i requires 0 <= i < |cs| => Read(cs[i]))
  }
}
