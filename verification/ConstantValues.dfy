/** Constants, and what they may denote.

A constant denotes a set of values, since undef is any value at all; a value is a scalar,
a poisoned scalar, or the parts of an aggregate. */
module ConstantValues {
  import opened Wrappers
  import opened Layout
  import opened Powers

  datatype BinaryOp = Add | Sub | Xor

  datatype CastOp = Trunc | PtrToInt | IntToPtr | BitCast | OtherCast(name: string)

  datatype Operation =
    | Binary(op: BinaryOp, nuw: bool, nsw: bool)
    | Cast(cast: CastOp)
    | Gep(source: Type, flags: set<string>, inrange: Option<(int, int)>)
    | ExtractElement
    | InsertElement
    | ShuffleVector

  /** Constants are interned, so that two of them are the same when they are written the
  same way. `Symbol` is a constant only a linker or a target knows the value of. */
  datatype Constant =
    | Number(ty: Type, value: nat)
    | FloatBits(ty: Type, bits: nat)
    | Null(ty: Type)
    | Undef(ty: Type)
    | Poisoned(ty: Type)
    | ZeroInitializer(ty: Type)
    | Aggregate(ty: Type, elements: seq<Constant>)
    | Splat(ty: Type, element: Constant)
    | Symbol(ty: Type, name: string)
    | Expression(op: Operation, args: seq<Constant>, ty: Type)

  datatype Value = Poison | Bits(n: nat) | Many(parts: seq<Value>)

  /** What a module does not say: its target, how many times a scalable vector repeats,
  where symbols are, what the casts that are never folded do, and when a walk breaks the
  promises its flags make. */
  datatype Target = Target(
    layout: DataLayout, vscale: nat, little: bool,
    symbol: string -> nat,
    otherCast: (string, Type, Type, nat) -> Option<nat>,
    breaks: (Operation, seq<nat>) -> bool)

  // ----------------------------------------------------------------------- types

  predicate IsScalar(ty: Type) {
    ty.Integer? || ty.Float? || ty.Pointer?
  }

  predicate HasParts(ty: Type) {
    ty.Array? || ty.Vector? || ty.Struct?
  }

  function ScalarOf(ty: Type): Type {
    if ty.Vector? then ty.element else ty
  }

  function Width(e: Target, ty: Type): nat {
    match ty
    case Integer(bits) => bits
    case Float(width) => width
    case Pointer(space) => e.layout.PointerSpec(space).sizeBits
    case _ => 0
  }

  function PartCount(e: Target, ty: Type): nat
    requires HasParts(ty)
  {
    match ty
    case Array(_, count) => count
    case Vector(_, count, scalable) => if scalable then count * e.vscale else count
    case Struct(fields, _) => |fields|
  }

  function PartType(e: Target, ty: Type, i: nat): (part: Type)
    requires HasParts(ty) && i < PartCount(e, ty)
    ensures ty decreases to part
  {
    match ty
    case Array(element, _) => element
    case Vector(element, _, _) => element
    case Struct(fields, _) => fields[i]
  }

  /** How many lanes an operation on the type works on. */
  function LaneCount(e: Target, ty: Type): nat {
    if ty.Vector? then PartCount(e, ty) else 1
  }

  /** A scalar of some width, or a vector of them. */
  predicate IsLaned(e: Target, ty: Type) {
    IsScalar(ScalarOf(ty)) && Width(e, ScalarOf(ty)) > 0
  }

  predicate SameShape(a: Type, b: Type) {
    a.Vector? == b.Vector? && (a.Vector? ==> a.count == b.count && a.scalable == b.scalable)
  }

  // ---------------------------------------------------------------------- values

  ghost predicate OfType(e: Target, v: Value, ty: Type)
    decreases ty
  {
    if HasParts(ty) then
      && v.Many? && |v.parts| == PartCount(e, ty)
      && forall i :: 0 <= i < |v.parts| ==> OfType(e, v.parts[i], PartType(e, ty, i))
    else v.Poison? || (v.Bits? && v.n < Pow2(Width(e, ty)))
  }

  predicate Definite(v: Value) {
    match v
    case Poison => false
    case Bits(_) => true
    case Many(parts) => forall i :: 0 <= i < |parts| ==> Definite(parts[i])
  }

  /** The same scalar everywhere. */
  function Filled(e: Target, ty: Type, scalar: Value): (v: Value)
    decreases ty
  {
    if HasParts(ty) then
      Many(seq(PartCount(e, ty), i requires 0 <= i < PartCount(e, ty) => Filled(e, PartType(e, ty, i), scalar)))
    else scalar
  }

  /** A value may be replaced by another wherever it is poison. */
  ghost predicate Below(v: Value, w: Value)
    decreases w
  {
    w.Poison? || v == w ||
    (v.Many? && w.Many? && |v.parts| == |w.parts|
     && forall i :: 0 <= i < |w.parts| ==> Below(v.parts[i], w.parts[i]))
  }

  /** Lane `k`; a scalar stands for the same thing in every lane. */
  function Lane(v: Value, k: nat): Value {
    if !v.Many? then v else if k < |v.parts| then v.parts[k] else Poison
  }

  // ------------------------------------------------------------------------ bits

  function BitOf(n: nat, i: nat): bool {
    if i == 0 then n % 2 == 1 else BitOf(n / 2, i - 1)
  }

  function NumberOf(bits: seq<bool>): (n: nat)
    ensures n < Pow2(|bits|)
  {
    if bits == [] then 0 else (if bits[0] then 1 else 0) + 2 * NumberOf(bits[1..])
  }

  function BitsOf(n: nat, w: nat): seq<bool> {
    seq(w, i requires 0 <= i => BitOf(n, i))
  }

  lemma {:induction false} BitsRoundTrip(n: nat, w: nat)
    requires n < Pow2(w)
    ensures NumberOf(BitsOf(n, w)) == n
  {
    if w > 0 {
      BitsRoundTrip(n / 2, w - 1);
      assert BitsOf(n, w)[1..] == BitsOf(n / 2, w - 1);
    }
  }

  lemma {:induction false} NumberHasBits(bits: seq<bool>, i: nat)
    requires i < |bits|
    ensures BitOf(NumberOf(bits), i) == bits[i]
  {
    if i > 0 {
      NumberHasBits(bits[1..], i - 1);
    }
  }

  /** Where bit `i` of a lane of `w` bits lies in memory order, counting from the first bit
  of the lane. It is its own inverse. */
  function Place(e: Target, w: nat, i: nat): nat
    requires i < w
  {
    if e.little then i else w - 1 - i
  }

  /** Bit `p` of a value whose lanes are `w` bits wide; None where the lane is poison. */
  function BitAt(e: Target, v: Value, w: nat, p: nat): Option<bool>
    requires w > 0
  {
    var lane := Lane(v, p / w);
    if lane.Bits? then Some(BitOf(lane.n, Place(e, w, p % w))) else None
  }

  function RecutBit(e: Target, v: Value, from: nat, to: nat, k: nat, i: nat): Option<bool>
    requires from > 0 && i < to
  {
    BitAt(e, v, from, k * to + Place(e, to, i))
  }

  /** The bits that make lane `k` when lanes of `from` bits are cut again into lanes of `to`. */
  function RecutBits(e: Target, v: Value, from: nat, to: nat, k: nat): (bits: seq<Option<bool>>)
    requires from > 0
    ensures |bits| == to
  {
    seq(to, i requires 0 <= i < to => RecutBit(e, v, from, to, k, i))
  }

  predicate AllKnown(bits: seq<Option<bool>>) {
    forall i :: 0 <= i < |bits| ==> bits[i].Some?
  }

  function KnownBits(bits: seq<Option<bool>>): (r: seq<bool>)
    ensures |r| == |bits|
  {
    seq(|bits|, i requires 0 <= i < |bits| => bits[i] == Some(true))
  }

  function Assemble(bits: seq<Option<bool>>): Value {
    if AllKnown(bits) then Bits(NumberOf(KnownBits(bits))) else Poison
  }

  function Recut(e: Target, v: Value, from: nat, to: nat, k: nat): Value
    requires from > 0
  {
    Assemble(RecutBits(e, v, from, to, k))
  }

  // -------------------------------------------------------------------- operations

  function Signed(n: nat, w: nat): int {
    if w > 0 && n >= Pow2(w - 1) then n - Pow2(w) else n
  }

  function InWidth(n: int, w: nat): Value {
    Bits(n % Pow2(w))
  }

  predicate FitsSigned(n: int, w: nat) {
    w > 0 && 0 <= n + Pow2(w - 1) < Pow2(w)
  }

  /** Arithmetic wraps, and is poison where it breaks a promise not to. */
  function BinaryLane(op: Operation, w: nat, a: nat, b: nat): Value
    requires op.Binary?
  {
    if op.op.Xor? then Bits(NumberOf(seq(w, i requires 0 <= i => BitOf(a, i) != BitOf(b, i))))
    else
      var exact := if op.op.Add? then a + b else a - b;
      var signed := if op.op.Add? then Signed(a, w) + Signed(b, w) else Signed(a, w) - Signed(b, w);
      if (op.nuw && !(0 <= exact < Pow2(w))) || (op.nsw && !FitsSigned(signed, w)) then Poison else InWidth(exact, w)
  }

  function CastLane(e: Target, op: CastOp, from: Type, to: Type, n: nat): Value {
    if op.OtherCast? then
      match e.otherCast(op.name, from, to, n) case Some(m) => InWidth(m, Width(e, to)) case None => Poison
    else InWidth(n, Width(e, to))
  }

  function Stride(l: DataLayout, ty: Type): nat {
    match AllocSizeBytes(l, ty) case Ok(n) => n case Err(_) => 0
  }

  function StoreSize(l: DataLayout, ty: Type): nat {
    match SizeInBits(l, ty) case Ok(n) => DivCeil(n, 8) case Err(_) => 0
  }

  /** How far a list of indices moves into a value of the type. */
  function Walk(l: DataLayout, ty: Type, indices: seq<int>): int {
    if indices == [] then 0
    else
      var i, rest := indices[0], indices[1..];
      match ty
      case Array(element, _) => i * Stride(l, element) + Walk(l, element, rest)
      case Vector(element, _, _) => i * StoreSize(l, element) + Walk(l, element, rest)
      case Struct(fields, _) =>
        if 0 <= i < |fields| && StructLayout(l, ty).Ok?
        then StructLayout(l, ty).value.offsets[i] + Walk(l, fields[i], rest)
        else 0
      case _ => 0
  }

  /** How far indices move: the first by whole source types, the others within one. */
  function Distance(l: DataLayout, source: Type, indices: seq<int>): int {
    if indices == [] then 0 else indices[0] * Stride(l, source) + Walk(l, source, indices[1..])
  }

  function SignedAll(e: Target, types: seq<Type>, ns: seq<nat>): (r: seq<int>)
    requires |types| == |ns|
    ensures |r| == |ns|
  {
    seq(|ns|, i requires 0 <= i < |ns| => Signed(ns[i], Width(e, ScalarOf(types[i]))))
  }

  function Arity(op: Operation): nat {
    match op
    case Binary(_, _, _) => 2
    case Cast(_) => 1
    case Gep(_, _, _) => 1
    case ExtractElement => 2
    case InsertElement => 3
    case ShuffleVector => 3
  }

  predicate RightCount(op: Operation, n: nat) {
    n >= Arity(op) && (!op.Gep? ==> n == Arity(op))
  }

  /** What an operation that is poison wherever an operand is answers in one lane. */
  function LaneOp(e: Target, op: Operation, ty: Type, types: seq<Type>, ns: seq<nat>): Value
    requires (op.Binary? || op.Cast? || op.Gep?) && RightCount(op, |ns|) && |types| == |ns|
  {
    var scalar := ScalarOf(ty);
    match op
    case Binary(_, _, _) => BinaryLane(op, Width(e, scalar), ns[0], ns[1])
    case Cast(cast) => CastLane(e, cast, ScalarOf(types[0]), scalar, ns[0])
    case Gep(source, _, _) =>
      if e.breaks(op, ns) then Poison
      else InWidth(ns[0] + Distance(e.layout, source, SignedAll(e, types[1..], ns[1..])), Width(e, scalar))
  }

  function LanesAt(vs: seq<Value>, k: nat): (r: seq<Value>)
    ensures |r| == |vs|
  {
    seq(|vs|, i requires 0 <= i < |vs| => Lane(vs[i], k))
  }

  predicate AllBits(vs: seq<Value>) {
    forall i :: 0 <= i < |vs| ==> vs[i].Bits?
  }

  function Numbers(vs: seq<Value>): (r: seq<nat>)
    requires AllBits(vs)
    ensures |r| == |vs|
  {
    seq(|vs|, i requires 0 <= i < |vs| => vs[i].n)
  }

  function ResultLane(e: Target, op: Operation, ty: Type, types: seq<Type>, vs: seq<Value>, k: nat): Value
    requires RightCount(op, |vs|) && |types| == |vs|
  {
    if op == Cast(BitCast) then
      var from, to := Width(e, ScalarOf(types[0])), Width(e, ScalarOf(ty));
      if from == 0 then Poison else Recut(e, vs[0], from, to, k)
    else
      match op
      case ExtractElement => if vs[1].Bits? then Lane(vs[0], vs[1].n) else Poison
      case InsertElement =>
        if !vs[2].Bits? || vs[2].n >= LaneCount(e, ty) then Poison
        else if k == vs[2].n then vs[1] else Lane(vs[0], k)
      case ShuffleVector =>
        var n, m := LaneCount(e, types[0]), Lane(vs[2], k);
        if !m.Bits? then Poison else if m.n < n then Lane(vs[0], m.n) else Lane(vs[1], m.n - n)
      case _ =>
        if AllBits(LanesAt(vs, k)) then LaneOp(e, op, ty, types, Numbers(LanesAt(vs, k))) else Poison
  }

  function Apply(e: Target, op: Operation, ty: Type, types: seq<Type>, vs: seq<Value>): Value
    requires RightCount(op, |vs|) && |types| == |vs|
  {
    if ty.Vector? then Many(seq(LaneCount(e, ty), k requires 0 <= k => ResultLane(e, op, ty, types, vs, k)))
    else ResultLane(e, op, ty, types, vs, 0)
  }

  // ------------------------------------------------------------------------ meaning

  function Types(cs: seq<Constant>): (r: seq<Type>)
    ensures |r| == |cs|
  {
    seq(|cs|, i requires 0 <= i < |cs| => cs[i].ty)
  }

  ghost predicate Means(e: Target, c: Constant, v: Value)
    decreases c, 1
  {
    match c
    case Number(_, value) => v == Bits(value)
    case FloatBits(_, bits) => v == Bits(bits)
    case Null(_) => v == Bits(0)
    case Undef(ty) => OfType(e, v, ty) && Definite(v)
    case Poisoned(ty) => v == Filled(e, ty, Poison)
    case ZeroInitializer(ty) => v == Filled(e, ty, Bits(0))
    case Aggregate(_, elements) => v.Many? && MeanEach(e, elements, v.parts)
    case Splat(ty, element) => MeansInEach(e, element, LaneCount(e, ty), v)
    case Symbol(ty, name) => v == InWidth(e.symbol(name), Width(e, ty))
    case Expression(op, args, ty) =>
      exists vs: seq<Value> :: MeanOperands(e, op, ty, args, vs) && RightCount(op, |vs|) && v == Apply(e, op, ty, Types(args), vs)
  }

  ghost predicate MeanEach(e: Target, cs: seq<Constant>, vs: seq<Value>)
    decreases cs, 0
  {
    |vs| == |cs| && forall i :: 0 <= i < |cs| ==> Means(e, cs[i], vs[i])
  }

  /** Each of `n` lanes is some value of the constant. */
  ghost predicate MeansInEach(e: Target, c: Constant, n: nat, v: Value)
    decreases c, 2
  {
    v.Many? && |v.parts| == n && forall i :: 0 <= i < n ==> Means(e, c, v.parts[i])
  }

  predicate IsSpread(op: Operation, ty: Type, operand: Type) {
    op.Gep? && ty.Vector? && !operand.Vector?
  }

  /** An operand of an operation. A scalar in a walk that gives a vector is
  read once for each lane, and undef may be something else every time it is read. */
  ghost predicate MeansOperand(e: Target, op: Operation, ty: Type, c: Constant, v: Value)
    decreases c, 3
  {
    if IsSpread(op, ty, c.ty) then MeansInEach(e, c, LaneCount(e, ty), v) else Means(e, c, v)
  }

  ghost predicate MeanOperands(e: Target, op: Operation, ty: Type, cs: seq<Constant>, vs: seq<Value>)
    decreases cs, 0
  {
    |vs| == |cs| && forall i :: 0 <= i < |cs| ==> MeansOperand(e, op, ty, cs[i], vs[i])
  }

  ghost predicate MeansAbove(e: Target, c: Constant, v: Value) {
    exists w :: Means(e, c, w) && Below(v, w)
  }

  /** Everything the new constant may be, the old one may be too, or else is poison there. */
  ghost predicate Refines(e: Target, new_: Constant, old_: Constant) {
    forall v :: Means(e, new_, v) ==> MeansAbove(e, old_, v)
  }

  ghost predicate SameMeaning(e: Target, a: Constant, b: Constant) {
    forall v :: Means(e, a, v) <==> Means(e, b, v)
  }

  // ------------------------------------------------------------------------ typing

  predicate OpTyped(e: Target, op: Operation, types: seq<Type>, ty: Type) {
    && RightCount(op, |types|)
    && match op {
      case Binary(_, _, _) => types[0] == ty && types[1] == ty && IsLaned(e, ty) && ScalarOf(ty).Integer?
      case Cast(cast) => IsLaned(e, types[0]) && IsLaned(e, ty) && CastTyped(e, cast, types[0], ty)
      case Gep(_, _, _) =>
        && IsLaned(e, ty) && ScalarOf(ty).Pointer? && ScalarOf(types[0]) == ScalarOf(ty)
        && (forall i :: 0 <= i < |types| ==> SameShape(types[i], ty) || IsScalar(types[i]))
        && forall i :: 1 <= i < |types| ==> IsLaned(e, types[i]) && ScalarOf(types[i]).Integer?
      case ExtractElement => types[0].Vector? && types[0].element == ty && types[1].Integer? && IsLaned(e, types[0])
      case InsertElement => ty.Vector? && types[0] == ty && types[1] == ty.element && types[2].Integer? && IsLaned(e, ty)
      case ShuffleVector =>
        && ty.Vector? && types[0].Vector? && types[0] == types[1] && types[0].element == ty.element && IsLaned(e, ty)
        && SameShape(types[2], ty) && ScalarOf(types[2]).Integer?
    }
  }

  predicate CastTyped(e: Target, op: CastOp, from: Type, to: Type) {
    if op.BitCast? then
      LaneCount(e, from) * Width(e, ScalarOf(from)) == LaneCount(e, to) * Width(e, ScalarOf(to))
    else
      && SameShape(from, to)
      && match op {
        case Trunc => ScalarOf(from).Integer? && ScalarOf(to).Integer? && Width(e, ScalarOf(to)) < Width(e, ScalarOf(from))
        case PtrToInt => ScalarOf(from).Pointer? && ScalarOf(to).Integer?
        case IntToPtr => ScalarOf(from).Integer? && ScalarOf(to).Pointer?
        case _ => ScalarOf(from) != ScalarOf(to)
      }
  }

  predicate WellTyped(e: Target, c: Constant)
    decreases c
  {
    match c
    case Number(ty, value) => ty.Integer? && ty.bits > 0 && value < Pow2(ty.bits)
    case FloatBits(ty, bits) => ty.Float? && ty.width > 0 && bits < Pow2(ty.width)
    case Null(ty) => ty.Pointer?
    case Undef(_) => true
    case Poisoned(_) => true
    case ZeroInitializer(_) => true
    case Aggregate(ty, elements) =>
      && HasParts(ty) && |elements| == PartCount(e, ty) && (ty.Vector? ==> IsLaned(e, ty) && !ty.scalable)
      && forall i :: 0 <= i < |elements| ==> WellTyped(e, elements[i]) && elements[i].ty == PartType(e, ty, i)
    case Splat(ty, element) => ty.Vector? && IsLaned(e, ty) && element.ty == ty.element && WellTyped(e, element)
    case Symbol(ty, _) => IsScalar(ty)
    case Expression(op, args, ty) =>
      OpTyped(e, op, Types(args), ty) && forall i :: 0 <= i < |args| ==> WellTyped(e, args[i])
  }
}
