/** The named structs reachable from a module, in the order a walk over its types,
constants and metadata first meets them. */
module TypeFinder {
  import opened Wrappers
  import opened DepthFirst

  type TypeId = nat
  type StructId = nat
  type ConstId = nat
  type MdId = nat

  datatype TypeKind =
    | NamedStruct(struct: StructId)
    | Struct(fields: seq<TypeId>)
    | ArrayOrVector(element: TypeId)
    | FunctionType(result: TypeId, params: seq<TypeId>)
    | TargetType(types: seq<TypeId>)
    | OtherType

  datatype ConstantKind =
    | Aggregate(elements: seq<ConstId>)
    | Splat(element: ConstId)
    | Expression(operands: seq<ConstId>, types: seq<TypeId>)
    | OtherConstant

  datatype Constant = Constant(ty: TypeId, kind: ConstantKind)

  datatype MdNode = Tuple(operands: seq<MdOperand>) | Specialized

  datatype MdOperand = Ref(id: MdId) | TypedValue(ty: TypeId, constant: Option<ConstId>) | InlineNode(node: MdNode) | NoOperand

  /** What the ids of a module stand for. A struct without a body is opaque. */
  datatype Context = Context(
    types: map<TypeId, TypeKind>, bodies: map<StructId, seq<TypeId>>, constants: map<ConstId, Constant>,
    metadata: map<MdId, MdNode>)

  // -------------------------------------------------------------------- what is walked

  datatype Node = OfType(ty: TypeId) | OfConstant(constant: ConstId) | OfMetadata(md: MdId)

  function OfTypes(ids: seq<TypeId>): (r: seq<Node>)
    ensures |r| == |ids|
  {
    seq(|ids|, i requires 0 <= i < |ids| => OfType(ids[i]))
  }

  function OfConstants(ids: seq<ConstId>): (r: seq<Node>)
    ensures |r| == |ids|
  {
    seq(|ids|, i requires 0 <= i < |ids| => OfConstant(ids[i]))
  }

  function InType(c: Context, kind: TypeKind): seq<TypeId> {
    match kind
    case NamedStruct(s) => if s in c.bodies then c.bodies[s] else []
    case Struct(fields) => fields
    case ArrayOrVector(element) => [element]
    case FunctionType(result, params) => [result] + params
    case TargetType(types) => types
    case OtherType => []
  }

  function InConstant(k: Constant): seq<Node> {
    [OfType(k.ty)] +
    match k.kind
    case Aggregate(elements) => OfConstants(elements)
    case Splat(element) => [OfConstant(element)]
    case Expression(operands, types) => OfConstants(operands) + OfTypes(types)
    case OtherConstant => []
  }

  /** A tuple's operands; no other kind of node is entered. */
  function InNode(node: MdNode): seq<Node> {
    match node case Tuple(operands) => InOperands(operands) case Specialized => []
  }

  function InOperands(operands: seq<MdOperand>): seq<Node> {
    if operands == [] then [] else InOperand(operands[0]) + InOperands(operands[1..])
  }

  function InOperand(operand: MdOperand): seq<Node> {
    match operand
    case Ref(id) => [OfMetadata(id)]
    case TypedValue(ty, constant) => [OfType(ty)] + match constant { case Some(id) => [OfConstant(id)] case None => [] }
    case InlineNode(node) => InNode(node)
    case NoOperand => []
  }

  function Next(c: Context, n: Node): seq<Node> {
    match n
    case OfType(id) => if id in c.types then OfTypes(InType(c, c.types[id])) else []
    case OfConstant(id) => if id in c.constants then InConstant(c.constants[id]) else []
    case OfMetadata(id) => if id in c.metadata then InNode(c.metadata[id]) else []
  }

  function Nodes(c: Context): set<Node> {
    (set id | id in c.types :: OfType(id)) + (set id | id in c.constants :: OfConstant(id))
    + (set id | id in c.metadata :: OfMetadata(id))
  }

  ghost function Edges(c: Context): Graph<Node> {
    map n | n in Nodes(c) :: Next(c, n)
  }

  /** The structs among the nodes of a walk. */
  function Structs(c: Context, order: seq<Node>): seq<StructId> {
    if order == [] then []
    else
      Structs(c, order[..|order| - 1]) +
      match order[|order| - 1] {
        case OfType(id) => if id in c.types && c.types[id].NamedStruct? then [c.types[id].struct] else []
        case _ => []
      }
  }

  // ------------------------------------------------------------------ where it starts

  datatype Step =
    | OfTypeStep(ty: TypeId)
    | OfConstantStep(constant: ConstId)
    | OfMetadataStep(md: MdId)
    | OfNodeStep(node: MdNode)
    | OfOperandStep(operand: MdOperand)

  /** An instruction is what it mentions, in the order that is looked at, its own type first
  and its attachments last. */
  datatype Instruction = DebugRecord(operands: seq<MdOperand>) | Plain(mentions: seq<Step>)

  datatype Function = Function(signature: seq<Step>, blocks: seq<seq<Instruction>>)

  /** Globals, aliases and ifuncs as the steps they call for; functions as they print. */
  datatype Module = Module(values: seq<Step>, functions: seq<Function>, namedMetadata: seq<MdId>)

  function StepNodes(s: Step): seq<Node> {
    match s
    case OfTypeStep(id) => [OfType(id)]
    case OfConstantStep(id) => [OfConstant(id)]
    case OfMetadataStep(id) => [OfMetadata(id)]
    case OfNodeStep(node) => InNode(node)
    case OfOperandStep(operand) => InOperand(operand)
  }

  function StepsNodes(steps: seq<Step>): seq<Node> {
    if steps == [] then [] else StepNodes(steps[0]) + StepsNodes(steps[1..])
  }

  /** A debug record waits for the instruction below it, and is dropped if there is none. */
  function BlockNodes(block: seq<Instruction>, pending: seq<MdOperand>): seq<Node> {
    if block == [] then []
    else
      match block[0]
      case DebugRecord(operands) => BlockNodes(block[1..], pending + operands)
      case Plain(mentions) => StepsNodes(mentions) + InOperands(pending) + BlockNodes(block[1..], [])
  }

  function BlocksNodes(blocks: seq<seq<Instruction>>): seq<Node> {
    if blocks == [] then [] else BlockNodes(blocks[0], []) + BlocksNodes(blocks[1..])
  }

  function FunctionsNodes(functions: seq<Function>): seq<Node> {
    if functions == [] then []
    else StepsNodes(functions[0].signature) + BlocksNodes(functions[0].blocks) + FunctionsNodes(functions[1..])
  }

  function MdNodes(ids: seq<MdId>): (r: seq<Node>)
    ensures |r| == |ids|
  {
    seq(|ids|, i requires 0 <= i < |ids| => OfMetadata(ids[i]))
  }

  function Roots(m: Module): seq<Node> {
    StepsNodes(m.values) + FunctionsNodes(m.functions) + MdNodes(m.namedMetadata)
  }

  // -------------------------------------------------------------------------- the walk

  class Walk {
    const context: Context
    var seenTypes: set<TypeId>
    var seenConstants: set<ConstId>
    var seenMetadata: set<MdId>
    var found: seq<StructId>
    ghost var order: seq<Node>

    constructor (context: Context)
      ensures this.context == context && order == [] && Valid()
    {
      this.context := context;
      seenTypes, seenConstants, seenMetadata, found, order := {}, {}, {}, [], [];
    }

    /** The three sets say which nodes have been met, and what was found is the structs
    among them. */
    ghost predicate Valid()
      reads this
    {
      && (forall id :: id in context.types ==> (id in seenTypes <==> OfType(id) in order))
      && (forall id :: id in context.constants ==> (id in seenConstants <==> OfConstant(id) in order))
      && (forall id :: id in context.metadata ==> (id in seenMetadata <==> OfMetadata(id) in order))
      && found == Structs(context, order)
    }

    ghost function Unmet(): set<Node>
      reads this
    {
      Edges(context).Keys - Elements(order)
    }

    method Ty(id: TypeId)
      requires Valid()
      modifies this
      ensures Valid() && order == Dfs(Edges(context), old(order), [OfType(id)])
      decreases Unmet(), 0
    {
      ghost var g, n := Edges(context), OfType(id);
      DfsVisit(g, order, n);
      if id in seenTypes {
        assert n in g ==> n in order;
        return;
      }
      seenTypes := seenTypes + {id};
      if id !in context.types {
        return;
      }
      OneFewer(g, order, n);
      StructsAppend(context, order, n);
      order := order + [n];
      if context.types[id].NamedStruct? {
        found := found + [context.types[id].struct];
      }
      InsideType(context.types[id]);
    }

    method InsideType(kind: TypeKind)
      requires Valid()
      modifies this
      ensures Valid() && order == Dfs(Edges(context), old(order), OfTypes(InType(context, kind)))
      decreases Unmet(), 2
    {
      match kind
      case NamedStruct(struct) =>
        if struct in context.bodies {
          TyAll(context.bodies[struct]);
        }
      case Struct(fields) => TyAll(fields);
      case ArrayOrVector(element) =>
        assert OfTypes([element]) == [OfType(element)];
        Ty(element);
      case FunctionType(result, params) =>
        ghost var g, before := Edges(context), order;
        assert OfTypes([result] + params) == [OfType(result)] + OfTypes(params);
        DfsAppend(g, order, [OfType(result)], OfTypes(params));
        Ty(result);
        FewerLeft(g, before, order);
        TyAll(params);
      case TargetType(types) => TyAll(types);
      case OtherType =>
    }

    method TyAll(ids: seq<TypeId>)
      requires Valid()
      modifies this
      ensures Valid() && order == Dfs(Edges(context), old(order), OfTypes(ids))
      decreases Unmet(), 1
    {
      ghost var g, before := Edges(context), order;
      for i := 0 to |ids|
        invariant Valid() && before <= order
        invariant Dfs(g, before, OfTypes(ids)) == Dfs(g, order, OfTypes(ids[i..]))
      {
        assert OfTypes(ids[i..]) == [OfType(ids[i])] + OfTypes(ids[i + 1..]);
        DfsAppend(g, order, [OfType(ids[i])], OfTypes(ids[i + 1..]));
        FewerLeft(g, before, order);
        Ty(ids[i]);
      }
    }

    method Constant(id: ConstId)
      requires Valid()
      modifies this
      ensures Valid() && order == Dfs(Edges(context), old(order), [OfConstant(id)])
      decreases Unmet(), 0
    {
      ghost var g, n := Edges(context), OfConstant(id);
      DfsVisit(g, order, n);
      if id in seenConstants {
        assert n in g ==> n in order;
        return;
      }
      seenConstants := seenConstants + {id};
      if id !in context.constants {
        return;
      }
      OneFewer(g, order, n);
      StructsAppend(context, order, n);
      order := order + [n];
      InsideConstant(context.constants[id]);
    }

    method InsideConstant(k: Constant)
      requires Valid()
      modifies this
      ensures Valid() && order == Dfs(Edges(context), old(order), InConstant(k))
      decreases Unmet(), 2
    {
      ghost var g, before := Edges(context), order;
      DfsAppend(g, order, [OfType(k.ty)], InConstant(k)[1..]);
      Ty(k.ty);
      FewerLeft(g, before, order);
      ghost var typed := order;
      match k.kind
      case Aggregate(elements) => ConstantAll(elements);
      case Splat(element) => Constant(element);
      case Expression(operands, types) =>
        DfsAppend(g, order, OfConstants(operands), OfTypes(types));
        ConstantAll(operands);
        FewerLeft(g, typed, order);
        TyAll(types);
      case OtherConstant =>
    }

    method ConstantAll(ids: seq<ConstId>)
      requires Valid()
      modifies this
      ensures Valid() && order == Dfs(Edges(context), old(order), OfConstants(ids))
      decreases Unmet(), 1
    {
      ghost var g, before := Edges(context), order;
      for i := 0 to |ids|
        invariant Valid() && before <= order
        invariant Dfs(g, before, OfConstants(ids)) == Dfs(g, order, OfConstants(ids[i..]))
      {
        assert OfConstants(ids[i..]) == [OfConstant(ids[i])] + OfConstants(ids[i + 1..]);
        DfsAppend(g, order, [OfConstant(ids[i])], OfConstants(ids[i + 1..]));
        FewerLeft(g, before, order);
        Constant(ids[i]);
      }
    }

    method Md(id: MdId)
      requires Valid()
      modifies this
      ensures Valid() && order == Dfs(Edges(context), old(order), [OfMetadata(id)])
      decreases Unmet(), 0
    {
      ghost var g, n := Edges(context), OfMetadata(id);
      DfsVisit(g, order, n);
      if id in seenMetadata {
        assert n in g ==> n in order;
        return;
      }
      seenMetadata := seenMetadata + {id};
      if id in context.metadata {
        OneFewer(g, order, n);
        StructsAppend(context, order, n);
        order := order + [n];
        MdNode(context.metadata[id]);
      }
    }

    method MdNode(node: MdNode)
      requires Valid()
      modifies this
      ensures Valid() && order == Dfs(Edges(context), old(order), InNode(node))
      decreases Unmet(), 2, node
    {
      match node
      case Tuple(operands) => MdOperands(operands);
      case Specialized =>
    }

    method MdOperands(operands: seq<MdOperand>)
      requires Valid()
      modifies this
      ensures Valid() && order == Dfs(Edges(context), old(order), InOperands(operands))
      decreases Unmet(), 2, operands
    {
      ghost var g, before := Edges(context), order;
      for i := 0 to |operands|
        invariant Valid() && before <= order
        invariant Dfs(g, before, InOperands(operands)) == Dfs(g, order, InOperands(operands[i..]))
      {
        assert operands[i..][0] == operands[i] && operands[i..][1..] == operands[i + 1..];
        DfsAppend(g, order, InOperand(operands[i]), InOperands(operands[i + 1..]));
        FewerLeft(g, before, order);
        MdOperand(operands[i]);
      }
      assert operands[|operands|..] == [];
    }

    method MdOperand(operand: MdOperand)
      requires Valid()
      modifies this
      ensures Valid() && order == Dfs(Edges(context), old(order), InOperand(operand))
      decreases Unmet(), 2, operand
    {
      match operand
      case Ref(id) => Md(id);
      case TypedValue(ty, constant) =>
        ghost var g, before := Edges(context), order;
        DfsAppend(g, order, [OfType(ty)], InOperand(operand)[1..]);
        Ty(ty);
        FewerLeft(g, before, order);
        if constant.Some? {
          Constant(constant.value);
        }
      case InlineNode(node) => MdNode(node);
      case NoOperand =>
    }

    method Steps(steps: seq<Step>)
      requires Valid()
      modifies this
      ensures Valid() && order == Dfs(Edges(context), old(order), StepsNodes(steps))
    {
      ghost var g, before := Edges(context), order;
      for i := 0 to |steps|
        invariant Valid()
        invariant Dfs(g, before, StepsNodes(steps)) == Dfs(g, order, StepsNodes(steps[i..]))
      {
        assert steps[i..][0] == steps[i] && steps[i..][1..] == steps[i + 1..];
        DfsAppend(g, order, StepNodes(steps[i]), StepsNodes(steps[i + 1..]));
        match steps[i]
        case OfTypeStep(id) => Ty(id);
        case OfConstantStep(id) => Constant(id);
        case OfMetadataStep(id) => Md(id);
        case OfNodeStep(node) => MdNode(node);
        case OfOperandStep(operand) => MdOperand(operand);
      }
      assert steps[|steps|..] == [];
    }

    method Block(block: seq<Instruction>)
      requires Valid()
      modifies this
      ensures Valid() && order == Dfs(Edges(context), old(order), BlockNodes(block, []))
    {
      ghost var g, before := Edges(context), order;
      var pending: seq<MdOperand> := [];
      for i := 0 to |block|
        invariant Valid()
        invariant Dfs(g, before, BlockNodes(block, [])) == Dfs(g, order, BlockNodes(block[i..], pending))
      {
        assert block[i..][0] == block[i] && block[i..][1..] == block[i + 1..];
        match block[i]
        case DebugRecord(operands) => pending := pending + operands;
        case Plain(mentions) =>
          ghost var rest := BlockNodes(block[i + 1..], []);
          DfsAppend(g, order, StepsNodes(mentions) + InOperands(pending), rest);
          DfsAppend(g, order, StepsNodes(mentions), InOperands(pending));
          Steps(mentions);
          MdOperands(pending);
          pending := [];
      }
      assert block[|block|..] == [];
    }

    method Blocks(blocks: seq<seq<Instruction>>)
      requires Valid()
      modifies this
      ensures Valid() && order == Dfs(Edges(context), old(order), BlocksNodes(blocks))
    {
      ghost var g, before := Edges(context), order;
      for i := 0 to |blocks|
        invariant Valid()
        invariant Dfs(g, before, BlocksNodes(blocks)) == Dfs(g, order, BlocksNodes(blocks[i..]))
      {
        assert blocks[i..][0] == blocks[i] && blocks[i..][1..] == blocks[i + 1..];
        DfsAppend(g, order, BlockNodes(blocks[i], []), BlocksNodes(blocks[i + 1..]));
        Block(blocks[i]);
      }
      assert blocks[|blocks|..] == [];
    }

    method Functions(functions: seq<Function>)
      requires Valid()
      modifies this
      ensures Valid() && order == Dfs(Edges(context), old(order), FunctionsNodes(functions))
    {
      ghost var g, before := Edges(context), order;
      for i := 0 to |functions|
        invariant Valid()
        invariant Dfs(g, before, FunctionsNodes(functions)) == Dfs(g, order, FunctionsNodes(functions[i..]))
      {
        assert functions[i..][0] == functions[i] && functions[i..][1..] == functions[i + 1..];
        ghost var f := functions[i];
        DfsAppend(g, order, StepsNodes(f.signature) + BlocksNodes(f.blocks), FunctionsNodes(functions[i + 1..]));
        DfsAppend(g, order, StepsNodes(f.signature), BlocksNodes(f.blocks));
        Steps(functions[i].signature);
        Blocks(functions[i].blocks);
      }
      assert functions[|functions|..] == [];
    }
  }

  method ReachableNamedStructs(context: Context, m: Module) returns (found: seq<StructId>)
    ensures found == Structs(context, Dfs(Edges(context), [], Roots(m)))
  {
    var walk := new Walk(context);
    ghost var g := Edges(context);
    DfsAppend(g, [], StepsNodes(m.values) + FunctionsNodes(m.functions), MdNodes(m.namedMetadata));
    DfsAppend(g, [], StepsNodes(m.values), FunctionsNodes(m.functions));
    walk.Steps(m.values);
    walk.Functions(m.functions);
    ghost var before := walk.order;
    var ids := m.namedMetadata;
    for i := 0 to |ids|
      invariant walk.Valid() && fresh(walk) && walk.context == context
      invariant Dfs(g, before, MdNodes(ids)) == Dfs(g, walk.order, MdNodes(ids[i..]))
    {
      assert MdNodes(ids[i..]) == [OfMetadata(ids[i])] + MdNodes(ids[i + 1..]);
      DfsAppend(g, walk.order, [OfMetadata(ids[i])], MdNodes(ids[i + 1..]));
      walk.Md(ids[i]);
    }
    found := walk.found;
  }

  lemma StructsAppend(c: Context, order: seq<Node>, n: Node)
    ensures Structs(c, order + [n]) ==
      Structs(c, order) + match n {
        case OfType(id) => if id in c.types && c.types[id].NamedStruct? then [c.types[id].struct] else []
        case _ => []
      }
  {
    assert (order + [n])[..|order|] == order;
  }

  lemma OneFewer(g: Graph<Node>, order: seq<Node>, n: Node)
    requires n in g && n !in order
    ensures g.Keys - Elements(order + [n]) < g.Keys - Elements(order)
  {
    assert n in g.Keys - Elements(order);
  }

  lemma FewerLeft(g: Graph<Node>, before: seq<Node>, after: seq<Node>)
    requires before <= after
    ensures g.Keys - Elements(after) == g.Keys - Elements(before) || g.Keys - Elements(after) < g.Keys - Elements(before)
  {
  }

  // -------------------------------------------------------------------- what it finds

  /** Types are interned, so an identified struct is one type. */
  predicate StructsAreInterned(c: Context) {
    forall a, b :: a in c.types && b in c.types && c.types[a].NamedStruct? && c.types[a] == c.types[b] ==> a == b
  }

  ghost predicate Names(c: Context, id: TypeId, s: StructId) {
    id in c.types && c.types[id] == NamedStruct(s)
  }

  /** A struct some chain of types, constants and tuples leads to. */
  ghost predicate IsNeeded(c: Context, m: Module, s: StructId) {
    exists id: TypeId :: Names(c, id, s) && Reachable(Edges(c), Roots(m), OfType(id))
  }

  lemma {:induction false} StructsAreThose(c: Context, order: seq<Node>, s: StructId)
    ensures s in Structs(c, order) <==> exists id: TypeId :: Names(c, id, s) && OfType(id) in order
  {
    if order != [] {
      var init, n := order[..|order| - 1], order[|order| - 1];
      StructsAreThose(c, init, s);
      assert order == init + [n];
      StructsAppend(c, init, n);
      if n.OfType? && Names(c, n.ty, s) {
        assert OfType(n.ty) in order;
      }
    }
  }

  lemma {:induction false} StructsOnce(c: Context, order: seq<Node>)
    requires StructsAreInterned(c) && DepthFirst.Distinct(order)
    ensures DepthFirst.Distinct(Structs(c, order))
  {
    if order != [] {
      var init, n := order[..|order| - 1], order[|order| - 1];
      StructsOnce(c, init);
      assert order == init + [n];
      StructsAppend(c, init, n);
      if n.OfType? && n.ty in c.types && c.types[n.ty].NamedStruct? {
        StructsAreThose(c, init, c.types[n.ty].struct);
      }
    }
  }

  /** What is found is exactly the structs the module leads to, each once, in the order a
  preorder walk of what it mentions first meets them. */
  lemma FindsExactlyTheNeeded(c: Context, m: Module)
    ensures var order := Dfs(Edges(c), [], Roots(m));
            && IsPreorder(Edges(c), Roots(m), order)
            && (forall s :: s in Structs(c, order) <==> IsNeeded(c, m, s))
            && (StructsAreInterned(c) ==> DepthFirst.Distinct(Structs(c, order)))
  {
    var g, order := Edges(c), Dfs(Edges(c), [], Roots(m));
    DfsExact(g, Roots(m));
    DfsIsPreorder(g, Roots(m));
    forall s ensures s in Structs(c, order) <==> IsNeeded(c, m, s) {
      StructsAreThose(c, order, s);
    }
    if StructsAreInterned(c) {
      StructsOnce(c, order);
    }
  }
}
