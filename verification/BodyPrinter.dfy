/** Numbering and printing one function, from its arena. */
module BodyPrinter {
  import opened Wrappers
  import opened LocalNames
  import opened BodyParser
  import opened BodyRoundTrip

  // ------------------------------------------------ where items sit in the arena

  /** The items of the block at `k`: one instruction after another up to the next block. */
  lemma {:induction false} BlockShape(items: seq<Item>, ids: seq<nat>, k: nat, upTo: nat)
    requires |ids| == |items| && k < upTo <= |items| && items[k].Block?
    requires forall j :: k < j < upTo ==> items[j].Inst?
    ensures InstructionsOf(items, ids, k, upTo) == ids[k + 1..upTo] && BlockBefore(items, upTo) == k + 1
    ensures OrderOf(items, ids, upTo) == OrderOf(items, ids, k) + [ids[k]]
  {
    if upTo == k + 1 {
      NothingYet(items, ids, k);
    } else {
      BlockShape(items, ids, k, upTo - 1);
    }
  }

  lemma {:induction false} ClosedBlocksStay(items: seq<Item>, ids: seq<nat>, k: nat, from: nat, upTo: nat)
    requires |ids| == |items| && k < from <= upTo <= |items| && (from < upTo ==> items[from].Block?)
    ensures InstructionsOf(items, ids, k, upTo) == InstructionsOf(items, ids, k, from)
    ensures OrderOf(items, ids, from) <= OrderOf(items, ids, upTo)
    ensures from < upTo ==> BlockBefore(items, upTo) > from
  {
    if from < upTo {
      ClosedBlocksStay(items, ids, k, from, upTo - 1);
    }
  }

  /** The end of the block at `k`. */
  function BlockEnd(items: seq<Item>, k: nat): (end: nat)
    requires k < |items|
    ensures k < end <= |items|
    ensures forall j :: k < j < end ==> items[j].Inst?
    ensures end < |items| ==> !items[end].Inst?
    decreases |items| - k
  {
    if k + 1 < |items| && items[k + 1].Inst? then BlockEnd(items, k + 1) else k + 1
  }

  lemma BlockInArena(f: Function, ids: seq<nat>, items: seq<Item>, k: nat)
    requires WellFormed(items) && Realizes(f, ids, items) && k < |items| && items[k].Block?
    ensures var end, i := BlockEnd(items, k), |OrderOf(items, ids, k)|;
            && i < |f.order| && f.order[i] == ids[k] && ids[k] < |f.blocks|
            && f.blocks[ids[k]] == BasicBlock(items[k].name, ids[k + 1..end])
            && OrderOf(items, ids, end) == OrderOf(items, ids, k) + [ids[k]]
            && (end < |items| ==> items[end].Block?)
  {
    var end := BlockEnd(items, k);
    BlockShape(items, ids, k, end);
    if end < |items| {
      assert Follows(items, end);
    }
    ClosedBlocksStay(items, ids, k, end, |items|);
    assert InArena(f, ids, items, k);
    assert OrderOf(items, ids, end)[|OrderOf(items, ids, k)|] == ids[k];
  }

  // ---------------------------------------------------------------------- slots

  /** The numbers given out, and the next one. */
  datatype Slots = Slots(arguments: map<nat, nat>, blocks: map<BlockId, nat>, instructions: map<InstId, nat>, next: nat)

  const NoSlots := Slots(map[], map[], map[], 0)

  function NumberParams(f: Function, n: nat): Slots
    requires n <= |f.params|
  {
    if n == 0 then NoSlots
    else
      var s := NumberParams(f, n - 1);
      if f.params[n - 1].None? then s.(arguments := s.arguments[n - 1 := s.next], next := s.next + 1) else s
  }

  function NumberInstruction(f: Function, s: Slots, inst: InstId): Slots {
    if inst < |f.instructions| && f.instructions[inst].Some?
       && f.instructions[inst].value.name.None? && f.instructions[inst].value.produces
    then s.(instructions := s.instructions[inst := s.next], next := s.next + 1)
    else s
  }

  function NumberInstructions(f: Function, s: Slots, list: seq<InstId>, n: nat): Slots
    requires n <= |list|
  {
    if n == 0 then s else NumberInstruction(f, NumberInstructions(f, s, list, n - 1), list[n - 1])
  }

  function NumberLabel(f: Function, s: Slots, id: BlockId): Slots
    requires id < |f.blocks|
  {
    if f.blocks[id].name.None? then s.(blocks := s.blocks[id := s.next], next := s.next + 1) else s
  }

  function NumberBlock(f: Function, s: Slots, id: BlockId): Slots
    requires id < |f.blocks|
  {
    var list := f.blocks[id].instructions;
    NumberInstructions(f, NumberLabel(f, s, id), list, |list|)
  }

  function NumberBlocks(f: Function, s: Slots, n: nat): Slots
    requires n <= |f.order| && forall id :: id in f.order ==> id < |f.blocks|
  {
    if n == 0 then s
    else
      assert f.order[n - 1] in f.order;
      NumberBlock(f, NumberBlocks(f, s, n - 1), f.order[n - 1])
  }

  ghost predicate OrderInArena(f: Function) {
    forall id :: id in f.order ==> id < |f.blocks|
  }

  function SlotsOf(f: Function): Slots
    requires OrderInArena(f)
  {
    NumberBlocks(f, NumberParams(f, |f.params|), |f.order|)
  }

  class FunctionSlots {
    var arguments: map<nat, nat>
    var blocks: map<BlockId, nat>
    var instructions: map<InstId, nat>
    var next: nat

    function Value(): Slots
      reads this
    {
      Slots(arguments, blocks, instructions, next)
    }

    /** Every unnamed parameter, block and produced value takes the next number. */
    constructor Compute(f: Function)
      requires OrderInArena(f)
      ensures Value() == SlotsOf(f)
    {
      arguments, blocks, instructions, next := map[], map[], map[], 0;
      new;
      for index := 0 to |f.params|
        invariant Value() == NumberParams(f, index)
      {
        if f.params[index].None? {
          arguments := arguments[index := next];
          next := next + 1;
        }
      }
      ghost var params := NumberParams(f, |f.params|);
      for b := 0 to |f.order|
        invariant Value() == NumberBlocks(f, params, b)
      {
        var id := f.order[b];
        assert id in f.order;
        var block := f.blocks[id];
        if block.name.None? {
          blocks := blocks[id := next];
          next := next + 1;
        }
        ghost var labelled := NumberLabel(f, NumberBlocks(f, params, b), id);
        for i := 0 to |block.instructions|
          invariant Value() == NumberInstructions(f, labelled, block.instructions, i)
        {
          var inst := block.instructions[i];
          if inst < |f.instructions| && f.instructions[inst].Some? {
            var instruction := f.instructions[inst].value;
            if instruction.name.None? && instruction.produces {
              instructions := instructions[inst := next];
              next := next + 1;
            }
          }
        }
      }
    }
  }

  /** The numbers given out to the first `k` items are the counter's at each of them. */
  ghost predicate Numbered(items: seq<Item>, ids: seq<nat>, k: nat, s: Slots) {
    && k <= |items| && |ids| == |items| && s.next == Count(items, k)
    && forall j {:trigger SlotRight(items, ids, j, s)} :: 0 <= j < k ==> SlotRight(items, ids, j, s)
  }

  ghost predicate SlotRight(items: seq<Item>, ids: seq<nat>, j: nat, s: Slots)
    requires j < |items| == |ids|
  {
    TakesNumber(items[j]) ==>
      match items[j]
      case Param(_) => j in s.arguments && s.arguments[j] == Count(items, j)
      case Block(_) => ids[j] in s.blocks && s.blocks[ids[j]] == Count(items, j)
      case Inst(_, _, _, _, _) => ids[j] in s.instructions && s.instructions[ids[j]] == Count(items, j)
  }

  lemma {:induction false} ParamsNumbered(f: Function, ids: seq<nat>, items: seq<Item>, n: nat)
    requires WellFormed(items) && Realizes(f, ids, items) && n <= |f.params|
    ensures n <= |items| && Numbered(items, ids, n, NumberParams(f, n))
  {
    ParamsFill(f, ids, items);
    if n > 0 {
      ParamsNumbered(f, ids, items, n - 1);
      var s, t := NumberParams(f, n - 1), NumberParams(f, n);
      forall j | 0 <= j < n ensures SlotRight(items, ids, j, t) {
        assert items[j].Param?;
        if j < n - 1 {
          assert SlotRight(items, ids, j, s);
        }
      }
    }
  }

  lemma LabelNumbered(f: Function, ids: seq<nat>, items: seq<Item>, k: nat, s: Slots)
    requires Realizes(f, ids, items) && Numbered(items, ids, k, s) && k < |items| && items[k].Block?
    ensures ids[k] < |f.blocks| && Numbered(items, ids, k + 1, NumberLabel(f, s, ids[k]))
  {
    assert InArena(f, ids, items, k);
    var t := NumberLabel(f, s, ids[k]);
    forall j | 0 <= j < k + 1 ensures SlotRight(items, ids, j, t) {
      if j < k {
        assert SlotRight(items, ids, j, s) && Apart(items, ids, j, k);
      }
    }
  }

  lemma InstructionNumbered(f: Function, ids: seq<nat>, items: seq<Item>, k: nat, s: Slots)
    requires Realizes(f, ids, items) && Numbered(items, ids, k, s) && k < |items| && items[k].Inst?
    ensures Numbered(items, ids, k + 1, NumberInstruction(f, s, ids[k]))
  {
    var t := NumberInstruction(f, s, ids[k]);
    assert InArena(f, ids, items, k);
    forall j | 0 <= j < k + 1 ensures SlotRight(items, ids, j, t) {
      if j < k {
        assert SlotRight(items, ids, j, s) && Apart(items, ids, j, k);
      }
    }
  }

  lemma {:induction false} InstructionsNumbered(f: Function, ids: seq<nat>, items: seq<Item>, k: nat, s: Slots,
                                                list: seq<InstId>, n: nat)
    requires Realizes(f, ids, items) && Numbered(items, ids, k, s) && k + n <= |items| && n <= |list|
    requires list <= ids[k..] && forall j :: k <= j < k + n ==> items[j].Inst?
    ensures Numbered(items, ids, k + n, NumberInstructions(f, s, list, n))
  {
    if n > 0 {
      InstructionsNumbered(f, ids, items, k, s, list, n - 1);
      assert list[n - 1] == ids[k + n - 1];
      InstructionNumbered(f, ids, items, k + n - 1, NumberInstructions(f, s, list, n - 1));
    }
  }

  lemma {:induction false} BlocksNumbered(f: Function, ids: seq<nat>, items: seq<Item>, n: nat) returns (k: nat)
    requires WellFormed(items) && Realizes(f, ids, items) && OrderInArena(f) && n <= |f.order|
    ensures k <= |items| && |OrderOf(items, ids, k)| == n && (k < |items| ==> items[k].Block?)
    ensures Numbered(items, ids, k, NumberBlocks(f, NumberParams(f, |f.params|), n))
  {
    ParamsFill(f, ids, items);
    if n == 0 {
      k := |f.params|;
      ParamsNumbered(f, ids, items, k);
    } else {
      var before := BlocksNumbered(f, ids, items, n - 1);
      BlocksLeft(f, ids, items, before);
      BlockInArena(f, ids, items, before);
      BlockNumbered(f, ids, items, before, NumberBlocks(f, NumberParams(f, |f.params|), n - 1));
      k := BlockEnd(items, before);
    }
  }

  lemma BlockNumbered(f: Function, ids: seq<nat>, items: seq<Item>, k: nat, s: Slots)
    requires WellFormed(items) && Realizes(f, ids, items) && Numbered(items, ids, k, s) && k < |items| && items[k].Block?
    ensures ids[k] < |f.blocks| && Numbered(items, ids, BlockEnd(items, k), NumberBlock(f, s, ids[k]))
  {
    BlockInArena(f, ids, items, k);
    LabelNumbered(f, ids, items, k, s);
    var list := f.blocks[ids[k]].instructions;
    assert list == ids[k + 1..BlockEnd(items, k)];
    InstructionsNumbered(f, ids, items, k + 1, NumberLabel(f, s, ids[k]), list, |list|);
  }

  /** The slots computed from the arena are the counter's at every item. */
  lemma SlotsAreCounts(f: Function, ids: seq<nat>, items: seq<Item>)
    requires WellFormed(items) && Realizes(f, ids, items)
    ensures OrderInArena(f)
    ensures Numbered(items, ids, |items|, NumberBlocks(f, NumberParams(f, |f.params|), |f.order|))
  {
    forall id | id in f.order ensures id < |f.blocks| {
      OrderHolds(items, ids, |items|, id);
      var j :| 0 <= j < |items| && items[j].Block? && ids[j] == id;
      assert InArena(f, ids, items, j);
    }
    var k := BlocksNumbered(f, ids, items, |f.order|);
    BlocksLeft(f, ids, items, k);
  }

  lemma {:induction false} ParamNamesPrefix(items: seq<Item>, n: nat, k: nat)
    requires WellFormed(items) && n == ParamCount(items) && k <= |items|
    ensures |ParamNames(items, k)| == if k < n then k else n
    ensures forall j :: 0 <= j < |ParamNames(items, k)| ==> items[j].Param? && ParamNames(items, k)[j] == items[j].name
  {
    if k > 0 {
      ParamNamesPrefix(items, n, k - 1);
      if k - 1 >= n {
        AfterParams(items, k - 1);
      }
    }
  }

  lemma ParamsFill(f: Function, ids: seq<nat>, items: seq<Item>)
    requires WellFormed(items) && Realizes(f, ids, items)
    ensures |f.params| == ParamCount(items) && |OrderOf(items, ids, |f.params|)| == 0
    ensures forall j :: 0 <= j < |f.params| ==> items[j].Param? && f.params[j] == items[j].name
    ensures |f.params| < |items| && items[|f.params|].Block?
  {
    ParamNamesPrefix(items, ParamCount(items), |items|);
    OnlyParams(items, ids[..ParamCount(items)], ParamCount(items));
    OrderIgnoresLater(items, ids[..ParamCount(items)], ids[ParamCount(items)..], 0, ParamCount(items));
    assert ids[..ParamCount(items)] + ids[ParamCount(items)..] == ids;
    EntryFollowsParams(items);
  }

  /** Blocks are left exactly when items are. */
  lemma BlocksLeft(f: Function, ids: seq<nat>, items: seq<Item>, k: nat)
    requires WellFormed(items) && Realizes(f, ids, items) && k <= |items|
    requires k < |items| ==> items[k].Block?
    ensures |OrderOf(items, ids, k)| < |f.order| <==> k < |items|
  {
    if k < |items| {
      BlockInArena(f, ids, items, k);
    }
  }

  // -------------------------------------------------------------------- printing

  const BadRef := Constant("%<badref>")

  function LocalName(name: Option<string>, slots: map<nat, nat>, id: nat): Option<Name> {
    match name
    case Some(text) => Some(Named(text))
    case None => if id in slots then Some(Number(slots[id])) else None
  }

  /** A use as it prints, from the arena and the slots. */
  function PrintValue(f: Function, s: Slots, v: Value): Written {
    match v
    case Const(text) => Constant(text)
    case Argument(index) =>
      if index >= |f.params| then BadRef
      else (match LocalName(f.params[index], s.arguments, index) case Some(n) => Local(n) case None => BadRef)
    case Instruction(id) =>
      if id >= |f.instructions| || f.instructions[id].None? then BadRef
      else (match LocalName(f.instructions[id].value.name, s.instructions, id) case Some(n) => Local(n) case None => BadRef)
    case BlockValue(id) =>
      if id >= |f.blocks| then BadRef
      else (match LocalName(f.blocks[id].name, s.blocks, id) case Some(n) => Target(n) case None => BadRef)
  }

  function PrintValues(f: Function, s: Slots, vs: seq<Value>): (r: seq<Written>)
    ensures |r| == |vs|
  {
    seq(|vs|, i requires 0 <= i < |vs| => PrintValue(f, s, vs[i]))
  }

  function PrintInstruction(f: Function, s: Slots, id: InstId): seq<Line> {
    if id >= |f.instructions| || f.instructions[id].None? then []
    else
      var i := f.instructions[id].value;
      [Line(if i.produces then LocalName(i.name, s.instructions, id) else None, i.produces,
            PrintValues(f, s, i.operands), i.terminator, i.text)]
  }

  function PrintInstructions(f: Function, s: Slots, list: seq<InstId>, n: nat): seq<Line>
    requires n <= |list|
  {
    if n == 0 then [] else PrintInstructions(f, s, list, n - 1) + PrintInstruction(f, s, list[n - 1])
  }

  function PrintLabel(f: Function, s: Slots, id: BlockId, isEntry: bool): seq<Line>
    requires id < |f.blocks|
  {
    var name := LocalName(f.blocks[id].name, s.blocks, id);
    if (f.blocks[id].name.None? && isEntry) || name.None? then [] else [Label(name.value)]
  }

  function PrintBlocks(f: Function, s: Slots, n: nat): seq<Line>
    requires OrderInArena(f) && n <= |f.order|
  {
    if n == 0 then []
    else
      assert f.order[n - 1] in f.order;
      var id := f.order[n - 1];
      PrintBlocks(f, s, n - 1) + PrintLabel(f, s, id, n == 1)
      + PrintInstructions(f, s, f.blocks[id].instructions, |f.blocks[id].instructions|)
  }

  function PrintParams(f: Function, s: Slots): (r: seq<Option<Name>>)
    ensures |r| == |f.params|
  {
    seq(|f.params|, i requires 0 <= i < |f.params| => LocalName(f.params[i], s.arguments, i))
  }

  function Print(f: Function): Text
    requires OrderInArena(f)
  {
    Text(PrintParams(f, SlotsOf(f)), PrintBlocks(f, SlotsOf(f), |f.order|))
  }

  /** One instruction as a line. */
  method PrintInst(f: Function, s: Slots, inst: InstId) returns (lines: seq<Line>)
    ensures lines == PrintInstruction(f, s, inst)
  {
    if inst >= |f.instructions| || f.instructions[inst].None? {
      return [];
    }
    var instr := f.instructions[inst].value;
    var operands: seq<Written> := [];
    for j := 0 to |instr.operands|
      invariant operands == PrintValues(f, s, instr.operands)[..j]
    {
      operands := operands + [PrintValue(f, s, instr.operands[j])];
    }
    assert operands == PrintValues(f, s, instr.operands);
    var result := if instr.produces then LocalName(instr.name, s.instructions, inst) else None;
    lines := [Line(result, instr.produces, operands, instr.terminator, instr.text)];
  }

  /** A block's label, which an unnamed entry block does without, and its instructions. */
  method PrintBlock(f: Function, s: Slots, id: BlockId, isEntry: bool) returns (lines: seq<Line>)
    requires id < |f.blocks|
    ensures var list := f.blocks[id].instructions;
            lines == PrintLabel(f, s, id, isEntry) + PrintInstructions(f, s, list, |list|)
  {
    var block := f.blocks[id];
    var shown := LocalName(block.name, s.blocks, id);
    var opening := if shown.Some? && (block.name.Some? || !isEntry) then [Label(shown.value)] else [];
    var body := PrintList(f, s, block.instructions);
    lines := opening + body;
  }

  method PrintList(f: Function, s: Slots, list: seq<InstId>) returns (lines: seq<Line>)
    ensures lines == PrintInstructions(f, s, list, |list|)
  {
    lines := [];
    for i := 0 to |list|
      invariant lines == PrintInstructions(f, s, list, i)
    {
      var more := PrintInst(f, s, list[i]);
      lines := lines + more;
    }
  }

  /** Printing a definition: its parameters, then block by block. */
  method PrintFunction(f: Function) returns (text: Text)
    requires OrderInArena(f)
    ensures text == Print(f)
  {
    var slots := new FunctionSlots.Compute(f);
    var s := slots.Value();
    var params := PrintParameters(f, s);
    var lines := PrintBody(f, s);
    text := Text(params, lines);
  }

  method PrintParameters(f: Function, s: Slots) returns (params: seq<Option<Name>>)
    ensures params == PrintParams(f, s)
  {
    params := [];
    for index := 0 to |f.params|
      invariant params == PrintParams(f, s)[..index]
    {
      params := params + [LocalName(f.params[index], s.arguments, index)];
    }
  }

  method PrintBody(f: Function, s: Slots) returns (lines: seq<Line>)
    requires OrderInArena(f)
    ensures lines == PrintBlocks(f, s, |f.order|)
  {
    lines := [];
    for b := 0 to |f.order|
      invariant lines == PrintBlocks(f, s, b)
    {
      assert f.order[b] in f.order;
      var more := PrintBlock(f, s, f.order[b], b == 0);
      Regroup(lines, PrintLabel(f, s, f.order[b], b == 0),
              PrintInstructions(f, s, f.blocks[f.order[b]].instructions, |f.blocks[f.order[b]].instructions|));
      lines := lines + more;
    }
  }

  // ------------------------------------------------ what is printed is the body's text

  lemma NamePrinted(f: Function, ids: seq<nat>, items: seq<Item>, j: nat, s: Slots)
    requires WellFormed(items) && Realizes(f, ids, items) && j < |items| && Numbered(items, ids, |items|, s)
    ensures items[j].Param? ==> j < |f.params| && LocalName(f.params[j], s.arguments, j) == Some(NameAt(items, j))
    ensures items[j].Block? ==> ids[j] < |f.blocks| && LocalName(f.blocks[ids[j]].name, s.blocks, ids[j]) == Some(NameAt(items, j))
    ensures items[j].Inst? ==> ids[j] < |f.instructions| && f.instructions[ids[j]].Some?
    ensures items[j].Inst? && items[j].produces ==>
              LocalName(f.instructions[ids[j]].value.name, s.instructions, ids[j]) == Some(NameAt(items, j))
  {
    assert InArena(f, ids, items, j) && SlotRight(items, ids, j, s);
    if items[j].Param? {
      ParamsFill(f, ids, items);
      ParamsComeFirst(items, j);
    }
  }

  lemma OperandPrinted(f: Function, ids: seq<nat>, items: seq<Item>, operand: Operand, v: Value, s: Slots)
    requires WellFormed(items) && Realizes(f, ids, items) && Numbered(items, ids, |items|, s)
    requires TargetOk(items, operand) && OperandIs(items, ids, operand, v)
    ensures PrintValue(f, s, v) == WriteOperand(items, operand)
  {
    if operand.To? {
      NamePrinted(f, ids, items, operand.at, s);
    }
  }

  lemma InstructionPrinted(f: Function, ids: seq<nat>, items: seq<Item>, k: nat, s: Slots)
    requires WellFormed(items) && Realizes(f, ids, items) && Numbered(items, ids, |items|, s)
    requires k < |items| && items[k].Inst?
    ensures PrintInstruction(f, s, ids[k]) == WriteItem(items, k)
  {
    NamePrinted(f, ids, items, k, s);
    assert InArena(f, ids, items, k);
    var i := f.instructions[ids[k]].value;
    forall n | 0 <= n < |i.operands|
      ensures PrintValues(f, s, i.operands)[n] == WriteOperands(items, items[k].operands)[n]
    {
      assert TargetOk(items, items[k].operands[n]);
      OperandPrinted(f, ids, items, items[k].operands[n], i.operands[n], s);
    }
    assert PrintValues(f, s, i.operands) == WriteOperands(items, items[k].operands);
  }

  /** What the items from `k` up to `upTo` are written as. */
  function WriteUpTo(items: seq<Item>, k: nat, upTo: nat): seq<Line>
    requires k <= upTo <= |items| && Targets(items)
    decreases upTo
  {
    if k == upTo then [] else WriteUpTo(items, k, upTo - 1) + WriteItem(items, upTo - 1)
  }

  lemma {:induction false} WriteSplits(items: seq<Item>, k: nat, m: nat)
    requires k <= m <= |items| && Targets(items)
    ensures WriteFrom(items, k) == WriteUpTo(items, k, m) + WriteFrom(items, m)
    decreases m
  {
    if k < m {
      WriteSplits(items, k, m - 1);
    }
  }

  lemma {:induction false} InstructionsPrinted(f: Function, ids: seq<nat>, items: seq<Item>, from: nat, k: nat, s: Slots,
                                               list: seq<InstId>, n: nat)
    requires WellFormed(items) && Realizes(f, ids, items) && Numbered(items, ids, |items|, s)
    requires from <= k && k + n <= |items| && n <= |list| && list <= ids[k..]
    requires forall j :: k <= j < k + n ==> items[j].Inst?
    ensures WriteUpTo(items, from, k) + PrintInstructions(f, s, list, n) == WriteUpTo(items, from, k + n)
  {
    if n > 0 {
      InstructionsPrinted(f, ids, items, from, k, s, list, n - 1);
      assert list[n - 1] == ids[k + n - 1];
      InstructionPrinted(f, ids, items, k + n - 1, s);
      Regroup(WriteUpTo(items, from, k), PrintInstructions(f, s, list, n - 1), PrintInstruction(f, s, list[n - 1]));
    }
  }

  lemma Regroup(a: seq<Line>, b: seq<Line>, c: seq<Line>)
    ensures a + (b + c) == a + b + c
  {
  }

  lemma BlockPrinted(f: Function, ids: seq<nat>, items: seq<Item>, k: nat, s: Slots)
    requires WellFormed(items) && Realizes(f, ids, items) && Numbered(items, ids, |items|, s)
    requires ParamCount(items) <= k < |items| && items[k].Block? && ids[k] < |f.blocks|
    ensures var list := f.blocks[ids[k]].instructions;
            WriteUpTo(items, ParamCount(items), k) + PrintLabel(f, s, ids[k], k == ParamCount(items))
            + PrintInstructions(f, s, list, |list|)
            == WriteUpTo(items, ParamCount(items), BlockEnd(items, k))
  {
    var list, from := f.blocks[ids[k]].instructions, ParamCount(items);
    BlockListed(f, ids, items, k);
    LabelPrinted(f, ids, items, k, s);
    InstructionsPrinted(f, ids, items, from, k + 1, s, list, |list|);
    BlockText(items, from, k, PrintLabel(f, s, ids[k], k == from), PrintInstructions(f, s, list, |list|));
  }

  lemma BlockListed(f: Function, ids: seq<nat>, items: seq<Item>, k: nat)
    requires WellFormed(items) && Realizes(f, ids, items) && k < |items| && items[k].Block?
    ensures ids[k] < |f.blocks|
    ensures var list := f.blocks[ids[k]].instructions;
            list <= ids[k + 1..] && k + 1 + |list| == BlockEnd(items, k)
  {
    BlockInArena(f, ids, items, k);
  }

  lemma BlockText(items: seq<Item>, from: nat, k: nat, opening: seq<Line>, body: seq<Line>)
    requires Targets(items) && from <= k < |items| && opening == WriteItem(items, k)
    ensures WriteUpTo(items, from, k) + opening + body == WriteUpTo(items, from, k + 1) + body
  {
  }

  lemma LabelPrinted(f: Function, ids: seq<nat>, items: seq<Item>, k: nat, s: Slots)
    requires WellFormed(items) && Realizes(f, ids, items) && Numbered(items, ids, |items|, s)
    requires ParamCount(items) <= k < |items| && items[k].Block?
    ensures ids[k] < |f.blocks| && PrintLabel(f, s, ids[k], k == ParamCount(items)) == WriteItem(items, k)
  {
    NamePrinted(f, ids, items, k, s);
    BlockInArena(f, ids, items, k);
  }

  lemma {:induction false} BlocksPrinted(f: Function, ids: seq<nat>, items: seq<Item>, s: Slots, n: nat) returns (k: nat)
    requires WellFormed(items) && Realizes(f, ids, items) && OrderInArena(f) && Numbered(items, ids, |items|, s)
    requires n <= |f.order|
    ensures ParamCount(items) <= k <= |items| && |OrderOf(items, ids, k)| == n && (k < |items| ==> items[k].Block?)
    ensures (k == ParamCount(items)) == (n == 0)
    ensures PrintBlocks(f, s, n) == WriteUpTo(items, ParamCount(items), k)
  {
    ParamsFill(f, ids, items);
    if n == 0 {
      k := |f.params|;
    } else {
      var before := BlocksPrinted(f, ids, items, s, n - 1);
      BlocksLeft(f, ids, items, before);
      BlockInArena(f, ids, items, before);
      NextBlockPrinted(f, ids, items, s, n, before);
      k := BlockEnd(items, before);
    }
  }

  lemma NextBlockPrinted(f: Function, ids: seq<nat>, items: seq<Item>, s: Slots, n: nat, k: nat)
    requires WellFormed(items) && Realizes(f, ids, items) && OrderInArena(f) && Numbered(items, ids, |items|, s)
    requires 0 < n <= |f.order| && ParamCount(items) <= k < |items| && items[k].Block?
    requires |OrderOf(items, ids, k)| == n - 1 && ((k == ParamCount(items)) == (n == 1))
    requires PrintBlocks(f, s, n - 1) == WriteUpTo(items, ParamCount(items), k)
    ensures PrintBlocks(f, s, n) == WriteUpTo(items, ParamCount(items), BlockEnd(items, k))
  {
    BlockInArena(f, ids, items, k);
    BlockPrinted(f, ids, items, k, s);
  }

  /** The printer writes the body's text, whatever order the arena holds it in. */
  lemma PrintsTheBody(f: Function, ids: seq<nat>, items: seq<Item>)
    requires WellFormed(items) && Realizes(f, ids, items)
    ensures OrderInArena(f) && Print(f) == Write(items)
  {
    SlotsAreCounts(f, ids, items);
    var s := SlotsOf(f);
    ParamsFill(f, ids, items);
    forall i | 0 <= i < |f.params| ensures PrintParams(f, s)[i] == Write(items).params[i] {
      NamePrinted(f, ids, items, i, s);
    }
    var k := BlocksPrinted(f, ids, items, s, |f.order|);
    BlocksLeft(f, ids, items, k);
    WriteSplits(items, ParamCount(items), |items|);
  }

  /** Two functions that are one body: the same items, whatever ids they have. */
  ghost predicate SameBody(f: Function, g: Function) {
    exists items, ids, ids' :: WellFormed(items) && Realizes(f, ids, items) && Realizes(g, ids', items)
  }

  /** Printing a function and reading the text back gives the same body, with nothing left
  reserved. */
  lemma PrintedReadsBack(f: Function, ids: seq<nat>, items: seq<Item>)
    requires WellFormed(items) && Realizes(f, ids, items)
    ensures OrderInArena(f) && Read(Print(f)).Ok?
    ensures SameBody(f, Read(Print(f)).value.f) && NothingPending(Read(Print(f)).value.f)
  {
    PrintsTheBody(f, ids, items);
    ReadingUndoesWriting(items);
    var g := Read(Print(f)).value.f;
    var ids' :| Realizes(g, ids', items);
  }
}
