/** Reading a function body: the arena it fills, the names it has met, and the counter
that says which number an unnamed item takes. */
module BodyParser {
  import opened Wrappers
  import opened LocalNames

  type InstId = nat
  type BlockId = nat

  datatype Value = Argument(index: nat) | Instruction(inst: InstId) | BlockValue(block: BlockId) | Const(text: string)

  datatype Instr = Instr(name: Option<string>, produces: bool, operands: seq<Value>, terminator: bool, text: string)

  datatype BasicBlock = BasicBlock(name: Option<string>, instructions: seq<InstId>)

  /** The function being filled: slots that are none have been reserved, not yet read. */
  datatype Function = Function(params: seq<Option<string>>, instructions: seq<Option<Instr>>,
                               blocks: seq<BasicBlock>, order: seq<BlockId>)

  /** The reader: the function, what each name stands for so far, and the next number. */
  datatype Reader = Reader(f: Function, params: map<Name, nat>, values: map<Name, InstId>,
                           blocks: map<Name, BlockId>, defined: set<string>, next: nat, current: Option<BlockId>)

  const EmptyFunction := Function([], [], [], [])
  const Start := Reader(EmptyFunction, map[], map[], map[], {}, 0, None)

  function NextAfter(next: nat, number: nat): nat {
    if next < number + 1 then number + 1 else next
  }

  function NameText(name: Name): Option<string> {
    if name.Named? then Some(name.text) else None
  }

  function ReadParam(r: Reader, written: Option<Name>): Reader {
    var index := |r.f.params|;
    match written
    case Some(Named(text)) =>
      r.(params := r.params[Named(text) := index], f := r.f.(params := r.f.params + [Some(text)]))
    case Some(Number(n)) =>
      r.(params := r.params[Number(n) := index], f := r.f.(params := r.f.params + [None]), next := NextAfter(r.next, n))
    case None =>
      r.(params := r.params[Number(r.next) := index], f := r.f.(params := r.f.params + [None]), next := r.next + 1)
  }

  function ReserveInstruction(r: Reader): Reader {
    r.(f := r.f.(instructions := r.f.instructions + [None]))
  }

  /** The slot of a label: the one it has, or a new empty one under that name. */
  function BlockByName(r: Reader, name: Name): (Reader, BlockId) {
    if name in r.blocks then (r, r.blocks[name])
    else
      var id := |r.f.blocks|;
      (r.(blocks := r.blocks[name := id], f := r.f.(blocks := r.f.blocks + [BasicBlock(NameText(name), [])])), id)
  }

  /** The value behind a name. A name seen before its definition gets an empty slot to fill. */
  function ValueByName(r: Reader, name: Name): (Reader, Value) {
    if name in r.params then (r, Argument(r.params[name]))
    else if name in r.values then (r, Instruction(r.values[name]))
    else
      var id := |r.f.instructions|;
      (ReserveInstruction(r).(values := r.values[name := id]), Instruction(id))
  }

  function ReadOperand(r: Reader, written: Written): (Reader, Value) {
    match written
    case Local(name) => ValueByName(r, name)
    case Target(name) => var (r1, id) := BlockByName(r, name); (r1, BlockValue(id))
    case Constant(text) => (r, Const(text))
  }

  function ReadOperands(r: Reader, written: seq<Written>): (Reader, seq<Value>) {
    if written == [] then (r, [])
    else
      var (r1, before) := ReadOperands(r, written[..|written| - 1]);
      var (r2, last) := ReadOperand(r1, written[|written| - 1]);
      (r2, before + [last])
  }

  function PlaceBlock(r: Reader, id: BlockId): Reader {
    r.(f := r.f.(order := r.f.order + [id]), current := Some(id))
  }

  /** The slot the result name of an instruction stands for, before its operands. */
  function ReserveResult(r: Reader, name: Name): (Reader, InstId) {
    if name in r.values then (r, r.values[name])
    else (ReserveInstruction(r).(values := r.values[name := |r.f.instructions|]), |r.f.instructions|)
  }

  function ReadResult(r: Reader, result: Option<Name>): Result<(Reader, Option<InstId>), string> {
    match result
    case None => Ok((r, None))
    case Some(Named(text)) =>
      if text in r.defined then Err("redefinition of a value")
      else
        var (r1, id) := ReserveResult(r.(defined := r.defined + {text}), Named(text));
        Ok((r1, Some(id)))
    case Some(Number(n)) =>
      var (r1, id) := ReserveResult(r, Number(n));
      Ok((r1.(next := NextAfter(r1.next, n)), Some(id)))
  }

  /** The slot of an instruction once its operands are read. Without a written result,
  a value still consumes a number. */
  function SlotFor(r: Reader, reserved: Option<InstId>, produces: bool): (Reader, InstId) {
    match reserved
    case Some(id) => (r, id)
    case None =>
      if !produces then (ReserveInstruction(r), |r.f.instructions|)
      else
        var (r1, id) := ReserveResult(r, Number(r.next));
        (r1.(next := r1.next + 1), id)
  }

  function Define(r: Reader, id: InstId, instr: Instr): Reader
    requires id < |r.f.instructions|
  {
    r.(f := r.f.(instructions := r.f.instructions[id := Some(instr)]))
  }

  function Push(r: Reader, block: BlockId, id: InstId): Reader
    requires block < |r.f.blocks|
  {
    var b := r.f.blocks[block];
    r.(f := r.f.(blocks := r.f.blocks[block := b.(instructions := b.instructions + [id])]))
  }

  /** Every id the reader holds is an index into its arenas. */
  ghost predicate InBounds(r: Reader) {
    && (forall name :: name in r.values ==> r.values[name] < |r.f.instructions|)
    && (forall name :: name in r.blocks ==> r.blocks[name] < |r.f.blocks|)
    && (r.current.Some? ==> r.current.value < |r.f.blocks|)
  }

  /** Whether the block already ends in a terminator. */
  predicate Ended(f: Function, block: BlockId)
    requires block < |f.blocks|
  {
    var list := f.blocks[block].instructions;
    list != [] && list[|list| - 1] < |f.instructions| && f.instructions[list[|list| - 1]].Some?
    && f.instructions[list[|list| - 1]].value.terminator
  }

  lemma {:induction false} OperandsKeepBounds(r: Reader, written: seq<Written>)
    requires InBounds(r)
    ensures InBounds(ReadOperands(r, written).0)
    ensures |ReadOperands(r, written).0.f.instructions| >= |r.f.instructions|
    ensures |ReadOperands(r, written).0.f.blocks| >= |r.f.blocks|
  {
    if written != [] {
      OperandsKeepBounds(r, written[..|written| - 1]);
    }
  }

  /** One instruction into `block`. */
  function ReadInstruction(r: Reader, block: BlockId, line: Line): Result<Reader, string>
    requires InBounds(r) && line.Line? && block < |r.f.blocks|
  {
    var (r1, reserved) :- ReadResult(r, line.result);
    ResultKeepsBounds(r, line.result);
    OperandsKeepBounds(r1, line.operands);
    var (r2, operands) := ReadOperands(r1, line.operands);
    SlotKeepsBounds(r2, reserved, line.produces);
    var (r3, id) := SlotFor(r2, reserved, line.produces);
    var name := if line.result.Some? then NameText(line.result.value) else None;
    Ok(Push(Define(r3, id, Instr(name, line.produces, operands, line.terminator, line.text)), block, id))
  }

  /** A block with no label, which takes the next number. */
  function FreshBlock(r: Reader): Reader {
    var (r1, id) := BlockByName(r, Number(r.next));
    PlaceBlock(r1, id).(next := r1.next + 1)
  }

  function ReadLine(r: Reader, line: Line): Result<Reader, string>
    requires InBounds(r)
  {
    match line
    case Label(Named(text)) =>
      var (r1, id) := BlockByName(r, Named(text));
      if id in r1.f.order then Err("redefinition of a block")
      else
        var named := r1.f.blocks[id].(name := Some(text));
        Ok(PlaceBlock(r1.(f := r1.f.(blocks := r1.f.blocks[id := named])), id))
    case Label(Number(n)) =>
      var (r1, id) := BlockByName(r, Number(n));
      Ok(PlaceBlock(r1, id).(next := NextAfter(r1.next, n)))
    case Line(_, _, _, _, _) =>
      if r.current.None? then Err("an instruction outside any block")
      else if Ended(r.f, r.current.value) then
        var r1 := FreshBlock(r);
        ReadInstruction(r1, r1.current.value, line)
      else ReadInstruction(r, r.current.value, line)
  }

  lemma ResultKeepsBounds(r: Reader, result: Option<Name>)
    requires InBounds(r) && ReadResult(r, result).Ok?
    ensures var (r1, reserved) := ReadResult(r, result).value;
            && InBounds(r1) && r1.f.blocks == r.f.blocks
            && (reserved.Some? ==> reserved.value < |r1.f.instructions|)
  {
  }

  lemma SlotKeepsBounds(r: Reader, reserved: Option<InstId>, produces: bool)
    requires InBounds(r) && (reserved.Some? ==> reserved.value < |r.f.instructions|)
    ensures var (r1, id) := SlotFor(r, reserved, produces);
            InBounds(r1) && r1.f.blocks == r.f.blocks && id < |r1.f.instructions|
  {
  }

  lemma InstructionKeepsBounds(r: Reader, block: BlockId, line: Line)
    requires InBounds(r) && line.Line? && block < |r.f.blocks|
    requires ReadInstruction(r, block, line).Ok?
    ensures InBounds(ReadInstruction(r, block, line).value)
  {
    ResultKeepsBounds(r, line.result);
    var (r1, reserved) := ReadResult(r, line.result).value;
    OperandsKeepBounds(r1, line.operands);
    SlotKeepsBounds(ReadOperands(r1, line.operands).0, reserved, line.produces);
  }

  lemma LineKeepsBounds(r: Reader, line: Line)
    requires InBounds(r) && ReadLine(r, line).Ok?
    ensures InBounds(ReadLine(r, line).value)
  {
    if line.Line? {
      if Ended(r.f, r.current.value) {
        var r1 := FreshBlock(r);
        InstructionKeepsBounds(r1, r1.current.value, line);
      } else {
        InstructionKeepsBounds(r, r.current.value, line);
      }
    }
  }

  function ReadLines(r: Reader, lines: seq<Line>): Result<Reader, string>
    requires InBounds(r)
    decreases |lines|
  {
    if lines == [] then Ok(r)
    else
      var r1 :- ReadLine(r, lines[0]);
      LineKeepsBounds(r, lines[0]);
      ReadLines(r1, lines[1..])
  }

  function ReadParams(params: seq<Option<Name>>, n: nat): Reader
    requires n <= |params|
  {
    if n == 0 then Start else ReadParam(ReadParams(params, n - 1), params[n - 1])
  }

  lemma {:induction false} ParamsKeepBounds(params: seq<Option<Name>>, n: nat)
    requires n <= |params|
    ensures var r := ReadParams(params, n); InBounds(r) && r.f.blocks == [] && r.f.order == []
                                            && r.f.instructions == [] && r.current == None
                                            && r.values == map[] && r.blocks == map[] && r.defined == {}
  {
    if n > 0 {
      ParamsKeepBounds(params, n - 1);
    }
  }

  /** A whole definition. A body that does not open with a label opens a block itself. */
  function Read(text: Text): Result<Reader, string> {
    var r := ReadParams(text.params, |text.params|);
    ParamsKeepBounds(text.params, |text.params|);
    if text.lines != [] && text.lines[0].Label? then ReadLines(r, text.lines)
    else ReadLines(FreshBlock(r), text.lines)
  }
}
