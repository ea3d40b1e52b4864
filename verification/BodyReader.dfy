/** The reader as it works: a function filled in place while the names met so far, and the
next number, are kept beside it. Each method does to the fields what the reader of
`BodyParser` does to a value. */
module BodyReaders {
  import opened Wrappers
  import opened LocalNames
  import opened BodyParser
  import opened BodyRoundTrip
  import opened BodyPrinter

  class BodyReader {
    var paramNames: seq<Option<string>>
    var instructions: seq<Option<Instr>>
    var basicBlocks: seq<BasicBlock>
    var order: seq<BlockId>

    var params: map<Name, nat>
    var values: map<Name, InstId>
    var blocks: map<Name, BlockId>
    var defined: set<string>
    var next: nat
    var current: Option<BlockId>

    function State(): Reader
      reads this
    {
      Reader(Function(paramNames, instructions, basicBlocks, order), params, values, blocks, defined, next, current)
    }

    constructor ()
      ensures State() == Start
    {
      paramNames, instructions, basicBlocks, order := [], [], [], [];
      params, values, blocks, defined, next, current := map[], map[], map[], {}, 0, None;
    }

    method TakeParam(written: Option<Name>)
      modifies this
      ensures State() == ReadParam(old(State()), written)
    {
      var index := |paramNames|;
      match written {
        case Some(Named(text)) =>
          params := params[Named(text) := index];
          paramNames := paramNames + [Some(text)];
        case Some(Number(n)) =>
          params := params[Number(n) := index];
          next := if next < n + 1 then n + 1 else next;
          paramNames := paramNames + [None];
        case None =>
          params := params[Number(next) := index];
          next := next + 1;
          paramNames := paramNames + [None];
      }
    }

    method ReserveSlot() returns (id: InstId)
      modifies this
      ensures State() == ReserveInstruction(old(State())) && id == |old(instructions)|
    {
      id := |instructions|;
      instructions := instructions + [None];
    }

    method FindBlock(name: Name) returns (id: BlockId)
      modifies this
      ensures (State(), id) == BlockByName(old(State()), name)
    {
      if name in blocks {
        return blocks[name];
      }
      id := |basicBlocks|;
      basicBlocks := basicBlocks + [BasicBlock(NameText(name), [])];
      blocks := blocks[name := id];
    }

    method FindValue(name: Name) returns (v: Value)
      modifies this
      ensures (State(), v) == ValueByName(old(State()), name)
    {
      if name in params {
        return Argument(params[name]);
      }
      if name in values {
        return Instruction(values[name]);
      }
      var id := ReserveSlot();
      values := values[name := id];
      v := Instruction(id);
    }

    method TakeOperands(written: seq<Written>) returns (vs: seq<Value>)
      modifies this
      ensures (State(), vs) == ReadOperands(old(State()), written)
    {
      vs := [];
      for i := 0 to |written|
        invariant (State(), vs) == ReadOperands(old(State()), written[..i])
      {
        assert written[..i + 1][..i] == written[..i] && written[..i + 1][i] == written[i];
        var v: Value;
        match written[i] {
          case Local(name) => v := FindValue(name);
          case Target(name) => var id := FindBlock(name); v := BlockValue(id);
          case Constant(text) => v := Const(text);
        }
        vs := vs + [v];
      }
      assert written[..|written|] == written;
    }

    method FindResult(name: Name) returns (id: InstId)
      modifies this
      ensures (State(), id) == ReserveResult(old(State()), name)
    {
      if name in values {
        return values[name];
      }
      id := ReserveSlot();
      values := values[name := id];
    }

    method TakeResult(result: Option<Name>) returns (r: Result<Option<InstId>, string>)
      modifies this
      ensures r.Err? <==> ReadResult(old(State()), result).Err?
      ensures r.Ok? ==> ReadResult(old(State()), result) == Ok((State(), r.value))
    {
      match result {
        case None =>
          return Ok(None);
        case Some(Named(text)) =>
          if text in defined {
            return Err("redefinition of a value");
          }
          defined := defined + {text};
          var id := FindResult(Named(text));
          return Ok(Some(id));
        case Some(Number(n)) =>
          var id := FindResult(Number(n));
          next := if next < n + 1 then n + 1 else next;
          return Ok(Some(id));
      }
    }

    method Place(id: BlockId)
      modifies this
      ensures State() == PlaceBlock(old(State()), id)
    {
      order := order + [id];
      current := Some(id);
    }

    method OpenFreshBlock()
      modifies this
      ensures State() == FreshBlock(old(State()))
    {
      var id := FindBlock(Number(next));
      Place(id);
      next := next + 1;
    }

    method TakeInstruction(block: BlockId, line: Line) returns (ok: bool)
      requires line.Line? && InBounds(State()) && block < |basicBlocks|
      modifies this
      ensures ok <==> ReadInstruction(old(State()), block, line).Ok?
      ensures ok ==> State() == ReadInstruction(old(State()), block, line).value
    {
      ghost var r := State();
      var reserved := TakeResult(line.result);
      if reserved.Err? {
        return false;
      }
      ResultKeepsBounds(r, line.result);
      OperandsKeepBounds(State(), line.operands);
      var operands := TakeOperands(line.operands);
      SlotKeepsBounds(State(), reserved.value, line.produces);
      var id := TakeSlot(reserved.value, line.produces);
      var name := if line.result.Some? then NameText(line.result.value) else None;
      Fill(block, id, Instr(name, line.produces, operands, line.terminator, line.text));
      ok := true;
    }

    method TakeSlot(reserved: Option<InstId>, produces: bool) returns (id: InstId)
      modifies this
      ensures (State(), id) == SlotFor(old(State()), reserved, produces)
    {
      if reserved.Some? {
        id := reserved.value;
      } else if produces {
        id := FindResult(Number(next));
        next := next + 1;
      } else {
        id := ReserveSlot();
      }
    }

    method Fill(block: BlockId, id: InstId, instr: Instr)
      requires id < |instructions| && block < |basicBlocks|
      modifies this
      ensures State() == Push(Define(old(State()), id, instr), block, id)
    {
      instructions := instructions[id := Some(instr)];
      var b := basicBlocks[block];
      basicBlocks := basicBlocks[block := b.(instructions := b.instructions + [id])];
    }

    method TakeLine(line: Line) returns (ok: bool)
      requires InBounds(State())
      modifies this
      ensures ok <==> ReadLine(old(State()), line).Ok?
      ensures ok ==> State() == ReadLine(old(State()), line).value
    {
      match line {
        case Label(name) =>
          var id := FindBlock(name);
          if name.Named? {
            if id in order {
              return false;
            }
            basicBlocks := basicBlocks[id := basicBlocks[id].(name := Some(name.text))];
            Place(id);
          } else {
            Place(id);
            next := if next < name.number + 1 then name.number + 1 else next;
          }
          ok := true;
        case Line(_, _, _, _, _) =>
          if current.None? {
            return false;
          }
          if Ended(Function(paramNames, instructions, basicBlocks, order), current.value) {
            OpenFreshBlock();
          }
          ok := TakeInstruction(current.value, line);
      }
    }

    /** A whole definition: the parameters, then the body line by line. */
    method ReadFunction(text: Text) returns (ok: bool)
      requires State() == Start
      modifies this
      ensures ok <==> Read(text).Ok?
      ensures ok ==> State() == Read(text).value
    {
      for i := 0 to |text.params|
        invariant State() == ReadParams(text.params, i)
      {
        TakeParam(text.params[i]);
      }
      ParamsKeepBounds(text.params, |text.params|);
      if !(text.lines != [] && text.lines[0].Label?) {
        OpenFreshBlock();
      }
      ghost var atBody := State();
      for i := 0 to |text.lines|
        invariant InBounds(State()) && ReadLines(atBody, text.lines) == ReadLines(State(), text.lines[i..])
      {
        assert text.lines[i..][0] == text.lines[i] && text.lines[i..][1..] == text.lines[i + 1..];
        ghost var before := State();
        var read := TakeLine(text.lines[i]);
        if !read {
          return false;
        }
        LineKeepsBounds(before, text.lines[i]);
      }
      assert text.lines[|text.lines|..] == [];
      ok := true;
    }
  }


  /** The printer, then the reader: the same body comes back. */
  method PrintAndReadBack(f: Function, ghost ids: seq<nat>, ghost items: seq<Item>) returns (g: Function)
    requires WellFormed(items) && Realizes(f, ids, items)
    ensures SameBody(f, g) && NothingPending(g)
  {
    PrintedReadsBack(f, ids, items);
    var text := PrintFunction(f);
    var reader := new BodyReader();
    var ok := reader.ReadFunction(text);
    g := reader.State().f;
  }
}
