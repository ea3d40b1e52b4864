/** Reading back a printed body: after each item the reader holds that item, under its
name, in the slot every use of the name stands for. */
module BodyRoundTrip {
  import opened Wrappers
  import opened LocalNames
  import opened BodyParser

  // ------------------------------------------------------------- one function, one body

  function ParamNames(items: seq<Item>, k: nat): seq<Option<string>>
    requires k <= |items|
  {
    if k == 0 then [] else if items[k - 1].Param? then ParamNames(items, k - 1) + [items[k - 1].name] else ParamNames(items, k - 1)
  }

  /** The blocks among the first `k` items, by id. */
  function OrderOf(items: seq<Item>, ids: seq<nat>, k: nat): seq<nat>
    requires k <= |items| && k <= |ids|
  {
    if k == 0 then []
    else if items[k - 1].Block? then OrderOf(items, ids, k - 1) + [ids[k - 1]]
    else OrderOf(items, ids, k - 1)
  }

  /** The block the item before `k` is in: one past the place of its label, or nought. */
  function BlockBefore(items: seq<Item>, k: nat): (b: nat)
    requires k <= |items|
    ensures b <= k && (b > 0 ==> items[b - 1].Block?)
  {
    if k == 0 then 0 else if items[k - 1].Block? then k else BlockBefore(items, k - 1)
  }

  /** The instructions of the block at `b` among the first `k` items, by id. */
  function InstructionsOf(items: seq<Item>, ids: seq<nat>, b: nat, k: nat): seq<nat>
    requires k <= |items| && k <= |ids|
  {
    if k == 0 then []
    else if items[k - 1].Inst? && BlockBefore(items, k) == b + 1 then
      InstructionsOf(items, ids, b, k - 1) + [ids[k - 1]]
    else InstructionsOf(items, ids, b, k - 1)
  }

  ghost predicate OperandIs(items: seq<Item>, ids: seq<nat>, operand: Operand, v: Value) {
    match operand
    case Literal(text) => v == Const(text)
    case To(at) =>
      at < |items| && at < |ids|
      && match items[at]
         case Param(_) => v == Argument(at)
         case Block(_) => v == BlockValue(ids[at])
         case Inst(_, _, _, _, _) => v == Instruction(ids[at])
  }

  ghost predicate InstrIs(items: seq<Item>, ids: seq<nat>, item: Item, i: Instr)
    requires item.Inst?
  {
    && i.name == item.name && i.produces == item.produces && i.terminator == item.terminator && i.text == item.text
    && |i.operands| == |item.operands|
    && forall n :: 0 <= n < |item.operands| ==> OperandIs(items, ids, item.operands[n], i.operands[n])
  }

  /** `f` is the body `items`, item `k` being the parameter, block or instruction `ids[k]`:
  the same shape, and every use pointing at the item it names. */
  ghost predicate Realizes(f: Function, ids: seq<nat>, items: seq<Item>) {
    && |ids| == |items|
    && f.params == ParamNames(items, |items|)
    && f.order == OrderOf(items, ids, |items|)
    && (forall i, j {:trigger Apart(items, ids, i, j)} :: 0 <= i < j < |items| ==> Apart(items, ids, i, j))
    && (forall k {:trigger InArena(f, ids, items, k)} :: 0 <= k < |items| ==> InArena(f, ids, items, k))
  }

  /** Two blocks, and two instructions, have different ids. */
  predicate Apart(items: seq<Item>, ids: seq<nat>, i: nat, j: nat)
    requires i < |items| == |ids| && j < |items|
  {
    (items[i].Block? && items[j].Block?) || (items[i].Inst? && items[j].Inst?) ==> ids[i] != ids[j]
  }

  /** The arena holds the item under its id. */
  ghost predicate InArena(f: Function, ids: seq<nat>, items: seq<Item>, k: nat)
    requires k < |items| == |ids|
  {
    match items[k]
    case Param(_) => true
    case Block(name) =>
      ids[k] < |f.blocks| && f.blocks[ids[k]] == BasicBlock(name, InstructionsOf(items, ids, k, |items|))
    case Inst(_, _, _, _, _) =>
      && ids[k] < |f.instructions| && f.instructions[ids[k]].Some?
      && InstrIs(items, ids, items[k], f.instructions[ids[k]].value)
  }

  // ------------------------------------------------------------------ the invariant

  /** The names of the values instructions among the first `k` items produce. */
  function InstNames(items: seq<Item>, k: nat): set<Name>
    requires k <= |items|
  {
    if k == 0 then {}
    else InstNames(items, k - 1) + if items[k - 1].Inst? && items[k - 1].produces then {NameAt(items, k - 1)} else {}
  }

  function BlockNames(items: seq<Item>, k: nat): set<Name>
    requires k <= |items|
  {
    if k == 0 then {}
    else BlockNames(items, k - 1) + if items[k - 1].Block? then {NameAt(items, k - 1)} else {}
  }

  lemma {:induction false} InstNameOf(items: seq<Item>, k: nat, name: Name) returns (j: nat)
    requires k <= |items| && name in InstNames(items, k)
    ensures j < k && items[j].Inst? && items[j].produces && NameAt(items, j) == name
  {
    j := k - 1;
    if !(items[j].Inst? && items[j].produces && NameAt(items, j) == name) {
      j := InstNameOf(items, k - 1, name);
    }
  }

  lemma {:induction false} NamesOf(items: seq<Item>, j: nat, k: nat)
    requires j < k <= |items|
    ensures items[j].Inst? && items[j].produces ==> NameAt(items, j) in InstNames(items, k)
    ensures items[j].Block? ==> NameAt(items, j) in BlockNames(items, k)
  {
    if j < k - 1 {
      NamesOf(items, j, k - 1);
    }
  }

  /** Parameters are held under the names they are written with. */
  ghost predicate ParamsHeld(items: seq<Item>, k: nat, r: Reader) {
    && k <= |items|
    && (forall name :: name in r.params ==>
          r.params[name] < k && items[r.params[name]].Param? && NameAt(items, r.params[name]) == name)
    && (forall j {:trigger NameAt(items, j)} :: 0 <= j < k && items[j].Param? ==> NameAt(items, j) in r.params && r.params[NameAt(items, j)] == j)
  }

  /** Each name of a value has a slot of its own, empty until the value is read. */
  ghost predicate ValuesHeld(items: seq<Item>, k: nat, r: Reader, ids: seq<nat>) {
    && |ids| == k <= |items|
    && (forall name :: name in r.values ==>
          && name in InstNames(items, |items|) && r.values[name] < |r.f.instructions|
          && (r.f.instructions[r.values[name]].Some? ==> name in InstNames(items, k)))
    && (forall a, b :: a in r.values && b in r.values && r.values[a] == r.values[b] ==> a == b)
    && (forall j {:trigger NameAt(items, j)} :: 0 <= j < k && items[j].Inst? && items[j].produces ==>
          NameAt(items, j) in r.values && r.values[NameAt(items, j)] == ids[j])
  }

  ghost predicate BlocksHeld(items: seq<Item>, k: nat, r: Reader, ids: seq<nat>) {
    && |ids| == k <= |items|
    && (forall name :: name in r.blocks ==>
          && name in BlockNames(items, |items|) && r.blocks[name] < |r.f.blocks|
          && r.f.blocks[r.blocks[name]].name == NameText(name))
    && (forall a, b :: a in r.blocks && b in r.blocks && r.blocks[a] == r.blocks[b] ==> a == b)
    && (forall j {:trigger NameAt(items, j)} :: 0 <= j < k && items[j].Block? ==>
          NameAt(items, j) in r.blocks && r.blocks[NameAt(items, j)] == ids[j])
  }

  /** What a use stands for, through the name it is written with. */
  ghost predicate OperandRead(items: seq<Item>, r: Reader, operand: Operand, v: Value) {
    match operand
    case Literal(text) => v == Const(text)
    case To(at) =>
      at < |items|
      && match items[at]
         case Param(_) => v == Argument(at)
         case Block(_) => NameAt(items, at) in r.blocks && v == BlockValue(r.blocks[NameAt(items, at)])
         case Inst(_, _, _, _, _) => NameAt(items, at) in r.values && v == Instruction(r.values[NameAt(items, at)])
  }

  ghost predicate InstrRead(items: seq<Item>, r: Reader, item: Item, i: Instr)
    requires item.Inst?
  {
    && i.name == item.name && i.produces == item.produces && i.terminator == item.terminator && i.text == item.text
    && OperandsRead(items, r, item.operands, i.operands)
  }

  ghost predicate Filled(items: seq<Item>, k: nat, r: Reader, ids: seq<nat>) {
    && |ids| == k <= |items|
    && (forall j :: 0 <= j < k && items[j].Inst? ==>
          ids[j] < |r.f.instructions| && r.f.instructions[ids[j]].Some?
          && InstrRead(items, r, items[j], r.f.instructions[ids[j]].value))
    && (forall i, j :: 0 <= i < j < k && items[i].Inst? && items[j].Inst? ==> ids[i] != ids[j])
    && (forall name, j :: name in r.values && 0 <= j < k && items[j].Inst? && !items[j].produces ==>
          r.values[name] != ids[j])
  }

  /** Every slot is some name's or some instruction's. */
  ghost predicate Owned(items: seq<Item>, k: nat, r: Reader, ids: seq<nat>) {
    && |ids| == k <= |items|
    && (forall i :: 0 <= i < |r.f.instructions| ==>
          i in r.values.Values || exists j :: 0 <= j < k && items[j].Inst? && ids[j] == i)
    && (forall b :: 0 <= b < |r.f.blocks| ==> b in r.blocks.Values)
  }

  /** Each placed block lists its instructions so far. */
  ghost predicate BlockLists(items: seq<Item>, k: nat, f: Function, ids: seq<nat>) {
    && |ids| == k <= |items|
    && forall j {:trigger ids[j]} :: 0 <= j < k && items[j].Block? ==>
         ids[j] < |f.blocks| && f.blocks[ids[j]].instructions == InstructionsOf(items, ids, j, k)
  }

  ghost predicate UnplacedEmpty(f: Function) {
    forall b :: 0 <= b < |f.blocks| && b !in f.order ==> f.blocks[b].instructions == []
  }

  ghost predicate PlacedUpTo(items: seq<Item>, k: nat, r: Reader, ids: seq<nat>) {
    && |ids| == k <= |items|
    && r.f.params == ParamNames(items, k)
    && r.f.order == OrderOf(items, ids, k)
    && BlockLists(items, k, r.f, ids) && UnplacedEmpty(r.f)
    && r.current == (if BlockBefore(items, k) == 0 then None else Some(ids[BlockBefore(items, k) - 1]))
  }

  ghost predicate Held(items: seq<Item>, k: nat, r: Reader, ids: seq<nat>) {
    && ParamsHeld(items, k, r) && ValuesHeld(items, k, r, ids) && BlocksHeld(items, k, r, ids)
    && Filled(items, k, r, ids) && Owned(items, k, r, ids) && PlacedUpTo(items, k, r, ids)
  }

  /** The reader after the first `k` items; its next number is the printer's counter. */
  ghost predicate Simulates(items: seq<Item>, k: nat, r: Reader, ids: seq<nat>) {
    Held(items, k, r, ids) && Counted(items, k, r)
  }

  // -------------------------------------------------------------- reserving by name

  /** What reading operands does to a reader: names gain slots, nothing else moves. */
  ghost predicate Extends(r: Reader, s: Reader) {
    && s.params == r.params && s.defined == r.defined && s.next == r.next && s.current == r.current
    && s.f.params == r.f.params && s.f.order == r.f.order
    && (forall name :: name in r.values ==> name in s.values && s.values[name] == r.values[name])
    && (forall name :: name in r.blocks ==> name in s.blocks && s.blocks[name] == r.blocks[name])
    && r.f.instructions <= s.f.instructions && r.f.blocks <= s.f.blocks
  }

  lemma OperandReadExtends(items: seq<Item>, r: Reader, s: Reader, operand: Operand, v: Value)
    requires Extends(r, s) && OperandRead(items, r, operand, v)
    ensures OperandRead(items, s, operand, v)
  {
  }

  lemma InstrReadExtends(items: seq<Item>, r: Reader, s: Reader, item: Item, i: Instr)
    requires Extends(r, s) && item.Inst? && InstrRead(items, r, item, i)
    ensures InstrRead(items, s, item, i)
  {
    forall n | 0 <= n < |item.operands| ensures OperandRead(items, s, item.operands[n], i.operands[n]) {
      OperandReadExtends(items, r, s, item.operands[n], i.operands[n]);
    }
  }

  /** A reader extended by new names only: their slots are new and empty. */
  ghost predicate ExtendsFresh(r: Reader, s: Reader) {
    && Extends(r, s)
    && (forall name :: name in s.values && name !in r.values ==> s.values[name] >= |r.f.instructions|)
    && (forall i :: |r.f.instructions| <= i < |s.f.instructions| ==> s.f.instructions[i].None?)
    && (forall b :: |r.f.blocks| <= b < |s.f.blocks| ==> s.f.blocks[b].instructions == [])
  }

  lemma FilledExtends(items: seq<Item>, k: nat, r: Reader, s: Reader, ids: seq<nat>)
    requires Filled(items, k, r, ids) && ExtendsFresh(r, s)
    ensures Filled(items, k, s, ids)
  {
    forall j | 0 <= j < k && items[j].Inst?
      ensures ids[j] < |s.f.instructions| && s.f.instructions[ids[j]] == r.f.instructions[ids[j]]
      ensures InstrRead(items, s, items[j], r.f.instructions[ids[j]].value)
    {
      InstrReadExtends(items, r, s, items[j], r.f.instructions[ids[j]].value);
    }
  }

  lemma PlacedExtends(items: seq<Item>, k: nat, r: Reader, s: Reader, ids: seq<nat>)
    requires PlacedUpTo(items, k, r, ids) && ExtendsFresh(r, s)
    ensures PlacedUpTo(items, k, s, ids)
  {
    forall b | 0 <= b < |s.f.blocks| && b !in s.f.order ensures s.f.blocks[b].instructions == [] {
      if b < |r.f.blocks| {
        assert s.f.blocks[b] == r.f.blocks[b];
      }
    }
  }

  lemma ValueOwned(items: seq<Item>, k: nat, r: Reader, ids: seq<nat>, name: Name)
    requires Owned(items, k, r, ids) && name !in r.values
    ensures Owned(items, k, ReserveInstruction(r).(values := r.values[name := |r.f.instructions|]), ids)
  {
    var s := ReserveInstruction(r).(values := r.values[name := |r.f.instructions|]);
    forall i | 0 <= i < |s.f.instructions|
      ensures i in s.values.Values || exists j :: 0 <= j < k && items[j].Inst? && ids[j] == i
    {
      if i == |r.f.instructions| {
        assert s.values[name] == i;
      } else if i in r.values.Values {
        var a :| a in r.values && r.values[a] == i;
        assert s.values[a] == i;
      }
    }
  }

  /** A new value name takes a new, empty slot. */
  lemma ReserveValueHolds(items: seq<Item>, k: nat, r: Reader, ids: seq<nat>, name: Name)
    requires Held(items, k, r, ids) && name in InstNames(items, |items|) && name !in r.values
    ensures var s := ReserveInstruction(r).(values := r.values[name := |r.f.instructions|]);
            Held(items, k, s, ids) && ExtendsFresh(r, s)
  {
    var s := ReserveInstruction(r).(values := r.values[name := |r.f.instructions|]);
    FilledExtends(items, k, r, s, ids);
    PlacedExtends(items, k, r, s, ids);
    ValueOwned(items, k, r, ids, name);
  }

  /** A new block name takes a new, empty block. */
  lemma ReserveBlockHolds(items: seq<Item>, k: nat, r: Reader, ids: seq<nat>, name: Name)
    requires Held(items, k, r, ids) && name in BlockNames(items, |items|)
    ensures var s := BlockByName(r, name).0;
            Held(items, k, s, ids) && ExtendsFresh(r, s) && name in s.blocks && s.blocks[name] == BlockByName(r, name).1
  {
    var s := BlockByName(r, name).0;
    if name !in r.blocks {
      FilledExtends(items, k, r, s, ids);
      PlacedExtends(items, k, r, s, ids);
      assert Owned(items, k, s, ids) by {
        forall b | 0 <= b < |s.f.blocks| ensures b in s.blocks.Values {
          if b == |r.f.blocks| {
            assert s.blocks[name] == b;
          } else {
            assert b in r.blocks.Values;
            var a :| a in r.blocks && r.blocks[a] == b;
            assert s.blocks[a] == b;
          }
        }
      }
      BlocksStayHeld(items, k, r, ids, name);
    }
  }

  lemma BlocksStayHeld(items: seq<Item>, k: nat, r: Reader, ids: seq<nat>, name: Name)
    requires BlocksHeld(items, k, r, ids) && name in BlockNames(items, |items|) && name !in r.blocks
    ensures BlocksHeld(items, k, BlockByName(r, name).0, ids)
  {
  }

  lemma OperandHolds(items: seq<Item>, k: nat, r: Reader, ids: seq<nat>, operand: Operand)
    requires WellFormed(items) && Held(items, k, r, ids) && TargetOk(items, operand)
    requires ParamCount(items) <= k
    ensures var (s, v) := ReadOperand(r, WriteOperand(items, operand));
            Held(items, k, s, ids) && ExtendsFresh(r, s) && OperandRead(items, s, operand, v)
  {
    if operand.To? {
      var at := operand.at;
      var name := NameAt(items, at);
      NamesOf(items, at, |items|);
      match items[at]
      case Block(_) =>
        ReserveBlockHolds(items, k, r, ids, name);
      case Param(_) =>
        ParamsComeFirst(items, at);
      case Inst(_, _, _, _, _) =>
        if name in r.params {
          NameIsUnique(items, at, r.params[name]);
        }
        if name !in r.values {
          ReserveValueHolds(items, k, r, ids, name);
        }
    }
  }

  lemma {:induction false} ParamsComeFirst(items: seq<Item>, at: nat)
    requires WellFormed(items) && at < |items| && items[at].Param?
    ensures at < ParamCount(items)
  {
    if at > 0 {
      assert Follows(items, at);
      ParamsComeFirst(items, at - 1);
    }
  }

  lemma FreshTrans(r: Reader, s: Reader, t: Reader)
    requires ExtendsFresh(r, s) && ExtendsFresh(s, t)
    ensures ExtendsFresh(r, t)
  {
  }

  ghost predicate OperandsRead(items: seq<Item>, r: Reader, operands: seq<Operand>, vs: seq<Value>) {
    && |vs| == |operands|
    && forall n :: 0 <= n < |operands| ==> OperandRead(items, r, operands[n], vs[n])
  }

  lemma OneMoreOperand(items: seq<Item>, r: Reader, s: Reader, operands: seq<Operand>, vs: seq<Value>, v: Value)
    requires operands != [] && Extends(r, s) && OperandsRead(items, r, operands[..|operands| - 1], vs)
    requires OperandRead(items, s, operands[|operands| - 1], v)
    ensures OperandsRead(items, s, operands, vs + [v])
  {
    var before := operands[..|operands| - 1];
    forall n | 0 <= n < |operands| ensures OperandRead(items, s, operands[n], (vs + [v])[n]) {
      if n < |before| {
        assert OperandRead(items, r, before[n], vs[n]);
        OperandReadExtends(items, r, s, before[n], vs[n]);
      }
    }
  }

  /** Operands are read in order, each through the name of the item it uses. */
  lemma {:induction false} OperandsHold(items: seq<Item>, k: nat, r: Reader, ids: seq<nat>, operands: seq<Operand>)
    requires WellFormed(items) && Held(items, k, r, ids) && ParamCount(items) <= k
    requires forall i :: 0 <= i < |operands| ==> TargetOk(items, operands[i])
    ensures var (s, vs) := ReadOperands(r, WriteOperands(items, operands));
            Held(items, k, s, ids) && ExtendsFresh(r, s) && OperandsRead(items, s, operands, vs)
    decreases |operands|
  {
    if operands == [] {
      assert WriteOperands(items, operands) == [];
    } else {
      var n := |operands| - 1;
      var before := operands[..n];
      var written := WriteOperands(items, operands);
      assert written[..n] == WriteOperands(items, before) && written[n] == WriteOperand(items, operands[n]);
      OperandsHold(items, k, r, ids, before);
      var (s1, vs1) := ReadOperands(r, written[..n]);
      OperandHolds(items, k, s1, ids, operands[n]);
      var (s2, v) := ReadOperand(s1, written[n]);
      FreshTrans(r, s1, s2);
      OneMoreOperand(items, s1, s2, operands, vs1, v);
    }
  }

  // --------------------------------------------------------------- one more item

  lemma {:induction false} OrderIgnoresLater(items: seq<Item>, ids: seq<nat>, more: seq<nat>, b: nat, k: nat)
    requires k <= |items| && k <= |ids|
    ensures OrderOf(items, ids + more, k) == OrderOf(items, ids, k)
    ensures InstructionsOf(items, ids + more, b, k) == InstructionsOf(items, ids, b, k)
  {
    if k > 0 {
      OrderIgnoresLater(items, ids, more, b, k - 1);
    }
  }

  lemma {:induction false} OrderHolds(items: seq<Item>, ids: seq<nat>, k: nat, id: nat)
    requires k <= |items| && k <= |ids|
    ensures id in OrderOf(items, ids, k) <==> exists j :: 0 <= j < k && items[j].Block? && ids[j] == id
  {
    if k > 0 {
      OrderHolds(items, ids, k - 1, id);
    }
  }

  lemma {:induction false} NothingYet(items: seq<Item>, ids: seq<nat>, k: nat)
    requires k < |items| && k <= |ids|
    ensures InstructionsOf(items, ids, k, k) == []
  {
    NothingInLater(items, ids, k, k);
  }

  lemma {:induction false} NothingInLater(items: seq<Item>, ids: seq<nat>, b: nat, k: nat)
    requires k <= b < |items| && k <= |ids|
    ensures InstructionsOf(items, ids, b, k) == []
  {
    if k > 0 {
      NothingInLater(items, ids, b, k - 1);
    }
  }

  lemma BlockIsNew(items: seq<Item>, k: nat, r: Reader, ids: seq<nat>)
    requires WellFormed(items) && BlocksHeld(items, k, r, ids) && k < |items| && items[k].Block?
    requires PlacedUpTo(items, k, r, ids) && NameAt(items, k) in r.blocks
    ensures r.blocks[NameAt(items, k)] !in r.f.order
  {
    var id := r.blocks[NameAt(items, k)];
    OrderHolds(items, ids, k, id);
    if id in r.f.order {
      var j :| 0 <= j < k && items[j].Block? && ids[j] == id;
      NameIsUnique(items, j, k);
    }
  }

  lemma PlaceBlockPlaces(items: seq<Item>, k: nat, r: Reader, ids: seq<nat>, id: nat)
    requires PlacedUpTo(items, k, r, ids) && k < |items| && items[k].Block? && id !in r.f.order && id < |r.f.blocks|
    ensures PlacedUpTo(items, k + 1, PlaceBlock(r, id), ids + [id])
  {
    OrderIgnoresLater(items, ids, [id], 0, k);
    BlocksPlaced(items, k, r, ids, id);
  }

  lemma BlocksPlaced(items: seq<Item>, k: nat, r: Reader, ids: seq<nat>, id: nat)
    requires PlacedUpTo(items, k, r, ids) && k < |items| && items[k].Block? && id !in r.f.order && id < |r.f.blocks|
    ensures BlockLists(items, k + 1, PlaceBlock(r, id).f, ids + [id])
  {
    var s, ids' := PlaceBlock(r, id), ids + [id];
    forall j | 0 <= j < k + 1 && items[j].Block?
      ensures ids'[j] < |s.f.blocks| && s.f.blocks[ids'[j]].instructions == InstructionsOf(items, ids', j, k + 1)
    {
      OnePlaced(items, k, r, ids, id, j);
    }
  }

  lemma OnePlaced(items: seq<Item>, k: nat, r: Reader, ids: seq<nat>, id: nat, j: nat)
    requires PlacedUpTo(items, k, r, ids) && k < |items| && items[k].Block? && id !in r.f.order && id < |r.f.blocks|
    requires j <= k && items[j].Block?
    ensures var s, ids' := PlaceBlock(r, id), ids + [id];
            ids'[j] < |s.f.blocks| && s.f.blocks[ids'[j]].instructions == InstructionsOf(items, ids', j, k + 1)
  {
    OrderIgnoresLater(items, ids, [id], j, k);
    if j == k {
      NothingYet(items, ids, k);
    } else {
      OrderHolds(items, ids, k, ids[j]);
    }
  }

  lemma PlaceBlockKeepsNames(items: seq<Item>, k: nat, r: Reader, ids: seq<nat>, id: nat)
    requires Held(items, k, r, ids) && k < |items| && items[k].Block?
    requires NameAt(items, k) in r.blocks && r.blocks[NameAt(items, k)] == id
    ensures var s, ids' := PlaceBlock(r, id), ids + [id];
            && ParamsHeld(items, k + 1, s) && ValuesHeld(items, k + 1, s, ids') && BlocksHeld(items, k + 1, s, ids')
  {
    var s, ids' := PlaceBlock(r, id), ids + [id];
    assert InstNames(items, k + 1) == InstNames(items, k);
  }

  lemma PlaceBlockKeepsFilled(items: seq<Item>, k: nat, r: Reader, ids: seq<nat>, id: nat)
    requires Filled(items, k, r, ids) && Owned(items, k, r, ids) && k < |items| && items[k].Block?
    ensures Filled(items, k + 1, PlaceBlock(r, id), ids + [id])
    ensures Owned(items, k + 1, PlaceBlock(r, id), ids + [id])
  {
    var s, ids' := PlaceBlock(r, id), ids + [id];
    forall j | 0 <= j < k + 1 && items[j].Inst?
      ensures ids'[j] < |s.f.instructions| && s.f.instructions[ids'[j]].Some?
      ensures InstrRead(items, s, items[j], s.f.instructions[ids'[j]].value)
    {
      SameNamesSameRead(items, r, s, items[j], r.f.instructions[ids[j]].value);
    }
    forall i | 0 <= i < |s.f.instructions|
      ensures i in s.values.Values || exists j :: 0 <= j < k + 1 && items[j].Inst? && ids'[j] == i
    {
      if i !in r.values.Values {
        var j :| 0 <= j < k && items[j].Inst? && ids[j] == i;
        assert ids'[j] == i;
      }
    }
  }

  /** What a use stands for depends on the names alone. */
  lemma SameNamesSameRead(items: seq<Item>, r: Reader, s: Reader, item: Item, i: Instr)
    requires s.values == r.values && s.blocks == r.blocks && item.Inst? && InstrRead(items, r, item, i)
    ensures InstrRead(items, s, item, i)
  {
    forall n | 0 <= n < |item.operands| ensures OperandRead(items, s, item.operands[n], i.operands[n]) {
      assert OperandRead(items, r, item.operands[n], i.operands[n]);
    }
  }

  lemma PlaceBlockHolds(items: seq<Item>, k: nat, r: Reader, ids: seq<nat>, id: nat, next: nat)
    requires WellFormed(items) && Held(items, k, r, ids) && k < |items| && items[k].Block?
    requires NameAt(items, k) in r.blocks && r.blocks[NameAt(items, k)] == id
    ensures id !in r.f.order && Held(items, k + 1, PlaceBlock(r, id).(next := next), ids + [id])
  {
    BlockIsNew(items, k, r, ids);
    PlaceBlockPlaces(items, k, r, ids, id);
    PlaceBlockKeepsNames(items, k, r, ids, id);
    PlaceBlockKeepsFilled(items, k, r, ids, id);
    HeldForgets(items, k + 1, PlaceBlock(r, id), ids + [id], next, r.defined);
  }

  /** The counter and the definitions move past an item with it. */
  ghost predicate Counted(items: seq<Item>, k: nat, r: Reader) {
    && k <= |items| && r.next == Count(items, k)
    && forall text :: text in r.defined ==> Named(text) in InstNames(items, k)
  }

  /** Reading a label whose block is not placed yet places it. */
  lemma LabelPlaces(r: Reader, name: Name)
    requires InBounds(r)
    requires var (r1, id) := BlockByName(r, name);
             id !in r1.f.order && id < |r1.f.blocks| && r1.f.blocks[id].name == NameText(name)
    ensures var (r1, id) := BlockByName(r, name);
            ReadLine(r, Label(name)) ==
              Ok(PlaceBlock(r1, id).(next := if name.Named? then r.next else NextAfter(r.next, name.number)))
  {
    var (r1, id) := BlockByName(r, name);
    if name.Named? {
      assert r1.f.blocks[id].(name := Some(name.text)) == r1.f.blocks[id];
      assert r1.f.blocks[id := r1.f.blocks[id]] == r1.f.blocks;
    }
  }

  /** The block an item opens, placed. */
  function Opened(items: seq<Item>, k: nat, r: Reader): Reader
    requires k < |items|
  {
    var (r1, id) := BlockByName(r, NameAt(items, k));
    PlaceBlock(r1, id).(next := Count(items, k + 1))
  }

  lemma OpenedSimulates(items: seq<Item>, k: nat, r: Reader, ids: seq<nat>)
    requires WellFormed(items) && k < |items| && items[k].Block? && Simulates(items, k, r, ids)
    ensures Simulates(items, k + 1, Opened(items, k, r), ids + [BlockByName(r, NameAt(items, k)).1])
    ensures BlockByName(r, NameAt(items, k)).1 !in BlockByName(r, NameAt(items, k)).0.f.order
  {
    var name := NameAt(items, k);
    NamesOf(items, k, |items|);
    ReserveBlockHolds(items, k, r, ids, name);
    var (r1, id) := BlockByName(r, name);
    PlaceBlockHolds(items, k, r1, ids, id, Count(items, k + 1));
  }

  /** A label, or the unlabelled entry, opens the next block. */
  lemma LabelOpens(items: seq<Item>, k: nat, r: Reader, ids: seq<nat>)
    requires WellFormed(items) && k < |items| && items[k].Block? && InBounds(r) && Simulates(items, k, r, ids)
    ensures ReadLine(r, Label(NameAt(items, k))) == Ok(Opened(items, k, r))
    ensures items[k].name.None? ==> Opened(items, k, r) == FreshBlock(r)
  {
    var name := NameAt(items, k);
    NamesOf(items, k, |items|);
    ReserveBlockHolds(items, k, r, ids, name);
    BlockIsNew(items, k, BlockByName(r, name).0, ids);
    LabelPlaces(r, name);
  }

  /** What is held does not turn on the counter or on what is defined. */
  lemma HeldForgets(items: seq<Item>, k: nat, r: Reader, ids: seq<nat>, next: nat, defined: set<string>)
    requires Held(items, k, r, ids)
    ensures Held(items, k, r.(next := next, defined := defined), ids)
  {
    var s := r.(next := next, defined := defined);
    forall j | 0 <= j < k && items[j].Inst?
      ensures InstrRead(items, s, items[j], s.f.instructions[ids[j]].value)
    {
      SameNamesSameRead(items, r, s, items[j], r.f.instructions[ids[j]].value);
    }
  }

  // ------------------------------------------------------------- one more instruction

  /** Instructions go into the block last opened, which has no terminator yet. */
  lemma BlockIsOpen(items: seq<Item>, k: nat, r: Reader, ids: seq<nat>)
    requires WellFormed(items) && k < |items| && items[k].Inst? && Held(items, k, r, ids)
    ensures BlockBefore(items, k) > 0 && r.current == Some(ids[BlockBefore(items, k) - 1])
    ensures r.current.value < |r.f.blocks| && !Ended(r.f, r.current.value)
  {
    assert Follows(items, k);
    InsideABlock(items, k);
    var b := BlockBefore(items, k) - 1;
    if items[k - 1].Block? {
      NothingYet(items, ids, b);
      assert InstructionsOf(items, ids, b, k) == [];
    } else {
      assert InstructionsOf(items, ids, b, k) == InstructionsOf(items, ids, b, k - 1) + [ids[k - 1]];
      assert InstrRead(items, r, items[k - 1], r.f.instructions[ids[k - 1]].value);
    }
  }

  lemma {:induction false} InsideABlock(items: seq<Item>, k: nat)
    requires WellFormed(items) && k < |items| && items[k].Inst?
    ensures BlockBefore(items, k) > 0
  {
    assert Follows(items, k);
    if !items[k - 1].Block? {
      InsideABlock(items, k - 1);
    }
  }

  /** The slot of the next value holds nothing yet: it is defined once. */
  lemma SlotIsEmpty(items: seq<Item>, k: nat, r: Reader, ids: seq<nat>)
    requires WellFormed(items) && k < |items| && items[k].Inst? && items[k].produces
    requires ValuesHeld(items, k, r, ids) && NameAt(items, k) in r.values
    ensures r.f.instructions[r.values[NameAt(items, k)]].None?
  {
    if r.f.instructions[r.values[NameAt(items, k)]].Some? {
      var j := InstNameOf(items, k, NameAt(items, k));
      NameIsUnique(items, j, k);
    }
  }

  lemma ResultIsNew(items: seq<Item>, k: nat, r: Reader, ids: seq<nat>)
    requires WellFormed(items) && k < |items| && items[k].Inst? && items[k].produces && Simulates(items, k, r, ids)
    ensures NameAt(items, k).Named? ==> NameAt(items, k).text !in r.defined
  {
    var name := NameAt(items, k);
    if name.Named? && name.text in r.defined {
      var j := InstNameOf(items, k, name);
      NameIsUnique(items, j, k);
    }
  }

  /** Reading the result of the next instruction finds or makes its slot. */
  lemma ResultHolds(items: seq<Item>, k: nat, r: Reader, ids: seq<nat>) returns (s: Reader, id: nat)
    requires WellFormed(items) && k < |items| && items[k].Inst? && items[k].produces && Simulates(items, k, r, ids)
    ensures ReadResult(r, Some(NameAt(items, k))) == Ok((s, Some(id)))
    ensures Simulates'(items, k, s, ids) && s.current == r.current && s.f.blocks == r.f.blocks
    ensures NameAt(items, k) in s.values && s.values[NameAt(items, k)] == id
  {
    var name := NameAt(items, k);
    ResultIsNew(items, k, r, ids);
    var defined := if name.Named? then r.defined + {name.text} else r.defined;
    var next := if name.Named? then r.next else NextAfter(r.next, name.number);
    var r0 := r.(defined := defined);
    HeldForgets(items, k, r, ids, r.next, defined);
    var s0: Reader;
    s0, id := SlotHolds(items, k, r0, ids, name);
    HeldForgets(items, k, s0, ids, next, defined);
    s := s0.(next := next);
    ResultCounts(items, k, r, s);
  }

  /** The counter and the names defined, once a result has been read. */
  lemma ResultCounts(items: seq<Item>, k: nat, r: Reader, s: Reader)
    requires k < |items| && items[k].Inst? && items[k].produces && Counted(items, k, r)
    requires var name := NameAt(items, k);
             && s.defined == (if name.Named? then r.defined + {name.text} else r.defined)
             && s.next == if name.Named? then r.next else NextAfter(r.next, name.number)
    ensures Counted(items, k + 1, s)
  {
    NamesOf(items, k, k + 1);
  }

  lemma SlotHolds(items: seq<Item>, k: nat, r: Reader, ids: seq<nat>, name: Name) returns (s: Reader, id: nat)
    requires WellFormed(items) && k < |items| && items[k].Inst? && items[k].produces && Held(items, k, r, ids)
    requires name == NameAt(items, k)
    ensures (s, id) == ReserveResult(r, name) && Held(items, k, s, ids)
    ensures s.defined == r.defined && s.next == r.next && s.current == r.current && s.f.blocks == r.f.blocks
    ensures name in s.values && s.values[name] == id
  {
    NamesOf(items, k, |items|);
    if name !in r.values {
      ReserveValueHolds(items, k, r, ids, name);
    }
    s := ReserveResult(r, name).0;
    id := ReserveResult(r, name).1;
  }

  /** Held up to `k`, but counted past it. */
  ghost predicate Simulates'(items: seq<Item>, k: nat, r: Reader, ids: seq<nat>) {
    k < |items| && Held(items, k, r, ids) && Counted(items, k + 1, r)
  }

  /** The reader once instruction `k` is defined in slot `id` and pushed onto its block. */
  function Defined(r: Reader, block: nat, id: nat, i: Instr): Reader
    requires id < |r.f.instructions| && block < |r.f.blocks|
  {
    Push(Define(r, id, i), block, id)
  }

  /** Slot `id` is the one for instruction `k`: empty, and its name's when it has one. */
  ghost predicate SlotIsFor(items: seq<Item>, k: nat, r: Reader, id: nat)
    requires k < |items|
  {
    && items[k].Inst? && id < |r.f.instructions| && r.f.instructions[id].None?
    && (items[k].produces ==> NameAt(items, k) in r.values && r.values[NameAt(items, k)] == id)
    && (!items[k].produces ==> forall name :: name in r.values ==> r.values[name] != id)
  }

  lemma DefineKeepsParams(items: seq<Item>, k: nat, r: Reader, block: nat, id: nat, i: Instr)
    requires k < |items| && SlotIsFor(items, k, r, id) && ParamsHeld(items, k, r) && block < |r.f.blocks|
    ensures ParamsHeld(items, k + 1, Defined(r, block, id, i))
  {
  }

  lemma DefineKeepsValues(items: seq<Item>, k: nat, r: Reader, ids: seq<nat>, block: nat, id: nat, i: Instr)
    requires k < |items| && SlotIsFor(items, k, r, id) && ValuesHeld(items, k, r, ids) && block < |r.f.blocks|
    ensures ValuesHeld(items, k + 1, Defined(r, block, id, i), ids + [id])
  {
    NamesOf(items, k, k + 1);
  }

  lemma DefineKeepsBlocks(items: seq<Item>, k: nat, r: Reader, ids: seq<nat>, block: nat, id: nat, i: Instr)
    requires k < |items| && SlotIsFor(items, k, r, id) && BlocksHeld(items, k, r, ids) && block < |r.f.blocks|
    ensures BlocksHeld(items, k + 1, Defined(r, block, id, i), ids + [id])
  {
  }

  lemma DefineFills(items: seq<Item>, k: nat, r: Reader, ids: seq<nat>, block: nat, id: nat, i: Instr)
    requires k < |items| && SlotIsFor(items, k, r, id) && Filled(items, k, r, ids) && block < |r.f.blocks|
    requires ValuesHeld(items, k, r, ids) && InstrRead(items, r, items[k], i)
    ensures Filled(items, k + 1, Defined(r, block, id, i), ids + [id])
  {
    var s, ids' := Defined(r, block, id, i), ids + [id];
    forall j | 0 <= j < k + 1 && items[j].Inst?
      ensures ids'[j] < |s.f.instructions| && s.f.instructions[ids'[j]].Some?
      ensures InstrRead(items, s, items[j], s.f.instructions[ids'[j]].value)
    {
      if j < k {
        SameNamesSameRead(items, r, s, items[j], r.f.instructions[ids[j]].value);
      } else {
        SameNamesSameRead(items, r, s, items[k], i);
      }
    }
  }

  /** All slots but `id` belong to a name or to an instruction read before. */
  ghost predicate OwnedBut(items: seq<Item>, k: nat, r: Reader, ids: seq<nat>, id: nat) {
    && |ids| == k <= |items|
    && (forall i :: 0 <= i < |r.f.instructions| && i != id ==>
          i in r.values.Values || exists j :: 0 <= j < k && items[j].Inst? && ids[j] == i)
    && (forall b :: 0 <= b < |r.f.blocks| ==> b in r.blocks.Values)
  }

  lemma DefineOwns(items: seq<Item>, k: nat, r: Reader, ids: seq<nat>, block: nat, id: nat, i: Instr)
    requires k < |items| && SlotIsFor(items, k, r, id) && OwnedBut(items, k, r, ids, id) && block < |r.f.blocks|
    ensures Owned(items, k + 1, Defined(r, block, id, i), ids + [id])
  {
    var s, ids' := Defined(r, block, id, i), ids + [id];
    forall i | 0 <= i < |s.f.instructions|
      ensures i in s.values.Values || exists j :: 0 <= j < k + 1 && items[j].Inst? && ids'[j] == i
    {
      if i == id {
        assert ids'[k] == i;
      } else if i !in r.values.Values {
        var j :| 0 <= j < k && items[j].Inst? && ids[j] == i;
        assert ids'[j] == i;
      }
    }
  }

  lemma BlockIdsDiffer(items: seq<Item>, k: nat, r: Reader, ids: seq<nat>, i: nat, j: nat)
    requires WellFormed(items) && BlocksHeld(items, k, r, ids)
    requires i < k && j < k && items[i].Block? && items[j].Block? && i != j
    ensures ids[i] != ids[j]
  {
    NameIsUnique(items, i, j);
  }

  lemma DefinePlaces(items: seq<Item>, k: nat, r: Reader, ids: seq<nat>, id: nat, i: Instr)
    requires k < |items| && SlotIsFor(items, k, r, id) && PlacedUpTo(items, k, r, ids) && BlocksHeld(items, k, r, ids)
    requires WellFormed(items) && BlockBefore(items, k) > 0 && r.current.Some? && r.current.value < |r.f.blocks|
    ensures PlacedUpTo(items, k + 1, Defined(r, r.current.value, id, i), ids + [id])
  {
    var b := BlockBefore(items, k) - 1;
    forall j | 0 <= j < k && items[j].Block? && j != b ensures ids[j] != ids[b] {
      BlockIdsDiffer(items, k, r, ids, j, b);
    }
    OrderIgnoresLater(items, ids, [id], 0, k);
    OrderHolds(items, ids, k, ids[b]);
    DefineFillsBlock(items, k, r, ids, b, id, i);
  }

  lemma DefineFillsBlock(items: seq<Item>, k: nat, r: Reader, ids: seq<nat>, b: nat, id: nat, i: Instr)
    requires k < |items| && items[k].Inst? && id < |r.f.instructions| && PlacedUpTo(items, k, r, ids)
    requires BlockBefore(items, k) == b + 1 && b < k && items[b].Block? && ids[b] < |r.f.blocks|
    requires forall j :: 0 <= j < k && items[j].Block? && j != b ==> ids[j] != ids[b]
    requires ids[b] in r.f.order && OrderOf(items, ids + [id], k) == OrderOf(items, ids, k)
    ensures PlacedUpTo(items, k + 1, Defined(r, ids[b], id, i), ids + [id])
  {
    DefineListsBlock(items, k, r, ids, b, id, i);
    UnplacedStayEmpty(r, ids[b], id, i);
  }

  lemma UnplacedStayEmpty(r: Reader, block: nat, id: nat, i: Instr)
    requires id < |r.f.instructions| && block < |r.f.blocks| && block in r.f.order && UnplacedEmpty(r.f)
    ensures UnplacedEmpty(Defined(r, block, id, i).f)
  {
  }

  lemma DefineListsBlock(items: seq<Item>, k: nat, r: Reader, ids: seq<nat>, b: nat, id: nat, i: Instr)
    requires k < |items| && items[k].Inst? && id < |r.f.instructions| && BlockLists(items, k, r.f, ids)
    requires BlockBefore(items, k) == b + 1 && b < k && items[b].Block? && ids[b] < |r.f.blocks|
    requires forall j :: 0 <= j < k && items[j].Block? && j != b ==> ids[j] != ids[b]
    ensures BlockLists(items, k + 1, Defined(r, ids[b], id, i).f, ids + [id])
  {
    var f, ids' := Defined(r, ids[b], id, i).f, ids + [id];
    forall j | 0 <= j < k + 1 && items[j].Block?
      ensures ids'[j] < |f.blocks| && f.blocks[ids'[j]].instructions == InstructionsOf(items, ids', j, k + 1)
    {
      DefineInBlock(items, k, r, ids, b, id, i, j);
    }
  }

  lemma DefineInBlock(items: seq<Item>, k: nat, r: Reader, ids: seq<nat>, b: nat, id: nat, i: Instr, j: nat)
    requires k < |items| && |ids| == k && items[k].Inst? && BlockBefore(items, k) == b + 1 && b < k && j < k
    requires id < |r.f.instructions| && ids[b] < |r.f.blocks| && ids[j] < |r.f.blocks|
    requires r.f.blocks[ids[j]].instructions == InstructionsOf(items, ids, j, k) && (j != b ==> ids[j] != ids[b])
    ensures Defined(r, ids[b], id, i).f.blocks[ids[j]].instructions == InstructionsOf(items, ids + [id], j, k + 1)
  {
    OneMoreInBlock(items, k, ids, b, id, j);
  }

  lemma OneMoreInBlock(items: seq<Item>, k: nat, ids: seq<nat>, b: nat, id: nat, j: nat)
    requires k < |items| && |ids| == k && items[k].Inst? && BlockBefore(items, k) == b + 1
    ensures InstructionsOf(items, ids + [id], j, k + 1)
            == InstructionsOf(items, ids, j, k) + if j == b then [id] else []
  {
    OrderIgnoresLater(items, ids, [id], j, k);
  }

  lemma DefineHolds(items: seq<Item>, k: nat, r: Reader, ids: seq<nat>, id: nat, i: Instr)
    requires WellFormed(items) && k < |items| && SlotIsFor(items, k, r, id) && InstrRead(items, r, items[k], i)
    requires ParamsHeld(items, k, r) && ValuesHeld(items, k, r, ids) && BlocksHeld(items, k, r, ids)
    requires Filled(items, k, r, ids) && OwnedBut(items, k, r, ids, id) && PlacedUpTo(items, k, r, ids)
    requires BlockBefore(items, k) > 0 && r.current.Some? && r.current.value < |r.f.blocks|
    ensures Held(items, k + 1, Defined(r, r.current.value, id, i), ids + [id])
  {
    DefineKeepsParams(items, k, r, r.current.value, id, i);
    DefineKeepsValues(items, k, r, ids, r.current.value, id, i);
    DefineKeepsBlocks(items, k, r, ids, r.current.value, id, i);
    DefineFills(items, k, r, ids, r.current.value, id, i);
    DefineOwns(items, k, r, ids, r.current.value, id, i);
    DefinePlaces(items, k, r, ids, id, i);
  }

  /** Reading the line of instruction `k` defines it, in its block, through its name. */
  lemma InstructionSimulates(items: seq<Item>, k: nat, r: Reader, ids: seq<nat>) returns (s: Reader, id: nat)
    requires WellFormed(items) && ParamCount(items) <= k < |items| && items[k].Inst?
    requires Simulates(items, k, r, ids) && InBounds(r)
    ensures ReadLine(r, WriteItem(items, k)[0]) == Ok(s) && Simulates(items, k + 1, s, ids + [id])
  {
    var item := items[k];
    BlockIsOpen(items, k, r, ids);
    var block := r.current.value;
    var line := WriteItem(items, k)[0];
    assert forall i :: 0 <= i < |item.operands| ==> TargetOk(items, item.operands[i]);
    var r1, reserved := ResultRead(items, k, r, ids);
    OperandsHold(items, k, r1, ids, item.operands);
    var (r2, vs) := ReadOperands(r1, line.operands);
    var r3;
    r3, id := SlotRead(items, k, r2, ids, reserved);
    var i := Instr(item.name, item.produces, vs, item.terminator, item.text);
    SameNamesSameOperands(items, r2, r3, item.operands, vs);
    DefineHolds(items, k, r3, ids, id, i);
    s := Defined(r3, block, id, i);
    LineReads(items, k, r, block, r1, reserved, r2, vs, r3, id);
  }

  lemma SameNamesSameOperands(items: seq<Item>, r: Reader, s: Reader, operands: seq<Operand>, vs: seq<Value>)
    requires s.values == r.values && s.blocks == r.blocks && OperandsRead(items, r, operands, vs)
    ensures OperandsRead(items, s, operands, vs)
  {
    forall n | 0 <= n < |operands| ensures OperandRead(items, s, operands[n], vs[n]) {
      assert OperandRead(items, r, operands[n], vs[n]);
    }
  }

  lemma ResultRead(items: seq<Item>, k: nat, r: Reader, ids: seq<nat>) returns (s: Reader, reserved: Option<nat>)
    requires WellFormed(items) && k < |items| && items[k].Inst? && Simulates(items, k, r, ids)
    ensures ReadResult(r, if items[k].produces then Some(NameAt(items, k)) else None) == Ok((s, reserved))
    ensures Simulates'(items, k, s, ids) && s.current == r.current && s.f.blocks == r.f.blocks
    ensures items[k].produces ==> reserved.Some? && NameAt(items, k) in s.values && s.values[NameAt(items, k)] == reserved.value
    ensures !items[k].produces ==> reserved.None?
  {
    if items[k].produces {
      var id;
      s, id := ResultHolds(items, k, r, ids);
      reserved := Some(id);
    } else {
      s, reserved := r, None;
      assert !TakesNumber(items[k]) && InstNames(items, k + 1) == InstNames(items, k);
    }
  }

  /** After the operands, the slot of the instruction. */
  lemma SlotRead(items: seq<Item>, k: nat, r: Reader, ids: seq<nat>, reserved: Option<nat>) returns (s: Reader, id: nat)
    requires WellFormed(items) && k < |items| && items[k].Inst? && Held(items, k, r, ids)
    requires items[k].produces ==> reserved.Some? && NameAt(items, k) in r.values && r.values[NameAt(items, k)] == reserved.value
    requires !items[k].produces ==> reserved.None?
    ensures SlotFor(r, reserved, items[k].produces) == (s, id) && SlotIsFor(items, k, s, id)
    ensures ParamsHeld(items, k, s) && ValuesHeld(items, k, s, ids) && BlocksHeld(items, k, s, ids)
    ensures Filled(items, k, s, ids) && OwnedBut(items, k, s, ids, id) && PlacedUpTo(items, k, s, ids)
    ensures s.values == r.values && s.blocks == r.blocks && s.current == r.current && s.f.blocks == r.f.blocks
    ensures s.next == r.next && s.defined == r.defined
  {
    if items[k].produces {
      s, id := r, reserved.value;
      SlotIsEmpty(items, k, r, ids);
    } else {
      s, id := ReserveInstruction(r), |r.f.instructions|;
      FilledExtends(items, k, r, s, ids);
      PlacedExtends(items, k, r, s, ids);
    }
  }

  /** The line is read in the steps it is read in. */
  lemma LineReads(items: seq<Item>, k: nat, r: Reader, block: nat, r1: Reader, reserved: Option<nat>,
                  r2: Reader, vs: seq<Value>, r3: Reader, id: nat)
    requires Targets(items) && k < |items| && items[k].Inst? && InBounds(r)
    requires r.current == Some(block) && block < |r.f.blocks| && !Ended(r.f, block)
    requires items[k].name.Some? ==> items[k].produces
    requires ReadResult(r, if items[k].produces then Some(NameAt(items, k)) else None) == Ok((r1, reserved))
    requires ReadOperands(r1, WriteItem(items, k)[0].operands) == (r2, vs)
    requires SlotFor(r2, reserved, items[k].produces) == (r3, id)
    requires id < |r3.f.instructions| && block < |r3.f.blocks|
    ensures ReadLine(r, WriteItem(items, k)[0])
            == Ok(Defined(r3, block, id, Instr(items[k].name, items[k].produces, vs, items[k].terminator, items[k].text)))
  {
  }

  // ------------------------------------------------------------------ a whole body

  function Places(n: nat): (ids: seq<nat>)
    ensures |ids| == n
  {
    seq(n, i requires 0 <= i < n => i)
  }

  /** The reader among the parameters: names and numbers only. */
  ghost predicate ParamsRead(items: seq<Item>, n: nat, r: Reader) {
    && ParamsHeld(items, n, r) && r.f.params == ParamNames(items, n) && |r.f.params| == n
    && r.f == Function(r.f.params, [], [], [])
    && r.values == map[] && r.blocks == map[] && r.defined == {} && r.current == None
    && r.next == Count(items, n)
  }

  lemma {:induction false} ParamsAreRead(items: seq<Item>, n: nat)
    requires WellFormed(items) && n <= ParamCount(items)
    ensures ParamsRead(items, n, ReadParams(Write(items).params, n))
  {
    if n > 0 {
      ParamsAreRead(items, n - 1);
      var params := Write(items).params;
      assert params[n - 1] == Some(NameAt(items, n - 1));
      ParamIsRead(items, n - 1, ReadParams(params, n - 1));
    }
  }

  lemma ParamIsRead(items: seq<Item>, n: nat, r: Reader)
    requires WellFormed(items) && n < ParamCount(items) && ParamsRead(items, n, r)
    ensures ParamsRead(items, n + 1, ReadParam(r, Some(NameAt(items, n))))
  {
    assert items[n].Param?;
    ParamIsHeld(items, n, r);
  }

  lemma ParamIsHeld(items: seq<Item>, n: nat, r: Reader)
    requires WellFormed(items) && n < ParamCount(items) && ParamsHeld(items, n, r) && |r.f.params| == n
    ensures ParamsHeld(items, n + 1, ReadParam(r, Some(NameAt(items, n))))
  {
    assert items[n].Param?;
    var s, name := ReadParam(r, Some(NameAt(items, n))), NameAt(items, n);
    assert s.params == r.params[name := n];
    forall j | 0 <= j < n && items[j].Param? ensures NameAt(items, j) in s.params && s.params[NameAt(items, j)] == j {
      NameIsUnique(items, j, n);
    }
    forall other | other in s.params
      ensures s.params[other] < n + 1 && items[s.params[other]].Param? && NameAt(items, s.params[other]) == other
    {
      assert other == name || other in r.params;
    }
  }

  lemma {:induction false} OnlyParams(items: seq<Item>, ids: seq<nat>, n: nat)
    requires n <= ParamCount(items) && |ids| == n
    ensures BlockBefore(items, n) == 0 && OrderOf(items, ids, n) == []
  {
    if n > 0 {
      OnlyParams(items, ids[..n - 1], n - 1);
      OrderIgnoresLater(items, ids[..n - 1], ids[n - 1..], 0, n - 1);
      assert ids[..n - 1] + ids[n - 1..] == ids;
    }
  }

  lemma ParamsSimulate(items: seq<Item>, n: nat, r: Reader)
    requires WellFormed(items) && n <= ParamCount(items) && ParamsRead(items, n, r)
    ensures Simulates(items, n, r, Places(n))
  {
    OnlyParams(items, Places(n), n);
    forall j | 0 <= j < n ensures items[j].Param? {
    }
  }

  /** Reading what an item is written as takes the reader past it. */
  lemma ItemSimulates(items: seq<Item>, k: nat, r: Reader, ids: seq<nat>) returns (next: Reader, id: nat)
    requires WellFormed(items) && ParamCount(items) <= k < |items|
    requires k == ParamCount(items) ==> items[k].name.Some?
    requires Simulates(items, k, r, ids) && InBounds(r)
    ensures |WriteItem(items, k)| == 1 && ReadLine(r, WriteItem(items, k)[0]) == Ok(next)
    ensures Simulates(items, k + 1, next, ids + [id])
  {
    AfterParams(items, k);
    if items[k].Block? {
      OpenedSimulates(items, k, r, ids);
      LabelOpens(items, k, r, ids);
      next, id := Opened(items, k, r), BlockByName(r, NameAt(items, k)).1;
    } else {
      next, id := InstructionSimulates(items, k, r, ids);
    }
  }

  /** From any item on, the lines the printer writes are read back one by one. */
  lemma {:induction false} LinesSimulate(items: seq<Item>, k: nat, r: Reader, ids: seq<nat>) returns (s: Reader, all: seq<nat>)
    requires WellFormed(items) && ParamCount(items) <= k <= |items|
    requires k == ParamCount(items) && k < |items| ==> items[k].name.Some?
    requires Simulates(items, k, r, ids) && InBounds(r)
    ensures ReadLines(r, WriteFrom(items, k)) == Ok(s) && Simulates(items, |items|, s, all)
    decreases |items| - k
  {
    if k == |items| {
      s, all := r, ids;
    } else {
      var next, more := LineSimulates(items, k, r, ids);
      s, all := LinesSimulate(items, k + 1, next, more);
    }
  }

  /** One line of the text, and the rest of it from the reader that line leaves. */
  lemma LineSimulates(items: seq<Item>, k: nat, r: Reader, ids: seq<nat>) returns (next: Reader, more: seq<nat>)
    requires WellFormed(items) && ParamCount(items) <= k < |items|
    requires k == ParamCount(items) ==> items[k].name.Some?
    requires Simulates(items, k, r, ids) && InBounds(r)
    ensures Simulates(items, k + 1, next, more) && InBounds(next)
    ensures ReadLines(r, WriteFrom(items, k)) == ReadLines(next, WriteFrom(items, k + 1))
  {
    var id;
    next, id := ItemSimulates(items, k, r, ids);
    more := ids + [id];
    var line := WriteItem(items, k)[0];
    LineKeepsBounds(r, line);
    ReadOneMore(r, line, WriteFrom(items, k + 1));
    WriteStep(items, k);
  }

  lemma WriteStep(items: seq<Item>, k: nat)
    requires k < |items| && Targets(items) && |WriteItem(items, k)| == 1
    ensures WriteFrom(items, k) == [WriteItem(items, k)[0]] + WriteFrom(items, k + 1)
  {
  }

  lemma ReadOneMore(r: Reader, line: Line, lines: seq<Line>)
    requires InBounds(r) && ReadLine(r, line).Ok? && InBounds(ReadLine(r, line).value)
    ensures ReadLines(r, [line] + lines) == ReadLines(ReadLine(r, line).value, lines)
  {
    assert ([line] + lines)[1..] == lines;
  }

  lemma {:induction false} AfterParams(items: seq<Item>, k: nat)
    requires WellFormed(items) && ParamCount(items) <= k < |items|
    ensures !items[k].Param?
  {
    if k > ParamCount(items) {
      AfterParams(items, k - 1);
      assert Follows(items, k);
    }
  }

  // ------------------------------------------------------------------- what was read

  lemma UseIs(items: seq<Item>, r: Reader, ids: seq<nat>, operand: Operand, v: Value)
    requires |ids| == |items| && ValuesHeld(items, |items|, r, ids) && BlocksHeld(items, |items|, r, ids)
    requires TargetOk(items, operand) && OperandRead(items, r, operand, v)
    ensures OperandIs(items, ids, operand, v)
  {
  }

  lemma SimulatedIsRead(items: seq<Item>, r: Reader, ids: seq<nat>)
    requires WellFormed(items) && Simulates(items, |items|, r, ids)
    ensures Realizes(r.f, ids, items)
  {
    forall i, j | 0 <= i < j < |items| ensures Apart(items, ids, i, j) {
      if items[i].Block? && items[j].Block? {
        BlockIdsDiffer(items, |items|, r, ids, i, j);
      }
    }
    forall k | 0 <= k < |items| ensures InArena(r.f, ids, items, k) {
      SimulatedInArena(items, r, ids, k);
    }
  }

  lemma SimulatedInArena(items: seq<Item>, r: Reader, ids: seq<nat>, k: nat)
    requires WellFormed(items) && Simulates(items, |items|, r, ids) && k < |items|
    ensures InArena(r.f, ids, items, k)
  {
    if items[k].Block? {
      assert NameAt(items, k) in r.blocks;
    } else if items[k].Inst? {
      var i := r.f.instructions[ids[k]].value;
      assert InstrRead(items, r, items[k], i);
      forall n | 0 <= n < |items[k].operands| ensures OperandIs(items, ids, items[k].operands[n], i.operands[n]) {
        assert OperandRead(items, r, items[k].operands[n], i.operands[n]);
        UseIs(items, r, ids, items[k].operands[n], i.operands[n]);
      }
    }
  }

  /** Nothing is left reserved: every slot is defined and every block placed. */
  ghost predicate NothingPending(f: Function) {
    && (forall i :: 0 <= i < |f.instructions| ==> f.instructions[i].Some?)
    && (forall b :: 0 <= b < |f.blocks| ==> b in f.order)
  }

  lemma {:induction false} BlockNameOf(items: seq<Item>, k: nat, name: Name) returns (j: nat)
    requires k <= |items| && name in BlockNames(items, k)
    ensures j < k && items[j].Block? && NameAt(items, j) == name
  {
    j := k - 1;
    if !(items[j].Block? && NameAt(items, j) == name) {
      j := BlockNameOf(items, k - 1, name);
    }
  }

  lemma EverythingIsRead(items: seq<Item>, r: Reader, ids: seq<nat>)
    requires WellFormed(items) && Simulates(items, |items|, r, ids)
    ensures NothingPending(r.f)
  {
    forall i | 0 <= i < |r.f.instructions| ensures r.f.instructions[i].Some? {
      if i in r.values.Values {
        var name :| name in r.values && r.values[name] == i;
        var j := InstNameOf(items, |items|, name);
        assert ids[j] == i;
      }
    }
    forall b | 0 <= b < |r.f.blocks| ensures b in r.f.order {
      assert b in r.blocks.Values;
      var name :| name in r.blocks && r.blocks[name] == b;
      var j := BlockNameOf(items, |items|, name);
      OrderHolds(items, ids, |items|, b);
    }
  }

  lemma LabelledEntry(items: seq<Item>, r: Reader) returns (s: Reader, ids: seq<nat>)
    requires WellFormed(items) && ParamsRead(items, ParamCount(items), r) && InBounds(r)
    requires ParamCount(items) < |items| && items[ParamCount(items)].Block? && items[ParamCount(items)].name.Some?
    ensures ReadLines(r, WriteFrom(items, ParamCount(items))) == Ok(s) && Simulates(items, |items|, s, ids)
    ensures WriteFrom(items, ParamCount(items)) != [] && WriteFrom(items, ParamCount(items))[0].Label?
  {
    var n := ParamCount(items);
    ParamsSimulate(items, n, r);
    s, ids := LinesSimulate(items, n, r, Places(n));
    assert WriteItem(items, n) == [Label(NameAt(items, n))];
  }

  lemma UnlabelledLines(items: seq<Item>, r: Reader, start: seq<nat>) returns (s: Reader, ids: seq<nat>)
    requires WellFormed(items) && ParamCount(items) + 1 < |items|
    requires items[ParamCount(items)].Block? && items[ParamCount(items)].name.None? && items[ParamCount(items) + 1].Inst?
    requires Simulates(items, ParamCount(items) + 1, r, start) && InBounds(r)
    ensures ReadLines(r, WriteFrom(items, ParamCount(items))) == Ok(s) && Simulates(items, |items|, s, ids)
    ensures WriteFrom(items, ParamCount(items)) != [] && !WriteFrom(items, ParamCount(items))[0].Label?
  {
    UnlabelledText(items);
    s, ids := LinesSimulate(items, ParamCount(items) + 1, r, start);
  }

  /** An entry block without a label opens as one with its number would. */
  lemma EntryOpens(items: seq<Item>, n: nat, r: Reader) returns (ids: seq<nat>)
    requires WellFormed(items) && n == ParamCount(items) && n < |items| && ParamsRead(items, n, r) && InBounds(r)
    requires items[n].Block? && items[n].name.None?
    ensures Simulates(items, n + 1, FreshBlock(r), ids) && InBounds(FreshBlock(r))
  {
    ParamsSimulate(items, n, r);
    OpenedSimulates(items, n, r, Places(n));
    LabelOpens(items, n, r, Places(n));
    LineKeepsBounds(r, Label(NameAt(items, n)));
    ids := Places(n) + [BlockByName(r, NameAt(items, n)).1];
  }

  /** An entry block without a name is not written; its first instruction is. */
  lemma UnlabelledText(items: seq<Item>)
    requires WellFormed(items) && ParamCount(items) + 1 < |items|
    requires items[ParamCount(items)].Block? && items[ParamCount(items)].name.None? && items[ParamCount(items) + 1].Inst?
    ensures WriteFrom(items, ParamCount(items)) == WriteFrom(items, ParamCount(items) + 1)
    ensures WriteFrom(items, ParamCount(items)) != [] && !WriteFrom(items, ParamCount(items))[0].Label?
  {
    var n := ParamCount(items);
    assert WriteItem(items, n) == [];
    assert WriteFrom(items, n + 1)[0] == WriteItem(items, n + 1)[0];
  }

  lemma BodySimulates(items: seq<Item>) returns (s: Reader, ids: seq<nat>)
    requires WellFormed(items)
    ensures Read(Write(items)) == Ok(s) && Simulates(items, |items|, s, ids)
  {
    var n := ParamCount(items);
    var text := Write(items);
    var r := ReadParams(text.params, n);
    ParamsAreRead(items, n);
    ParamsKeepBounds(text.params, n);
    EntryFollowsParams(items);
    if items[n].name.Some? {
      s, ids := LabelledEntry(items, r);
    } else {
      var start := EntryOpens(items, n, r);
      s, ids := UnlabelledLines(items, FreshBlock(r), start);
    }
  }

  /** Reading back what is printed gives the body that was printed: each use, forward or
  backward, points at the parameter, instruction or block it named, every reserved slot
  is defined, and the reader's counter ends where the printer's does. */
  lemma ReadingUndoesWriting(items: seq<Item>)
    requires WellFormed(items)
    ensures Read(Write(items)).Ok?
    ensures var r := Read(Write(items)).value;
            (exists ids :: Realizes(r.f, ids, items)) && NothingPending(r.f) && r.next == Count(items, |items|)
  {
    var s, ids := BodySimulates(items);
    SimulatedIsRead(items, s, ids);
    EverythingIsRead(items, s, ids);
  }

  /** The body opens with a block, and an instruction follows it. */
  lemma EntryFollowsParams(items: seq<Item>)
    requires WellFormed(items)
    ensures ParamCount(items) + 1 < |items|
    ensures items[ParamCount(items)].Block? && items[ParamCount(items) + 1].Inst?
  {
    var n := ParamCount(items);
    assert items[|items| - 1].Inst?;
    assert n < |items|;
    assert Follows(items, n);
    if n > 0 { assert items[n - 1].Param?; }
    assert Follows(items, n + 1);
  }
}
