/** A function body as a reader sees it: parameters, then blocks each followed by its
instructions, every use naming the item it uses by its place in that list. On it, what
the printer calls each item and what it writes. */
module LocalNames {
  import opened Wrappers

  datatype Operand = To(at: nat) | Literal(text: string)

  datatype Item =
    | Param(name: Option<string>)
    | Block(name: Option<string>)
    | Inst(name: Option<string>, produces: bool, operands: seq<Operand>, terminator: bool, text: string)

  /** How a local is written: by the name it was given or by the number it takes. */
  datatype Name = Named(text: string) | Number(number: nat)

  /** Whether the item takes a number from the counter parameters, blocks and values share. */
  predicate TakesNumber(item: Item) {
    item.name.None? && (item.Inst? ==> item.produces)
  }

  function Count(items: seq<Item>, k: nat): nat
    requires k <= |items|
  {
    if k == 0 then 0 else Count(items, k - 1) + if TakesNumber(items[k - 1]) then 1 else 0
  }

  function NameAt(items: seq<Item>, k: nat): Name
    requires k < |items|
  {
    match items[k].name
    case Some(text) => Named(text)
    case None => Number(Count(items, k))
  }

  predicate IsValue(item: Item) {
    item.Param? || (item.Inst? && item.produces)
  }

  /** One kind of thing can be told from another by its name alone. */
  predicate SameSpace(a: Item, b: Item) {
    (IsValue(a) && IsValue(b)) || (a.Block? && b.Block?)
  }

  ghost predicate NamesDistinct(items: seq<Item>) {
    forall i, j {:trigger NamedApart(items, i, j)} :: 0 <= i < j < |items| ==> NamedApart(items, i, j)
  }

  predicate NamedApart(items: seq<Item>, i: nat, j: nat)
    requires i < |items| && j < |items|
  {
    SameSpace(items[i], items[j]) && items[i].name.Some? ==> items[i].name != items[j].name
  }

  ghost predicate Targets(items: seq<Item>) {
    forall k, i :: 0 <= k < |items| && items[k].Inst? && 0 <= i < |items[k].operands| ==>
      TargetOk(items, items[k].operands[i])
  }

  predicate TargetOk(items: seq<Item>, operand: Operand) {
    operand.To? ==> operand.at < |items| && (IsValue(items[operand.at]) || items[operand.at].Block?)
  }

  /** Parameters, then blocks, each ended by its one terminator. */
  ghost predicate Blocked(items: seq<Item>) {
    && |items| > 0 && items[|items| - 1].Inst? && items[|items| - 1].terminator
    && forall k {:trigger Follows(items, k)} :: 0 <= k < |items| ==> Follows(items, k)
  }

  predicate Follows(items: seq<Item>, k: nat)
    requires k < |items|
  {
    match items[k]
    case Param(_) => k == 0 || items[k - 1].Param?
    case Block(_) => k == 0 || items[k - 1].Param? || (items[k - 1].Inst? && items[k - 1].terminator)
    case Inst(_, _, _, _, _) => k > 0 && (items[k - 1].Block? || (items[k - 1].Inst? && !items[k - 1].terminator))
  }

  /** A body the printer can write: every use names a parameter, a value or a block of it,
  names are not shared, and only values are named. */
  ghost predicate WellFormed(items: seq<Item>) {
    && Blocked(items) && Targets(items) && NamesDistinct(items)
    && forall k :: 0 <= k < |items| && items[k].Inst? && items[k].name.Some? ==> items[k].produces
  }

  lemma {:induction false} CountGrows(items: seq<Item>, i: nat, j: nat)
    requires i < j <= |items|
    ensures Count(items, i) <= Count(items, j)
    ensures TakesNumber(items[i]) ==> Count(items, i) < Count(items, j)
    decreases j
  {
    if i < j - 1 {
      CountGrows(items, i, j - 1);
    }
  }

  /** Items of one kind never share a name, given or numbered. */
  lemma NameIsUnique(items: seq<Item>, i: nat, j: nat)
    requires WellFormed(items) && i < |items| && j < |items| && i != j && SameSpace(items[i], items[j])
    ensures NameAt(items, i) != NameAt(items, j)
  {
    if i < j {
      assert NamedApart(items, i, j);
      CountGrows(items, i, j);
    } else {
      assert NamedApart(items, j, i);
      CountGrows(items, j, i);
    }
  }

  // ------------------------------------------------------------------- the text

  datatype Written = Local(name: Name) | Target(name: Name) | Constant(text: string)

  datatype Line =
    | Label(name: Name)
    | Line(result: Option<Name>, produces: bool, operands: seq<Written>, terminator: bool, text: string)

  datatype Text = Text(params: seq<Option<Name>>, lines: seq<Line>)

  function WriteOperand(items: seq<Item>, operand: Operand): Written
    requires TargetOk(items, operand)
  {
    match operand
    case Literal(text) => Constant(text)
    case To(at) => if items[at].Block? then Target(NameAt(items, at)) else Local(NameAt(items, at))
  }

  function WriteOperands(items: seq<Item>, operands: seq<Operand>): (r: seq<Written>)
    requires forall i :: 0 <= i < |operands| ==> TargetOk(items, operands[i])
    ensures |r| == |operands|
  {
    seq(|operands|, i requires 0 <= i < |operands| => WriteOperand(items, operands[i]))
  }

  /** Where the parameters from `i` on end. */
  function ParamsEnd(items: seq<Item>, i: nat): (n: nat)
    requires i <= |items|
    ensures i <= n <= |items|
    ensures n < |items| ==> !items[n].Param?
    ensures forall k :: i <= k < n ==> items[k].Param?
    decreases |items| - i
  {
    if i == |items| || !items[i].Param? then i else ParamsEnd(items, i + 1)
  }

  function ParamCount(items: seq<Item>): (n: nat)
    ensures n <= |items|
    ensures n < |items| ==> !items[n].Param?
    ensures forall k :: 0 <= k < n ==> items[k].Param?
  {
    ParamsEnd(items, 0)
  }

  /** The lines of one item. A parameter has none, and an entry block without a name is implied. */
  function WriteItem(items: seq<Item>, k: nat): (lines: seq<Line>)
    requires k < |items| && Targets(items)
    ensures |lines| <= 1
  {
    match items[k]
    case Param(_) => []
    case Block(name) => if name.None? && k == ParamCount(items) then [] else [Label(NameAt(items, k))]
    case Inst(_, produces, operands, terminator, text) =>
      [Line(if produces then Some(NameAt(items, k)) else None, produces,
            WriteOperands(items, operands), terminator, text)]
  }

  function WriteFrom(items: seq<Item>, k: nat): seq<Line>
    requires k <= |items| && Targets(items)
    decreases |items| - k
  {
    if k == |items| then [] else WriteItem(items, k) + WriteFrom(items, k + 1)
  }

  function Write(items: seq<Item>): Text
    requires Targets(items)
  {
    var n := ParamCount(items);
    Text(seq(n, k requires 0 <= k < n => Some(NameAt(items, k))), WriteFrom(items, n))
  }
}
