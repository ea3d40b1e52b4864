/** Where a module names metadata, and the order in which its printer comes to it. */
module MetadataRoots {
  import opened MetadataNodes
  import opened Numbering

  datatype MdRef = Id(id: MdId) | Here(node: Metadata)

  datatype Attachment = Attachment(kind: string, node: MdRef)

  /** An instruction's metadata: the ids among a call's or a debug record's operands, and
  what is attached to it. */
  datatype Noted = Noted(operands: seq<MdId>, attachments: seq<Attachment>)

  datatype Body = Body(attachments: seq<Attachment>, blocks: seq<seq<Noted>>)

  datatype Module = Module(
    globals: seq<seq<Attachment>>, aliases: seq<seq<Attachment>>, ifuncs: seq<seq<Attachment>>,
    named: seq<seq<MdId>>, functions: seq<Body>)

  const KindsInOrder: seq<string> := [
    "dbg", "tbaa", "prof", "fpmath", "range", "make.implicit", "unpredictable", "llvm.loop",
    "invariant.load", "alias.scope", "noalias", "nontemporal", "nonnull", "dereferenceable",
    "invariant.group", "align", "callees", "llvm.access.group", "noundef", "annotation",
    "nosanitize", "memprof", "callsite", "mmra"]

  function RankedByKind(attachments: seq<Attachment>, kinds: seq<string>): (r: seq<(nat, Attachment)>)
    ensures |r| == |attachments|
  {
    seq(|attachments|, i requires 0 <= i < |attachments| => (PositionOf(kinds, attachments[i].kind), attachments[i]))
  }

  /** Attachments are written by kind, and as they were read where the kind is not known. */
  function InPrintOrder(attachments: seq<Attachment>): (r: seq<Attachment>)
    ensures |r| == |attachments|
  {
    Seconds(StableSort(RankedByKind(attachments, KindsInOrder)))
  }

  function Ids(operands: seq<MdId>): (r: seq<MdRef>)
    ensures |r| == |operands|
  {
    seq(|operands|, i requires 0 <= i < |operands| => Id(operands[i]))
  }

  function Attached(attachments: seq<Attachment>): (r: seq<MdRef>)
    ensures |r| == |attachments|
  {
    var sorted := InPrintOrder(attachments);
    seq(|sorted|, i requires 0 <= i < |sorted| => sorted[i].node)
  }

  function AttachedToEach(holders: seq<seq<Attachment>>): seq<MdRef> {
    if holders == [] then [] else Attached(holders[0]) + AttachedToEach(holders[1..])
  }

  function NamedRoots(named: seq<seq<MdId>>): seq<MdRef> {
    if named == [] then [] else Ids(named[0]) + NamedRoots(named[1..])
  }

  function NotedRoots(noted: seq<Noted>): seq<MdRef> {
    if noted == [] then []
    else Ids(noted[0].operands) + Attached(noted[0].attachments) + NotedRoots(noted[1..])
  }

  function BlockRoots(blocks: seq<seq<Noted>>): seq<MdRef> {
    if blocks == [] then [] else NotedRoots(blocks[0]) + BlockRoots(blocks[1..])
  }

  function BodyRoots(functions: seq<Body>): seq<MdRef> {
    if functions == [] then []
    else Attached(functions[0].attachments) + BlockRoots(functions[0].blocks) + BodyRoots(functions[1..])
  }

  /** Everything a module names, in the order it is come to. */
  function RootsOf(m: Module): seq<MdRef> {
    AttachedToEach(m.globals) + AttachedToEach(m.aliases) + AttachedToEach(m.ifuncs)
    + NamedRoots(m.named) + BodyRoots(m.functions)
  }

  // ------------------------------------------------------------ a module as written

  /** How a module is written: the number for an id, and the text for a node in place. */
  datatype Pen = Pen(number: MdId -> MdId, write: Metadata -> Metadata)

  function PrintRef(root: MdRef, pen: Pen): MdRef {
    match root
    case Id(id) => Id(pen.number(id))
    case Here(node) => Here(pen.write(node))
  }

  function PrintedRoots(roots: seq<MdRef>, pen: Pen): (r: seq<MdRef>)
    ensures |r| == |roots|
  {
    seq(|roots|, i requires 0 <= i < |roots| => PrintRef(roots[i], pen))
  }

  function PrintAttachment(pen: Pen): Attachment -> Attachment {
    (a: Attachment) => Attachment(a.kind, PrintRef(a.node, pen))
  }

  function PrintAttachments(attachments: seq<Attachment>, pen: Pen): (r: seq<Attachment>)
    ensures |r| == |attachments|
  {
    var sorted, written := InPrintOrder(attachments), PrintAttachment(pen);
    seq(|sorted|, i requires 0 <= i < |sorted| => written(sorted[i]))
  }

  function PrintIds(ids: seq<MdId>, pen: Pen): (r: seq<MdId>)
    ensures |r| == |ids|
  {
    var number := pen.number;
    seq(|ids|, i requires 0 <= i < |ids| => number(ids[i]))
  }

  function PrintHolders(holders: seq<seq<Attachment>>, pen: Pen): (r: seq<seq<Attachment>>)
    ensures |r| == |holders|
  {
    seq(|holders|, i requires 0 <= i < |holders| => PrintAttachments(holders[i], pen))
  }

  function PrintNamed(named: seq<seq<MdId>>, pen: Pen): (r: seq<seq<MdId>>)
    ensures |r| == |named|
  {
    seq(|named|, i requires 0 <= i < |named| => PrintIds(named[i], pen))
  }

  function PrintNoted(noted: seq<Noted>, pen: Pen): (r: seq<Noted>)
    ensures |r| == |noted|
  {
    seq(|noted|, i requires 0 <= i < |noted| =>
      Noted(PrintIds(noted[i].operands, pen), PrintAttachments(noted[i].attachments, pen)))
  }

  function PrintBlocks(blocks: seq<seq<Noted>>, pen: Pen): (r: seq<seq<Noted>>)
    ensures |r| == |blocks|
  {
    seq(|blocks|, i requires 0 <= i < |blocks| => PrintNoted(blocks[i], pen))
  }

  function PrintBodies(functions: seq<Body>, pen: Pen): (r: seq<Body>)
    ensures |r| == |functions|
  {
    seq(|functions|, i requires 0 <= i < |functions| =>
      Body(PrintAttachments(functions[i].attachments, pen), PrintBlocks(functions[i].blocks, pen)))
  }

  /** The module's metadata as written: numbers for ids, attachments in print order. */
  function PrintModule(m: Module, pen: Pen): Module {
    Module(PrintHolders(m.globals, pen), PrintHolders(m.aliases, pen), PrintHolders(m.ifuncs, pen),
           PrintNamed(m.named, pen), PrintBodies(m.functions, pen))
  }

  // ----------------------------------------------- the written module, come to again

  lemma PrintedAppend(a: seq<MdRef>, b: seq<MdRef>, pen: Pen)
    ensures PrintedRoots(a + b, pen) == PrintedRoots(a, pen) + PrintedRoots(b, pen)
  {
  }

  /** What is written in print order stays in it. */
  lemma PrintOrderIsKept(attachments: seq<Attachment>, pen: Pen)
    ensures InPrintOrder(PrintAttachments(attachments, pen)) == PrintAttachments(attachments, pen)
  {
    var written, ranked := PrintAttachment(pen), RankedByKind(attachments, KindsInOrder);
    var printed, sorted := PrintAttachments(attachments, pen), StableSort(ranked);
    StableSortIsStable(ranked);
    RankedStay(ranked);
    assert RankedByKind(printed, KindsInOrder) == MapSecond(sorted, written) by {
      forall i | 0 <= i < |sorted|
        ensures RankedByKind(printed, KindsInOrder)[i] == MapSecond(sorted, written)[i]
      {
        var x := sorted[i].1;
        assert RankIsOfKind(sorted[i]);
        assert printed[i] == written(x) && written(x) == Attachment(x.kind, PrintRef(x.node, pen));
        assert MapSecond(sorted, written)[i] == (sorted[i].0, written(x));
      }
    }
    assert SortedByRank(MapSecond(sorted, written));
    SortedStays(MapSecond(sorted, written));
  }

  ghost predicate RankIsOfKind(x: (nat, Attachment)) {
    x.0 == PositionOf(KindsInOrder, x.1.kind)
  }

  lemma {:induction false} RankedStay(s: seq<(nat, Attachment)>)
    requires forall i :: 0 <= i < |s| ==> RankIsOfKind(s[i])
    ensures forall i :: 0 <= i < |s| ==> RankIsOfKind(StableSort(s)[i])
  {
    if s != [] {
      RankedStay(s[1..]);
      InsertRanked(s[0], StableSort(s[1..]));
    }
  }

  lemma {:induction false} InsertRanked(x: (nat, Attachment), s: seq<(nat, Attachment)>)
    requires RankIsOfKind(x) && forall i :: 0 <= i < |s| ==> RankIsOfKind(s[i])
    ensures forall i :: 0 <= i < |s| + 1 ==> RankIsOfKind(Insert(x, s)[i])
  {
    if !(s == [] || x.0 <= s[0].0) {
      InsertRanked(x, s[1..]);
    }
  }

  lemma AttachedPrinted(attachments: seq<Attachment>, pen: Pen)
    ensures Attached(PrintAttachments(attachments, pen)) == PrintedRoots(Attached(attachments), pen)
  {
    PrintOrderIsKept(attachments, pen);
  }

  lemma IdsPrinted(ids: seq<MdId>, pen: Pen)
    ensures Ids(PrintIds(ids, pen)) == PrintedRoots(Ids(ids), pen)
  {
  }

  lemma {:induction false} HoldersPrinted(holders: seq<seq<Attachment>>, pen: Pen)
    ensures AttachedToEach(PrintHolders(holders, pen)) == PrintedRoots(AttachedToEach(holders), pen)
  {
    if holders != [] {
      AttachedPrinted(holders[0], pen);
      HoldersPrinted(holders[1..], pen);
      assert PrintHolders(holders, pen)[1..] == PrintHolders(holders[1..], pen);
      PrintedAppend(Attached(holders[0]), AttachedToEach(holders[1..]), pen);
    }
  }

  lemma {:induction false} NamedPrinted(named: seq<seq<MdId>>, pen: Pen)
    ensures NamedRoots(PrintNamed(named, pen)) == PrintedRoots(NamedRoots(named), pen)
  {
    if named != [] {
      IdsPrinted(named[0], pen);
      NamedPrinted(named[1..], pen);
      assert PrintNamed(named, pen)[1..] == PrintNamed(named[1..], pen);
      PrintedAppend(Ids(named[0]), NamedRoots(named[1..]), pen);
    }
  }

  lemma {:induction false} NotedPrinted(noted: seq<Noted>, pen: Pen)
    ensures NotedRoots(PrintNoted(noted, pen)) == PrintedRoots(NotedRoots(noted), pen)
  {
    if noted != [] {
      var ids, attached, rest := Ids(noted[0].operands), Attached(noted[0].attachments), NotedRoots(noted[1..]);
      IdsPrinted(noted[0].operands, pen);
      AttachedPrinted(noted[0].attachments, pen);
      NotedPrinted(noted[1..], pen);
      assert PrintNoted(noted, pen)[1..] == PrintNoted(noted[1..], pen);
      PrintedAppend(ids, attached, pen);
      PrintedAppend(ids + attached, rest, pen);
    }
  }

  lemma {:induction false} BlocksPrinted(blocks: seq<seq<Noted>>, pen: Pen)
    ensures BlockRoots(PrintBlocks(blocks, pen)) == PrintedRoots(BlockRoots(blocks), pen)
  {
    if blocks != [] {
      NotedPrinted(blocks[0], pen);
      BlocksPrinted(blocks[1..], pen);
      assert PrintBlocks(blocks, pen)[1..] == PrintBlocks(blocks[1..], pen);
      PrintedAppend(NotedRoots(blocks[0]), BlockRoots(blocks[1..]), pen);
    }
  }

  lemma {:induction false} BodiesPrinted(functions: seq<Body>, pen: Pen)
    ensures BodyRoots(PrintBodies(functions, pen)) == PrintedRoots(BodyRoots(functions), pen)
  {
    if functions != [] {
      var attached, blocks := Attached(functions[0].attachments), BlockRoots(functions[0].blocks);
      AttachedPrinted(functions[0].attachments, pen);
      BlocksPrinted(functions[0].blocks, pen);
      BodiesPrinted(functions[1..], pen);
      assert PrintBodies(functions, pen)[1..] == PrintBodies(functions[1..], pen);
      PrintedAppend(attached, blocks, pen);
      PrintedAppend(attached + blocks, BodyRoots(functions[1..]), pen);
    }
  }

  /** The written module names what the module named, in the same order: attachments were
  numbered in the order they are written in. */
  lemma WrittenModuleRoots(m: Module, pen: Pen)
    ensures RootsOf(PrintModule(m, pen)) == PrintedRoots(RootsOf(m), pen)
  {
    HoldersPrinted(m.globals, pen);
    HoldersPrinted(m.aliases, pen);
    HoldersPrinted(m.ifuncs, pen);
    NamedPrinted(m.named, pen);
    BodiesPrinted(m.functions, pen);
    var a, b, c, d := AttachedToEach(m.globals), AttachedToEach(m.aliases), AttachedToEach(m.ifuncs), NamedRoots(m.named);
    PrintedAppend(a, b, pen);
    PrintedAppend(a + b, c, pen);
    PrintedAppend(a + b + c, d, pen);
    PrintedAppend(a + b + c + d, BodyRoots(m.functions), pen);
  }
}
