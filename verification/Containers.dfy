/** The specialised marshallers for lists and arrays of basic elements (gi/arg-cache.cpp), which replace the generic
    recursive ones of gi/arg.cpp on the fast path: what each frees, and who owns what. */
module Containers {
  import opened Basics
  import opened JsValues
  import opened Ledger
  import opened CValues
  import opened Marshal

  predicate ContainerType(ty: GiType) {
    (ty.TList? && ty.elem.TBasic?) || ty.TArray?
  }

  function Element(ty: GiType): Basic
    requires ContainerType(ty)
  {
    if ty.TList? then ty.elem.basic else ty.item
  }

  /** The pointer by which C knows a container: its first cell. */
  function Pointer(c: CVal): Option<nat> {
    if c.CList? && c.nodes != [] then Some(c.nodes[0].cell)
    else if c.CArray? then Some(c.header)
    else None
  }

  // ----- what is freed

  /** The element strings: release_contents, which only runs for elements that need release. */
  ghost function Contents(ty: GiType, c: CVal): Bag
    requires ContainerType(ty)
  {
    if !IsString(Element(ty)) then Empty
    else if c.CList? then ListStrings(c.nodes)
    else if c.CArray? then Strings(c.items)
    else Empty
  }

  ghost function ListStrings(nodes: seq<Node>): Bag {
    if nodes == [] then Empty
    else Plus(if nodes[0].data.CStr? then Cell(nodes[0].data.cell) else Empty, ListStrings(nodes[1..]))
  }

  /** The container without its elements: release_container. */
  ghost function Holder(c: CVal): Bag {
    if c.CList? then Links(c.nodes) else if c.CArray? then Cell(c.header) else Empty
  }

  /** An argument the callee did not get to keep counts as transfer NOTHING. */
  function Effective(transfer: Transfer, completed: bool): Transfer {
    if completed then transfer else Nothing
  }

  ghost function FreedIn(ty: GiType, transfer: Transfer, c: CVal): Bag
    requires ContainerType(ty)
  {
    if Pointer(c).None? || transfer.Everything? then Empty
    else Plus(Contents(ty, c), if transfer.Container? then Empty else Holder(c))
  }

  ghost function FreedOut(ty: GiType, transfer: Transfer, c: CVal): Bag
    requires ContainerType(ty)
  {
    if Pointer(c).None? || transfer.Nothing? then Empty
    else Plus(if transfer.Container? then Empty else Contents(ty, c), Holder(c))
  }

  ghost function FreedInOut(ty: GiType, transfer: Transfer, original: CVal, c: CVal): Bag
    requires ContainerType(ty)
  {
    Plus(if Pointer(original) == Pointer(c) then Empty else FreedIn(ty, transfer, original), FreedOut(ty, transfer, c))
  }

  // ----- who owns what, by the annotations

  /** What a callee takes over of an argument. */
  ghost function Taken(transfer: Transfer, c: CVal): Bag {
    match transfer
    case Nothing => Empty
    case Container => Holder(c)
    case Everything => Cells(c)
  }

  /** What is left to the caller. */
  ghost function Kept(ty: GiType, transfer: Transfer, c: CVal): Bag
    requires ContainerType(ty)
  {
    match transfer
    case Nothing => Cells(c)
    case Container => Contents(ty, c)
    case Everything => Empty
  }

  // ----- proofs, for an arbitrary cell x

  /** A typed container is its elements and its holder. */
  lemma {:induction false} ContentsAndHolder(ty: GiType, c: CVal, x: nat)
    requires ContainerType(ty) && HasType(ty, c)
    ensures Count(Contents(ty, c), x) + Count(Holder(c), x) == Count(Cells(c), x)
    ensures Pointer(c).None? ==> Count(Cells(c), x) == 0 && Count(Holder(c), x) == 0
  {
    if c.CList? { ListContents(Element(ty), c.nodes, x); }
    if c.CArray? { ArrayContents(Element(ty), c.items, x); }
  }

  lemma {:induction false} ListContents(b: Basic, nodes: seq<Node>, x: nat)
    requires forall i :: 0 <= i < |nodes| ==> HasType(TBasic(b), nodes[i].data)
    ensures Count(if IsString(b) then ListStrings(nodes) else Empty, x) + Count(Links(nodes), x)
         == Count(NodesCells(nodes), x)
  {
    if nodes != [] {
      assert HasType(TBasic(b), nodes[0].data);
      ListContents(b, nodes[1..], x);
      assert Count(NodeCells(nodes[0]), x) == Count(Cells(nodes[0].data), x) + Count(Cell(nodes[0].cell), x);
    }
  }

  lemma {:induction false} ArrayContents(b: Basic, items: seq<CVal>, x: nat)
    requires forall i :: 0 <= i < |items| ==> HasBasicType(b, items[i])
    ensures Count(if IsString(b) then Strings(items) else Empty, x) == Count(ItemsCells(items), x)
  {
    if items != [] {
      assert HasBasicType(b, items[0]);
      ArrayContents(b, items[1..], x);
    }
  }

  /** In arguments: whatever the transfer mode and whatever became of the call, each cell of the argument was either
      taken by the callee or is freed, and not both. */
  lemma {:induction false} InPartition(ty: GiType, transfer: Transfer, completed: bool, c: CVal, x: nat)
    requires ContainerType(ty) && HasType(ty, c)
    ensures var t := Effective(transfer, completed);
            Count(FreedIn(ty, t, c), x) + Count(Taken(t, c), x) == Count(Cells(c), x)
  {
    ContentsAndHolder(ty, c, x);
  }

  /** Return values and out arguments: exactly what the callee handed over is freed. */
  lemma {:induction false} OutFreesHandedOver(ty: GiType, transfer: Transfer, c: CVal, x: nat)
    requires ContainerType(ty) && HasType(ty, c)
    ensures Count(FreedOut(ty, transfer, c), x) == Count(Taken(transfer, c), x)
  {
    ContentsAndHolder(ty, c, x);
  }

  /** Inout arguments: of the cells GJS still owns (what was left to it of the value passed in, and what was handed
      over to it) all are freed but those of a value that came back in place; so none that it does not own, and none
      twice. */
  lemma {:induction false} InOutAccounted(ty: GiType, transfer: Transfer, completed: bool, original: CVal, c: CVal,
                                          x: nat)
    requires ContainerType(ty) && HasType(ty, original) && HasType(ty, c)
    ensures var t := Effective(transfer, completed);
            var stranded := if Pointer(original) == Pointer(c) then Kept(ty, t, original) else Empty;
            Count(FreedInOut(ty, t, original, c), x) + Count(stranded, x)
            == Count(Kept(ty, t, original), x) + Count(Taken(t, c), x)
  {
    ContentsAndHolder(ty, original, x);
    ContentsAndHolder(ty, c, x);
  }

  /** In particular no cell is freed twice, if the value handed over shares none with what was left to GJS. */
  lemma {:induction false} InOutFreedOnce(ty: GiType, transfer: Transfer, completed: bool, original: CVal, c: CVal,
                                          x: nat)
    requires ContainerType(ty) && HasType(ty, original) && HasType(ty, c)
    requires var t := Effective(transfer, completed); Count(Kept(ty, t, original), x) + Count(Taken(t, c), x) <= 1
    ensures Count(FreedInOut(ty, Effective(transfer, completed), original, c), x) <= 1
  {
    InOutAccounted(ty, transfer, completed, original, c, x);
  }

  /** Everything GJS owns of an inout argument is freed if and only if the value did not come back in place, or
      nothing of it was left to GJS. The latter means transfer EVERYTHING and a completed call, or an argument without
      such cells. */
  lemma {:induction false} InOutReclaimedIff(ty: GiType, transfer: Transfer, completed: bool, original: CVal, c: CVal)
    requires ContainerType(ty) && HasType(ty, original) && HasType(ty, c)
    ensures var t := Effective(transfer, completed);
            (forall x: nat :: Count(FreedInOut(ty, t, original, c), x)
                              == Count(Kept(ty, t, original), x) + Count(Taken(t, c), x))
            <==> Pointer(original) != Pointer(c) || (forall x: nat :: Count(Kept(ty, t, original), x) == 0)
  {
    var t := Effective(transfer, completed);
    var stranded := if Pointer(original) == Pointer(c) then Kept(ty, t, original) else Empty;
    forall x: nat
      ensures Count(FreedInOut(ty, t, original, c), x) + Count(stranded, x)
           == Count(Kept(ty, t, original), x) + Count(Taken(t, c), x)
    {
      InOutAccounted(ty, transfer, completed, original, c, x);
    }
  }

  /** A list of one integer, transferred completely to a call that fails, comes back as it was, and its link is left
      over. */
  lemma InOutLeftOver(cell: nat)
    ensures var ty, list := TList(TBasic(BInt(I32))), CList([Node(cell, CInt(0))]);
            var t := Effective(Everything, false);
            && HasType(ty, list)
            && Count(Kept(ty, t, list), cell) == 1 && Count(FreedInOut(ty, t, list, list), cell) == 0
  {
    var nodes := [Node(cell, CInt(0))];
    assert nodes[1..] == [];
    assert Count(NodeCells(nodes[0]), cell) == 1;
    assert Count(NodesCells(nodes), cell) == Count(NodeCells(nodes[0]), cell) + Count(NodesCells(nodes[1..]), cell);
  }

  // ----- the fast release refines the generic one

  lemma {:induction false} ListStringsReleased(b: Basic, transfer: Transfer, nodes: seq<Node>, x: nat)
    ensures Count(if IsString(b) then ListStrings(nodes) else Empty, x)
         == Count(ReleasedNodes(TBasic(b), transfer, nodes), x)
  {
    if nodes != [] { ListStringsReleased(b, transfer, nodes[1..], x); }
  }

  /** For returns and out arguments of any basic container type, in each transfer mode and for any value, null included,
      the fast release frees the same cells as the generic one. */
  lemma {:induction false} FastRefinesGeneric(ty: GiType, transfer: Transfer, c: CVal)
    requires ContainerType(ty) && (ty.TList? ==> !c.CArray?) && (ty.TArray? ==> !c.CList?)
    ensures Same(FreedOut(ty, transfer, c), ReleasedOut(ty, transfer, c))
  {
    forall x: nat ensures Count(FreedOut(ty, transfer, c), x) == Count(ReleasedOut(ty, transfer, c), x) {
      if ty.TList? && c.CList? { ListStringsReleased(ty.elem.basic, transfer, c.nodes, x); }
    }
  }

  /** So does the fast release of in arguments, for the one transfer mode the generic release handles. */
  lemma {:induction false} FastInRefinesGeneric(ty: GiType, c: CVal)
    requires ContainerType(ty) && (ty.TList? ==> !c.CArray?) && (ty.TArray? ==> !c.CList?)
    ensures Same(FreedIn(ty, Nothing, c), ReleasedIn(ty, Nothing, c))
  {
    forall x: nat ensures Count(FreedIn(ty, Nothing, c), x) == Count(ReleasedIn(ty, Nothing, c), x) {
      if ty.TList? && c.CList? { ListStringsReleased(ty.elem.basic, Nothing, c.nodes, x); }
    }
  }
}
