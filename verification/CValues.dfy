/** Introspected types and the C values they describe. A C value is a tree whose malloc'ed blocks carry the id
    of their heap cell, so that "which cells" can be said of allocation and of release alike. */
module CValues {
  import opened Basics
  import opened JsValues
  import opened Ledger

  /** Basic types that are stuffed into a pointer, or are a pointer to text. */
  datatype Basic = BStr | BInt(tag: IntTag)

  datatype GiType =
    | TBasic(basic: Basic)
    | TWide(wide: Wide)                    // too wide for a pointer
    | TList(elem: GiType)                  // GList and GSList share one template
    | THash(key: Basic, val: GiType)
    | TArray(pointers: bool, item: Basic)  // GPtrArray or GArray

  /** Types whose hash values live in a heap block of their own. */
  datatype Wide = WInt(tag: IntTag) | WFloat | WDouble

  datatype CVal =
    | CNull
    | CInt(n: int)                                 // stuffed in the pointer itself
    | CStr(cell: nat, text: string)
    | CWide(cell: nat, held: Num)
    | CList(nodes: seq<Node>)                      // the empty list is the null pointer
    | CHash(table: nat, entries: seq<Entry>)
    | CArray(header: nat, items: seq<CVal>)        // the struct and its storage, freed together

  datatype Node = Node(cell: nat, data: CVal)

  datatype Entry = Entry(key: CVal, val: CVal)

  predicate IsString(b: Basic) { b.BStr? }

  /** The text C sees: everything up to the first NUL. */
  function CText(s: string): (t: string)
    ensures '\0' !in t && t <= s
    ensures |t| < |s| ==> s[|t|] == '\0'
    ensures '\0' !in s ==> t == s
  {
    if s == [] || s[0] == '\0' then [] else [s[0]] + CText(s[1..])
  }

  /** Types the engine can nest: no wide numbers in lists (they do not fit a pointer) and integers of at most
      32 bits elsewhere; hash values may also be wide. */
  predicate Supported(ty: GiType) {
    match ty
    case TBasic(b) => SmallBasic(b)
    case TWide(_) => false
    case TList(e) => Supported(e)
    case THash(k, v) => SmallBasic(k) && (v.TWide? || Supported(v))
    case TArray(_, b) => SmallBasic(b)
  }

  predicate SmallBasic(b: Basic) { b.BInt? ==> b.tag.Small() }

  // ----- the cells of a value

  ghost function Cells(c: CVal): Bag
    decreases c
  {
    match c
    case CStr(cell, _) => Cell(cell)
    case CWide(cell, _) => Cell(cell)
    case CList(nodes) => NodesCells(nodes)
    case CHash(table, entries) => Plus(Cell(table), EntriesCells(entries))
    case CArray(header, items) => Plus(Cell(header), ItemsCells(items))
    case _ => Empty
  }

  ghost function NodeCells(n: Node): Bag
    decreases n
  {
    Plus(Cells(n.data), Cell(n.cell))
  }

  ghost function NodesCells(nodes: seq<Node>): Bag
    decreases nodes
  {
    if nodes == [] then Empty else Plus(NodeCells(nodes[0]), NodesCells(nodes[1..]))
  }

  ghost function EntryCells(e: Entry): Bag
    decreases e
  {
    Plus(Cells(e.key), Cells(e.val))
  }

  ghost function EntriesCells(entries: seq<Entry>): Bag
    decreases entries
  {
    if entries == [] then Empty else Plus(EntryCells(entries[0]), EntriesCells(entries[1..]))
  }

  ghost function ItemsCells(items: seq<CVal>): Bag
    decreases items
  {
    if items == [] then Empty else Plus(Cells(items[0]), ItemsCells(items[1..]))
  }

  // ----- typing: what the marshallers and well-behaved C functions put into a slot of a given type

  ghost predicate HasType(ty: GiType, c: CVal)
    decreases c, 0
  {
    match ty
    case TBasic(b) => HasBasicType(b, c)
    case TWide(_) => c.CWide?
    case TList(e) => c.CNull? || (c.CList? && forall i :: 0 <= i < |c.nodes| ==> HasType(e, c.nodes[i].data))
    case THash(k, v) =>
      c.CNull? || (c.CHash? && forall i :: 0 <= i < |c.entries| ==>
                                             && HasBasicType(k, c.entries[i].key) && !c.entries[i].key.CNull?
                                             && HasType(v, c.entries[i].val))
    case TArray(_, b) => c.CNull? || (c.CArray? && forall i :: 0 <= i < |c.items| ==> HasBasicType(b, c.items[i]))
  }

  ghost predicate HasBasicType(b: Basic, c: CVal) {
    match b
    case BStr => c.CNull? || (c.CStr? && '\0' !in c.text)
    case BInt(tag) => c.CInt? && tag.Holds(c.n)
  }
}
