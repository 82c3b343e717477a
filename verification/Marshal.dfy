/** The generic recursive marshallers of gi/arg.cpp: what converting a JS value allocates, and what releasing the
    result frees. Functions here are the specifications of the loops in MarshalLoops. */
module Marshal {
  import opened Basics
  import opened JsValues
  import opened CValues
  import opened Ledger
  import N = Numeric

  // ----- "to" marshallers

  /** A successful conversion: the C value, the next unused cell id, the cells nothing refers to any more, and
      the cells freed on the way. */
  datatype Marshalled = Ok(c: CVal, next: nat, lost: Bag, scratch: Bag) | Err

  const FLT_MAX: real := 340282346638528859811704183484516925440.0

  function WideFromJs(num: Readings, w: Wide, v: JS): Option<Num> {
    match w
    case WInt(tag) =>
      var n := N.FromJs(num, tag, v);
      if n.Ok? then Some(Fin(n.n as real)) else None
    case WFloat =>
      var x := ToNumber(num, v);
      if x.Some? && x.value.Fin? && !(-FLT_MAX <= x.value.r <= FLT_MAX) then None else x
    case WDouble => ToNumber(num, v)
  }

  /** type_needs_release */
  predicate NeedsRelease(ty: GiType) {
    match ty
    case TBasic(b) => IsString(b)
    case TWide(_) => false
    case _ => true
  }

  /** The keys and values JS_Enumerate visits: array elements are properties too. */
  function IndexProps(elems: seq<JS>): (ps: seq<Prop>)
    ensures |ps| == |elems| && forall i :: 0 <= i < |elems| ==> ps[i] == Prop(Print(i), elems[i])
  {
    seq(|elems|, i requires 0 <= i < |elems| => Prop(Print(i), elems[i]))
  }

  function Props(v: JS): seq<Prop>
    requires v.Obj? || v.Arr?
  {
    if v.Obj? then v.props else IndexProps(v.elems)
  }

  ghost function ToBasic(num: Readings, b: Basic, v: JS, nullable: bool, next: nat): Marshalled {
    match b
    case BStr =>
      if v.Null? && nullable then Ok(CNull, next, Empty, Empty)
      else if v.Str? then Ok(CStr(next, CText(v.s)), next + 1, Empty, Empty)
      else Err
    case BInt(tag) =>
      var n := N.FromJs(num, tag, v);
      if n.Ok? then Ok(CInt(n.n), next, Empty, Empty) else Err
  }

  /** gjs_value_to_gi_argument */
  ghost function To(num: Readings, ty: GiType, v: JS, nullable: bool, transfer: Transfer, next: nat): Marshalled
    decreases ty, 0
  {
    match ty
    case TBasic(b) => ToBasic(num, b, v, nullable, next)
    case TWide(w) =>
      var x := WideFromJs(num, w, v);
      if x.Some? then Ok(CWide(next, x.value), next + 1, Empty, Empty) else Err
    case TList(e) =>
      if !v.Arr? || (transfer.Container? && !e.TBasic? && NeedsRelease(e)) then Err
      else ToNodes(Converter(num, e, false, ElementTransfer(transfer)), v.elems, [], next)
    case THash(k, val) =>
      if v.Null? && nullable then Ok(CNull, next, Empty, Empty)
      else if !v.Obj? && !v.Arr? then Err
      else if transfer.Container? && (IsString(k) || NeedsRelease(val)) then Err
      else ToEntries(num, k, Converter(num, val, true, ElementTransfer(transfer)), Props(v), next, [], next + 1)
    case TArray(_, b) =>
      if v.Null? && nullable then Ok(CArray(next, []), next + 1, Empty, Empty)
      else if !v.Arr? then Err
      else ToItems(num, b, v.elems, [], next + 1, next)
  }

  /** The conversion of one type, as the loops over elements and properties use it. */
  ghost function Converter(num: Readings, ty: GiType, nullable: bool, transfer: Transfer): (JS, nat) -> Marshalled
    decreases ty, 1
  {
    (v: JS, next: nat) => To(num, ty, v, nullable, transfer, next)
  }

  /** Container transfer of elements that need no release is no transfer of them. */
  function ElementTransfer(transfer: Transfer): Transfer {
    if transfer.Container? then Nothing else transfer
  }

  /** The outcome `r`, after a step that also lost and freed cells. */
  function Also(r: Marshalled, lost: Bag, scratch: Bag): Marshalled {
    if r.Ok? then r.(lost := Plus(r.lost, lost), scratch := Plus(r.scratch, scratch)) else Err
  }

  /** List elements still to convert, `acc` being the nodes already built, in order. */
  ghost function ToNodes(conv: (JS, nat) -> Marshalled, elems: seq<JS>, acc: seq<Node>, next: nat): Marshalled
    decreases |elems|
  {
    if elems == [] then Ok(CList(acc), next, Empty, Empty)
    else
      match conv(elems[0], next)
      case Err => Err
      case Ok(c, n, l, s) => Also(ToNodes(conv, elems[1..], acc + [Node(n, c)], n + 1), l, s)
  }

  function KeyToInt(num: Readings, tag: IntTag, key: string): int {
    tag.Cast(Integral(ToNumber(num, Str(key)).value))
  }

  predicate SupportedKey(k: Basic) { k.BInt? ==> k.tag.Small() }

  /** value_to_ghashtable_key: an out-of-range integer key raises an exception but is cast and used. */
  function ToKey(num: Readings, k: Basic, key: string, next: nat): CVal {
    match k
    case BStr => CStr(next, CText(key))
    case BInt(tag) => CInt(KeyToInt(num, tag, key))
  }

  function KeyCells(k: Basic): nat { if k.BStr? then 1 else 0 }

  /** g_str_equal on string keys, pointer equality on stuffed integers. */
  predicate SameKey(a: CVal, b: CVal) {
    (a.CStr? && b.CStr? && a.text == b.text) || (a.CInt? && b.CInt? && a.n == b.n)
  }

  function FindKey(entries: seq<Entry>, key: CVal): (r: Option<nat>)
    ensures r.Some? ==> r.value < |entries| && SameKey(entries[r.value].key, key)
  {
    if entries == [] then None
    else if SameKey(entries[0].key, key) then Some(0)
    else
      var r := FindKey(entries[1..], key);
      if r.None? then None else Some(r.value + 1)
  }

  lemma {:induction false} FindNone(entries: seq<Entry>, key: CVal)
    ensures FindKey(entries, key).None? <==> forall i :: 0 <= i < |entries| ==> !SameKey(entries[i].key, key)
  {
    if entries != [] {
      FindNone(entries[1..], key);
      assert forall i :: 1 <= i < |entries| ==> entries[i] == entries[1..][i - 1];
    }
  }

  /** g_hash_table_insert on a table without destroy functions: an equal key keeps its place, takes the new value
      and drops the new key. */
  function Insert(entries: seq<Entry>, e: Entry): seq<Entry> {
    if entries == [] then [e]
    else if SameKey(entries[0].key, e.key) then [Entry(entries[0].key, e.val)] + entries[1..]
    else [entries[0]] + Insert(entries[1..], e)
  }

  ghost function InsertLoses(entries: seq<Entry>, e: Entry): Bag {
    if entries == [] then Empty
    else if SameKey(entries[0].key, e.key) then Plus(Cells(e.key), Cells(entries[0].val))
    else InsertLoses(entries[1..], e)
  }

  /** The same by the place where the key is found. */
  lemma {:induction false} InsertAt(entries: seq<Entry>, e: Entry)
    ensures var at := FindKey(entries, e.key);
            if at.None? then Insert(entries, e) == entries + [e] && InsertLoses(entries, e) == Empty
            else
              && Insert(entries, e) == entries[at.value := Entry(entries[at.value].key, e.val)]
              && InsertLoses(entries, e) == Plus(Cells(e.key), Cells(entries[at.value].val))
  {
    if entries != [] && !SameKey(entries[0].key, e.key) { InsertAt(entries[1..], e); }
  }

  /** All properties are converted, the heap starting at `next`. */
  ghost predicate EntriesOk(k: Basic, conv: (JS, nat) -> Marshalled, props: seq<Prop>, next: nat)
    decreases |props|
  {
    props == []
    || (SupportedKey(k) && conv(props[0].val, next + KeyCells(k)).Ok?
        && EntriesOk(k, conv, props[1..], conv(props[0].val, next + KeyCells(k)).next))
  }

  /** Properties still to convert, `acc` being the table built so far. */
  ghost function ToEntries(num: Readings, k: Basic, conv: (JS, nat) -> Marshalled, props: seq<Prop>, table: nat,
                           acc: seq<Entry>, next: nat): (r: Marshalled)
    ensures r.Ok? <==> EntriesOk(k, conv, props, next)
    decreases |props|
  {
    if props == [] then Ok(CHash(table, acc), next, Empty, Empty)
    else if !SupportedKey(k) then Err
    else
      match conv(props[0].val, next + KeyCells(k))
      case Err => Err
      case Ok(c, n, l, s) =>
        var e := Entry(ToKey(num, k, props[0].key, next), c);
        Also(ToEntries(num, k, conv, props[1..], table, Insert(acc, e), n), Plus(l, InsertLoses(acc, e)), s)
  }

  /** Array items still to convert; the temporary C array `buffer` is copied and freed at the end. */
  ghost function ToItems(num: Readings, b: Basic, elems: seq<JS>, acc: seq<CVal>, next: nat, buffer: nat): Marshalled
    decreases |elems|
  {
    if elems == [] then Ok(CArray(next, acc), next + 1, Empty, Cell(buffer))
    else
      match ToItem(num, b, elems[0], next)
      case Err => Err
      case Ok(c, n, _, _) => ToItems(num, b, elems[1..], acc + [c], n, buffer)
  }

  /** js_value_to_c_strict: strings may be null, integers are cast without a range check. */
  ghost function ToItem(num: Readings, b: Basic, v: JS, next: nat): Marshalled {
    match b
    case BStr => ToBasic(num, BStr, v, true, next)
    case BInt(tag) =>
      var x := ToNumber(num, v);
      if x.None? then Err else Ok(CInt(tag.Cast(Integral(x.value))), next, Empty, Empty)
  }

  // ----- "release" marshallers

  /** gjs_g_arg_release_internal: driven by the type, not by the value. */
  ghost function Released(ty: GiType, transfer: Transfer, c: CVal): Bag
    decreases ty, 0, 0
  {
    match ty
    case TBasic(b) => if IsString(b) && c.CStr? then Cell(c.cell) else Empty
    case TWide(_) => Empty
    case TList(e) =>
      if !c.CList? then Empty
      else Plus(if transfer.Container? then Empty else ReleasedNodes(e, transfer, c.nodes), Links(c.nodes))
    case THash(k, v) =>
      if !c.CHash? then Empty
      else Plus(if transfer.Container? then Empty else ReleasedEntries(k, v, transfer, c.entries), Cell(c.table))
    case TArray(_, b) =>
      if !c.CArray? then Empty
      else Plus(if transfer.Container? || !IsString(b) then Empty else Strings(c.items), Cell(c.header))
  }

  ghost function Links(nodes: seq<Node>): Bag {
    if nodes == [] then Empty else Plus(Cell(nodes[0].cell), Links(nodes[1..]))
  }

  ghost function Strings(items: seq<CVal>): Bag {
    if items == [] then Empty
    else Plus(if items[0].CStr? then Cell(items[0].cell) else Empty, Strings(items[1..]))
  }

  ghost function ReleasedNodes(e: GiType, transfer: Transfer, nodes: seq<Node>): Bag
    decreases e, 1, |nodes|
  {
    if nodes == [] then Empty
    else Plus(Released(e, transfer, nodes[0].data), ReleasedNodes(e, transfer, nodes[1..]))
  }

  ghost function ReleasedEntries(k: Basic, v: GiType, transfer: Transfer, entries: seq<Entry>): Bag
    decreases v, 1, |entries|
  {
    if entries == [] then Empty
    else
      Plus(Plus(ReleasedKey(k, entries[0].key), ReleasedHashValue(v, transfer, entries[0].val)),
           ReleasedEntries(k, v, transfer, entries[1..]))
  }

  ghost function ReleasedKey(k: Basic, key: CVal): Bag {
    if IsString(k) && key.CStr? then Cell(key.cell) else Empty
  }

  /** Hash values too wide for a pointer are the one place where a number is freed. */
  ghost function ReleasedHashValue(v: GiType, transfer: Transfer, c: CVal): Bag
    decreases v, 0, 1
  {
    if v.TWide? then (if c.CWide? then Cell(c.cell) else Empty) else Released(v, transfer, c)
  }

  /** gjs_gi_argument_release_in_arg */
  ghost function ReleasedIn(ty: GiType, transfer: Transfer, c: CVal): Bag {
    if transfer != Nothing || !NeedsRelease(ty) then Empty else Released(ty, Nothing, c)
  }

  /** gjs_gi_argument_release of an out argument or return value */
  ghost function ReleasedOut(ty: GiType, transfer: Transfer, c: CVal): Bag {
    if transfer == Nothing then Empty else Released(ty, transfer, c)
  }

  // ----- allocation is conserved by conversion; `x` is an arbitrary cell

  lemma {:induction false} NodesCellsAppend(a: seq<Node>, n: Node, x: nat)
    ensures Count(NodesCells(a + [n]), x) == Count(NodesCells(a), x) + Count(NodeCells(n), x)
  {
    if a == [] {
      assert a + [n] == [n];
    } else {
      NodesCellsAppend(a[1..], n, x);
      assert (a + [n])[1..] == a[1..] + [n];
    }
  }

  lemma {:induction false} EntriesCellsAppend(a: seq<Entry>, e: Entry, x: nat)
    ensures Count(EntriesCells(a + [e]), x) == Count(EntriesCells(a), x) + Count(EntryCells(e), x)
  {
    if a == [] {
      assert a + [e] == [e];
    } else {
      EntriesCellsAppend(a[1..], e, x);
      assert (a + [e])[1..] == a[1..] + [e];
    }
  }

  lemma {:induction false} ItemsCellsAppend(a: seq<CVal>, c: CVal, x: nat)
    ensures Count(ItemsCells(a + [c]), x) == Count(ItemsCells(a), x) + Count(Cells(c), x)
  {
    if a == [] {
      assert a + [c] == [c];
    } else {
      ItemsCellsAppend(a[1..], c, x);
      assert (a + [c])[1..] == a[1..] + [c];
    }
  }

  lemma {:induction false} EntriesCellsReplace(a: seq<Entry>, i: nat, v: CVal, x: nat)
    requires i < |a|
    ensures Count(EntriesCells(a[i := Entry(a[i].key, v)]), x) + Count(Cells(a[i].val), x)
         == Count(EntriesCells(a), x) + Count(Cells(v), x)
  {
    var b := a[i := Entry(a[i].key, v)];
    if i == 0 {
      assert b[1..] == a[1..];
    } else {
      EntriesCellsReplace(a[1..], i - 1, v, x);
      assert b[1..] == a[1..][i - 1 := Entry(a[i].key, v)];
    }
  }

  lemma {:induction false} InsertConserves(a: seq<Entry>, e: Entry, x: nat)
    ensures Count(EntriesCells(Insert(a, e)), x) + Count(InsertLoses(a, e), x)
         == Count(EntriesCells(a), x) + Count(EntryCells(e), x)
  {
    var at := FindKey(a, e.key);
    InsertAt(a, e);
    if at.None? { EntriesCellsAppend(a, e, x); } else { EntriesCellsReplace(a, at.value, e.val, x); }
  }

  /** Of `before` cells `x` and those allocated since id `next`, each is held, lost or freed: one of the three. */
  ghost predicate Balanced(r: Marshalled, before: nat, next: nat, x: nat) {
    r.Ok? ==>
      && next <= r.next
      && Count(Cells(r.c), x) + Count(r.lost, x) + Count(r.scratch, x) == before + Once(next, r.next, x)
  }

  lemma {:induction false} KeyBalanced(num: Readings, k: Basic, key: string, next: nat, x: nat)
    ensures Count(Cells(ToKey(num, k, key, next)), x) == Once(next, next + KeyCells(k), x)
  {
  }

  /** One more entry: `n` follows its key, `r` is its value's conversion, `rest` that of the remaining properties. */
  lemma {:induction false} EntryBalanced(e: Entry, r: Marshalled, rest: Marshalled, table: nat, acc: seq<Entry>,
                                         next: nat, n: nat, x: nat)
    requires next <= n && Count(Cells(e.key), x) == Once(next, n, x)
    requires r.Ok? && r.c == e.val && Balanced(r, 0, n, x)
    requires Balanced(rest, Count(Cells(CHash(table, Insert(acc, e))), x), r.next, x)
    ensures Balanced(Also(rest, Plus(r.lost, InsertLoses(acc, e)), r.scratch), Count(Cells(CHash(table, acc)), x),
                     next, x)
  {
    InsertConserves(acc, e, x);
  }

  /** The conversion keeps the books, as far as cell `x` is concerned. */
  ghost predicate Conserving(conv: (JS, nat) -> Marshalled, x: nat) {
    forall v: JS, next: nat :: Balanced(conv(v, next), 0, next, x)
  }

  lemma {:induction false} ToBalanced(num: Readings, ty: GiType, v: JS, nullable: bool, transfer: Transfer, next: nat,
                                      x: nat)
    ensures Balanced(To(num, ty, v, nullable, transfer, next), 0, next, x)
    decreases ty, 0
  {
    match ty
    case TBasic(b) =>
    case TWide(w) =>
    case TList(e) =>
      ConverterBalanced(num, e, false, ElementTransfer(transfer), x);
      if v.Arr? { ToNodesBalanced(Converter(num, e, false, ElementTransfer(transfer)), v.elems, [], next, x); }
    case THash(k, val) =>
      var conv := Converter(num, val, true, ElementTransfer(transfer));
      ConverterBalanced(num, val, true, ElementTransfer(transfer), x);
      if v.Obj? || v.Arr? {
        ToEntriesBalanced(num, k, conv, Props(v), next, [], next + 1, x);
        TableBalanced(ToEntries(num, k, conv, Props(v), next, [], next + 1), next, x);
      }
    case TArray(_, b) =>
      if v.Arr? {
        ToItemsBalanced(num, b, v.elems, [], next + 1, next, x);
        BufferBalanced(ToItems(num, b, v.elems, [], next + 1, next), next, x);
      }
  }

  lemma {:induction false} ConverterBalanced(num: Readings, ty: GiType, nullable: bool, transfer: Transfer, x: nat)
    ensures Conserving(Converter(num, ty, nullable, transfer), x)
    decreases ty, 1
  {
    var conv := Converter(num, ty, nullable, transfer);
    forall v: JS, next: nat ensures Balanced(conv(v, next), 0, next, x) {
      ToBalanced(num, ty, v, nullable, transfer, next, x);
    }
  }

  lemma {:induction false} TableBalanced(r: Marshalled, table: nat, x: nat)
    requires Balanced(r, Count(Cells(CHash(table, [])), x), table + 1, x)
    ensures Balanced(r, 0, table, x)
  {
    assert Count(Cells(CHash(table, [])), x) == Once(table, table + 1, x);
  }

  lemma {:induction false} BufferBalanced(r: Marshalled, buffer: nat, x: nat)
    requires Balanced(r, Count(ItemsCells([]), x) + Count(Cell(buffer), x), buffer + 1, x)
    ensures Balanced(r, 0, buffer, x)
  {
  }

  lemma {:induction false} ToNodesBalanced(conv: (JS, nat) -> Marshalled, elems: seq<JS>, acc: seq<Node>, next: nat,
                                           x: nat)
    requires Conserving(conv, x)
    ensures Balanced(ToNodes(conv, elems, acc, next), Count(NodesCells(acc), x), next, x)
    decreases |elems|
  {
    if elems != [] {
      var r := conv(elems[0], next);
      assert Balanced(r, 0, next, x);
      if r.Ok? {
        NodesCellsAppend(acc, Node(r.next, r.c), x);
        ToNodesBalanced(conv, elems[1..], acc + [Node(r.next, r.c)], r.next + 1, x);
      }
    }
  }

  lemma {:induction false} ToEntriesBalanced(num: Readings, k: Basic, conv: (JS, nat) -> Marshalled, props: seq<Prop>,
                                             table: nat, acc: seq<Entry>, next: nat, x: nat)
    requires Conserving(conv, x)
    ensures Balanced(ToEntries(num, k, conv, props, table, acc, next), Count(Cells(CHash(table, acc)), x), next, x)
    decreases |props|
  {
    if props != [] && SupportedKey(k) {
      var n := next + KeyCells(k);
      var r := conv(props[0].val, n);
      assert Balanced(r, 0, n, x);
      if r.Ok? {
        var e := Entry(ToKey(num, k, props[0].key, next), r.c);
        ToEntriesBalanced(num, k, conv, props[1..], table, Insert(acc, e), r.next, x);
        KeyBalanced(num, k, props[0].key, next, x);
        EntryBalanced(e, r, ToEntries(num, k, conv, props[1..], table, Insert(acc, e), r.next), table, acc, next, n, x);
      }
    }
  }

  lemma {:induction false} ToItemsBalanced(num: Readings, b: Basic, elems: seq<JS>, acc: seq<CVal>, next: nat,
                                           buffer: nat, x: nat)
    ensures Balanced(ToItems(num, b, elems, acc, next, buffer),
                     Count(ItemsCells(acc), x) + Count(Cell(buffer), x), next, x)
    decreases |elems|
  {
    if elems != [] {
      var r := ToItem(num, b, elems[0], next);
      if r.Ok? {
        ItemsCellsAppend(acc, r.c, x);
        ToItemsBalanced(num, b, elems[1..], acc + [r.c], r.next, buffer, x);
      }
    }
  }

  /** Whatever the type and the value: each cell a successful conversion allocates is in the C value, or was lost to a
      colliding hash key, or was freed on the way; in one of these only, and once. */
  lemma {:induction false} ToConserves(num: Readings, ty: GiType, v: JS, nullable: bool, transfer: Transfer, next: nat)
    ensures var r := To(num, ty, v, nullable, transfer, next);
            r.Ok? ==> next <= r.next && Allocated(Plus(Cells(r.c), Plus(r.lost, r.scratch)), next, r.next)
  {
    var r := To(num, ty, v, nullable, transfer, next);
    forall x: nat ensures Balanced(r, 0, next, x) { ToBalanced(num, ty, v, nullable, transfer, next, x); }
    BalancedAllocated(r, next);
  }

  lemma {:induction false} BalancedAllocated(r: Marshalled, next: nat)
    requires forall x: nat :: Balanced(r, 0, next, x)
    ensures r.Ok? ==> next <= r.next && Allocated(Plus(Cells(r.c), Plus(r.lost, r.scratch)), next, r.next)
  {
    if r.Ok? {
      assert Balanced(r, 0, next, 0);
      var all := Plus(Cells(r.c), Plus(r.lost, r.scratch));
      forall x: nat ensures Count(all, x) == Once(next, r.next, x) { assert Balanced(r, 0, next, x); }
    }
  }
}
