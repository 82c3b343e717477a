/** Conversion followed by release frees what conversion allocated: by induction over the introspected type. */
module MarshalMemory {
  import opened Basics
  import opened JsValues
  import opened Ledger
  import opened CValues
  import opened Marshal

  // ----- converted values have the type they were converted to

  /** No pointer to an array is null: a null JS value is converted to an empty array. */
  ghost predicate NoNullArray(ty: GiType, c: CVal)
    decreases c
  {
    match ty
    case TList(e) => c.CList? ==> forall i :: 0 <= i < |c.nodes| ==> NoNullArray(e, c.nodes[i].data)
    case THash(_, v) => c.CHash? ==> forall i :: 0 <= i < |c.entries| ==> NoNullArray(v, c.entries[i].val)
    case TArray(_, _) => c.CArray?
    case _ => true
  }

  ghost predicate Typed(ty: GiType, c: CVal) {
    HasType(ty, c) && NoNullArray(ty, c)
  }

  ghost predicate Yields(conv: (JS, nat) -> Marshalled, ty: GiType) {
    forall v: JS, next: nat :: conv(v, next).Ok? ==> Typed(ty, conv(v, next).c)
  }

  lemma {:induction false} ToHasType(num: Readings, ty: GiType, v: JS, nullable: bool, transfer: Transfer, next: nat)
    ensures var r := To(num, ty, v, nullable, transfer, next); r.Ok? ==> Typed(ty, r.c)
    decreases ty, 0
  {
    match ty
    case TBasic(b) => BasicHasType(num, b, v, nullable, next);
    case TWide(w) =>
    case TList(e) =>
      ConverterYields(num, e, false, ElementTransfer(transfer));
      if v.Arr? { ToNodesHasType(e, Converter(num, e, false, ElementTransfer(transfer)), v.elems, [], next); }
    case THash(k, val) =>
      ConverterYields(num, val, true, ElementTransfer(transfer));
      if v.Obj? || v.Arr? {
        var conv := Converter(num, val, true, ElementTransfer(transfer));
        ToEntriesHasType(num, k, val, conv, Props(v), next, [], next + 1);
      }
    case TArray(_, b) => if v.Arr? { ToItemsHasType(num, b, v.elems, [], next + 1, next); }
  }

  lemma {:induction false} ConverterYields(num: Readings, ty: GiType, nullable: bool, transfer: Transfer)
    ensures Yields(Converter(num, ty, nullable, transfer), ty)
    decreases ty, 1
  {
    var conv := Converter(num, ty, nullable, transfer);
    forall v: JS, next: nat ensures conv(v, next).Ok? ==> Typed(ty, conv(v, next).c) {
      ToHasType(num, ty, v, nullable, transfer, next);
    }
  }

  lemma {:induction false} BasicHasType(num: Readings, b: Basic, v: JS, nullable: bool, next: nat)
    ensures var r := ToBasic(num, b, v, nullable, next); r.Ok? ==> HasBasicType(b, r.c)
  {
    if b.BInt? && N.FromJs(num, b.tag, v).Ok? { N.AcceptedFits(num, b.tag, v); }
  }

  ghost predicate NodesTyped(e: GiType, nodes: seq<Node>) {
    forall i :: 0 <= i < |nodes| ==> HasType(e, nodes[i].data)
  }

  ghost predicate NodesWhole(e: GiType, nodes: seq<Node>) {
    forall i :: 0 <= i < |nodes| ==> NoNullArray(e, nodes[i].data)
  }

  ghost predicate EntriesWhole(v: GiType, entries: seq<Entry>) {
    forall i :: 0 <= i < |entries| ==> NoNullArray(v, entries[i].val)
  }

  ghost predicate EntriesTyped(k: Basic, v: GiType, entries: seq<Entry>) {
    forall i :: 0 <= i < |entries| ==>
                  HasBasicType(k, entries[i].key) && !entries[i].key.CNull? && HasType(v, entries[i].val)
  }

  lemma {:induction false} ToNodesHasType(e: GiType, conv: (JS, nat) -> Marshalled, elems: seq<JS>, acc: seq<Node>,
                                          next: nat)
    requires Yields(conv, e) && NodesTyped(e, acc) && NodesWhole(e, acc)
    ensures var r := ToNodes(conv, elems, acc, next); r.Ok? ==> Typed(TList(e), r.c)
    decreases |elems|
  {
    if elems != [] {
      var r := conv(elems[0], next);
      if r.Ok? { ToNodesHasType(e, conv, elems[1..], acc + [Node(r.next, r.c)], r.next + 1); }
    }
  }

  lemma KeyHasType(num: Readings, k: Basic, key: string, next: nat)
    ensures HasBasicType(k, ToKey(num, k, key, next)) && !ToKey(num, k, key, next).CNull?
  {
  }

  lemma {:induction false} InsertTyped(k: Basic, val: GiType, acc: seq<Entry>, e: Entry)
    requires EntriesTyped(k, val, acc) && HasBasicType(k, e.key) && !e.key.CNull? && HasType(val, e.val)
    requires EntriesWhole(val, acc) && NoNullArray(val, e.val)
    ensures EntriesTyped(k, val, Insert(acc, e)) && EntriesWhole(val, Insert(acc, e))
  {
    InsertAt(acc, e);
  }

  lemma {:induction false} ToEntriesHasType(num: Readings, k: Basic, val: GiType, conv: (JS, nat) -> Marshalled,
                                            props: seq<Prop>, table: nat, acc: seq<Entry>, next: nat)
    requires Yields(conv, val) && EntriesTyped(k, val, acc) && EntriesWhole(val, acc)
    ensures var r := ToEntries(num, k, conv, props, table, acc, next); r.Ok? ==> Typed(THash(k, val), r.c)
    decreases |props|
  {
    if props != [] && SupportedKey(k) {
      var r := conv(props[0].val, next + KeyCells(k));
      if r.Ok? {
        var e := Entry(ToKey(num, k, props[0].key, next), r.c);
        KeyHasType(num, k, props[0].key, next);
        InsertTyped(k, val, acc, e);
        ToEntriesHasType(num, k, val, conv, props[1..], table, Insert(acc, e), r.next);
      }
    }
  }

  lemma {:induction false} ToItemsHasType(num: Readings, b: Basic, elems: seq<JS>, acc: seq<CVal>, next: nat,
                                          buffer: nat)
    requires forall i :: 0 <= i < |acc| ==> HasBasicType(b, acc[i])
    ensures var r := ToItems(num, b, elems, acc, next, buffer); r.Ok? ==> Typed(TArray(true, b), r.c)
    ensures var r := ToItems(num, b, elems, acc, next, buffer); r.Ok? ==> Typed(TArray(false, b), r.c)
    decreases |elems|
  {
    if elems != [] {
      var r := ToItem(num, b, elems[0], next);
      if r.Ok? { ToItemsHasType(num, b, elems[1..], acc + [r.c], r.next, buffer); }
    }
  }

  // ----- the type-driven release reaches every cell of a well-typed value

  /** Unless only the container was transferred, the release marshaller frees exactly the cells of the value. */
  lemma {:induction false} ReleaseFreesAll(ty: GiType, transfer: Transfer, c: CVal, x: nat)
    requires Supported(ty) && HasType(ty, c) && transfer != Container
    ensures Count(Released(ty, transfer, c), x) == Count(Cells(c), x)
    decreases ty, 0, 0
  {
    match ty
    case TBasic(b) =>
    case TWide(_) => assert false;
    case TList(e) => if c.CList? { NodesFreed(e, transfer, c.nodes, x); }
    case THash(k, v) => if c.CHash? { EntriesFreed(k, v, transfer, c.entries, x); }
    case TArray(_, b) => if c.CArray? { ItemsFreed(b, c.items, x); }
  }

  lemma {:induction false} NodesFreed(e: GiType, transfer: Transfer, nodes: seq<Node>, x: nat)
    requires Supported(e) && NodesTyped(e, nodes) && transfer != Container
    ensures Count(ReleasedNodes(e, transfer, nodes), x) + Count(Links(nodes), x) == Count(NodesCells(nodes), x)
    decreases e, 1, |nodes|
  {
    if nodes != [] {
      ReleaseFreesAll(e, transfer, nodes[0].data, x);
      NodesFreed(e, transfer, nodes[1..], x);
    }
  }

  lemma {:induction false} EntriesFreed(k: Basic, v: GiType, transfer: Transfer, entries: seq<Entry>, x: nat)
    requires v.TWide? || Supported(v)
    requires EntriesTyped(k, v, entries) && transfer != Container
    ensures Count(ReleasedEntries(k, v, transfer, entries), x) == Count(EntriesCells(entries), x)
    decreases v, 1, |entries|
  {
    if entries != [] {
      var e := entries[0];
      assert HasBasicType(k, e.key) && HasType(v, e.val);
      assert Count(ReleasedKey(k, e.key), x) == Count(Cells(e.key), x);
      if !v.TWide? { ReleaseFreesAll(v, transfer, e.val, x); }
      assert Count(ReleasedHashValue(v, transfer, e.val), x) == Count(Cells(e.val), x);
      assert Count(EntryCells(e), x) == Count(Cells(e.key), x) + Count(Cells(e.val), x);
      EntriesFreed(k, v, transfer, entries[1..], x);
    }
  }

  lemma {:induction false} ItemsFreed(b: Basic, items: seq<CVal>, x: nat)
    requires forall i :: 0 <= i < |items| ==> HasBasicType(b, items[i])
    ensures Count(if IsString(b) then Strings(items) else Empty, x) == Count(ItemsCells(items), x)
  {
    if items != [] {
      assert HasBasicType(b, items[0]);
      ItemsFreed(b, items[1..], x);
    }
  }

  /** The cells of what a container holds, as opposed to its own links, table or storage. */
  ghost function ElementCells(c: CVal): Bag {
    match c
    case CList(nodes) => DataCells(nodes)
    case CHash(_, entries) => EntriesCells(entries)
    case CArray(_, items) => ItemsCells(items)
    case _ => Empty
  }

  ghost function DataCells(nodes: seq<Node>): Bag {
    if nodes == [] then Empty else Plus(Cells(nodes[0].data), DataCells(nodes[1..]))
  }

  lemma {:induction false} LinksAndData(nodes: seq<Node>, x: nat)
    ensures Count(Links(nodes), x) + Count(DataCells(nodes), x) == Count(NodesCells(nodes), x)
  {
    if nodes != [] {
      LinksAndData(nodes[1..], x);
      assert Count(NodeCells(nodes[0]), x) == Count(Cells(nodes[0].data), x) + Count(Cell(nodes[0].cell), x);
    }
  }

  /** What the caller of C owns of a value that was handed over with this transfer: nothing; the container without what
      it holds, at any depth; or everything. A value that is no container is handed over whole. */
  ghost predicate OwnedPart(transfer: Transfer, c: CVal, part: Bag) {
    forall x: nat :: Count(part, x) == Owned(transfer, c, x)
  }

  ghost function Owned(transfer: Transfer, c: CVal, x: nat): int {
    match transfer
    case Nothing => 0
    case Container => Count(Cells(c), x) - Count(ElementCells(c), x)
    case Everything => Count(Cells(c), x)
  }

  /** The release of an out argument or return value frees exactly that, for every nesting of types. */
  lemma {:induction false} ReleasedOutIsOwned(ty: GiType, transfer: Transfer, c: CVal)
    requires Supported(ty) && HasType(ty, c)
    ensures OwnedPart(transfer, c, ReleasedOut(ty, transfer, c))
  {
    forall x: nat ensures Count(ReleasedOut(ty, transfer, c), x) == Owned(transfer, c, x) {
      if transfer.Container? {
        if c.CList? { LinksAndData(c.nodes, x); }
      } else if transfer.Everything? {
        ReleaseFreesAll(ty, transfer, c, x);
      }
    }
  }

  /** The release of an in argument frees all of a value that stayed with the caller, and nothing of one that did
      not. */
  lemma {:induction false} ReleasedInIsOwned(ty: GiType, transfer: Transfer, c: CVal)
    requires Supported(ty) && HasType(ty, c)
    ensures OwnedPart(if transfer.Nothing? then Everything else Nothing, c, ReleasedIn(ty, transfer, c))
  {
    forall x: nat
      ensures Count(ReleasedIn(ty, transfer, c), x) == if transfer.Nothing? then Count(Cells(c), x) else 0
    {
      ReleaseFreesAll(ty, Nothing, c, x);
    }
  }

  /** Converting for transfer NOTHING and then releasing the in argument accounts for every cell allocated, once:
      freed now, freed while converting, or lost to a colliding hash key. */
  lemma {:induction false} InArgumentConserved(num: Readings, ty: GiType, v: JS, nullable: bool, next: nat)
    requires Supported(ty) && To(num, ty, v, nullable, Nothing, next).Ok?
    ensures var r := To(num, ty, v, nullable, Nothing, next);
            Allocated(Plus(ReleasedIn(ty, Nothing, r.c), Plus(r.lost, r.scratch)), next, r.next)
  {
    var r := To(num, ty, v, nullable, Nothing, next);
    ToHasType(num, ty, v, nullable, Nothing, next);
    var all := Plus(ReleasedIn(ty, Nothing, r.c), Plus(r.lost, r.scratch));
    forall x: nat ensures Count(all, x) == Once(next, r.next, x) {
      ToBalanced(num, ty, v, nullable, Nothing, next, x);
      ReleaseFreesAll(ty, Nothing, r.c, x);
    }
  }

  // ----- exactly when a hash key collision loses cells

  /** The value converts to something that needs no heap cell. */
  predicate CellFree(ty: GiType, v: JS) {
    match ty
    case TBasic(b) => b.BInt? || v.Null?
    case TList(_) => v.Arr? && v.elems == []
    case THash(_, _) => v.Null?
    case _ => false
  }

  /** The keys of the properties, and whether their values need no cell. */
  function Keys(num: Readings, k: Basic, props: seq<Prop>): (keys: seq<CVal>)
    ensures |keys| == |props|
  {
    if props == [] then [] else [ToKey(num, k, props[0].key, 0)] + Keys(num, k, props[1..])
  }

  function Frees(val: GiType, props: seq<Prop>): (free: seq<bool>)
    ensures |free| == |props|
  {
    if props == [] then [] else [CellFree(val, props[0].val)] + Frees(val, props[1..])
  }

  /** No key is overwritten by a later one, except integer keys whose value needs no cell. */
  predicate NoOverwrite(strings: bool, keys: seq<CVal>, free: seq<bool>)
    requires |keys| == |free|
  {
    forall i, j :: 0 <= i < j < |keys| && SameKey(keys[i], keys[j]) ==> !strings && free[i]
  }

  /** What a caller can check: at every nested hash, no property is overwritten. */
  predicate KeysApart(num: Readings, ty: GiType, v: JS)
    decreases ty, 0
  {
    match ty
    case TList(e) => v.Arr? ==> forall i :: 0 <= i < |v.elems| ==> KeysApart(num, e, v.elems[i])
    case THash(k, val) =>
      v.Obj? || v.Arr? ==>
        && NoOverwrite(k.BStr?, Keys(num, k, Props(v)), Frees(val, Props(v)))
        && ValuesApart(num, val, Props(v))
    case _ => true
  }

  predicate ValuesApart(num: Readings, val: GiType, props: seq<Prop>)
    decreases val, 1
  {
    forall i :: 0 <= i < |props| ==> KeysApart(num, val, props[i].val)
  }

  lemma {:induction false} ValuesApartCons(num: Readings, val: GiType, props: seq<Prop>)
    requires props != []
    ensures ValuesApart(num, val, props) <==> KeysApart(num, val, props[0].val) && ValuesApart(num, val, props[1..])
  {
    assert forall i :: 1 <= i < |props| ==> props[i] == props[1..][i - 1];
  }

  ghost function Size(b: Bag): nat {
    match b
    case Empty => 0
    case Cell(_) => 1
    case Plus(c, d) => Size(c) + Size(d)
  }

  lemma {:induction false} SizeZero(b: Bag, x: nat)
    ensures Size(b) == 0 ==> Count(b, x) == 0
  {
    if b.Plus? { SizeZero(b.a, x); SizeZero(b.b, x); }
  }

  lemma {:induction false} ConvertedSize(num: Readings, ty: GiType, v: JS, nullable: bool, transfer: Transfer,
                                         next: nat)
    requires To(num, ty, v, nullable, transfer, next).Ok?
    ensures Size(Cells(To(num, ty, v, nullable, transfer, next).c)) == 0 <==> CellFree(ty, v)
  {
    match ty
    case TList(e) =>
      NodesSize(Converter(num, e, false, ElementTransfer(transfer)), v.elems, [], next);
      NodesNotFree(To(num, ty, v, nullable, transfer, next).c.nodes);
    case THash(k, val) =>
      if !v.Null? {
        EntriesTable(num, k, Converter(num, val, true, ElementTransfer(transfer)), Props(v), next, [], next + 1);
      }
    case TArray(_, b) => if !v.Null? { ItemsHeader(num, b, v.elems, [], next + 1, next); }
    case _ =>
  }

  lemma {:induction false} NodesNotFree(nodes: seq<Node>)
    ensures Size(NodesCells(nodes)) == 0 <==> nodes == []
  {
    if nodes != [] { assert Size(NodeCells(nodes[0])) > 0; }
  }

  lemma {:induction false} NodesSize(conv: (JS, nat) -> Marshalled, elems: seq<JS>, acc: seq<Node>, next: nat)
    requires ToNodes(conv, elems, acc, next).Ok?
    ensures var c := ToNodes(conv, elems, acc, next).c; c.CList? && |c.nodes| == |acc| + |elems|
    decreases |elems|
  {
    if elems != [] {
      var r := conv(elems[0], next);
      NodesSize(conv, elems[1..], acc + [Node(r.next, r.c)], r.next + 1);
    }
  }

  lemma {:induction false} EntriesTable(num: Readings, k: Basic, conv: (JS, nat) -> Marshalled, props: seq<Prop>,
                                        table: nat, acc: seq<Entry>, next: nat)
    requires ToEntries(num, k, conv, props, table, acc, next).Ok?
    ensures ToEntries(num, k, conv, props, table, acc, next).c.CHash?
    decreases |props|
  {
    if props != [] {
      var r := conv(props[0].val, next + KeyCells(k));
      EntriesTable(num, k, conv, props[1..], table, Insert(acc, Entry(ToKey(num, k, props[0].key, next), r.c)), r.next);
    }
  }

  lemma {:induction false} ItemsHeader(num: Readings, b: Basic, elems: seq<JS>, acc: seq<CVal>, next: nat, buffer: nat)
    requires ToItems(num, b, elems, acc, next, buffer).Ok?
    ensures ToItems(num, b, elems, acc, next, buffer).c.CArray?
    decreases |elems|
  {
    if elems != [] {
      var r := ToItem(num, b, elems[0], next);
      ItemsHeader(num, b, elems[1..], acc + [r.c], r.next, buffer);
    }
  }

  // ----- the table built so far, seen from the keys done so far; these say nothing of how keys are made

  predicate AllFree(keys: seq<CVal>, free: seq<bool>, key: CVal)
    requires |keys| == |free|
  {
    forall i :: 0 <= i < |keys| && SameKey(keys[i], key) ==> free[i]
  }

  predicate Fresh(keys: seq<CVal>, key: CVal) {
    forall i :: 0 <= i < |keys| ==> !SameKey(keys[i], key)
  }

  predicate Distinct(held: seq<CVal>) {
    forall a, b :: 0 <= a < b < |held| ==> !SameKey(held[a], held[b])
  }

  predicate Reflects(keys: seq<CVal>, free: seq<bool>, key: CVal, f: bool)
    requires |keys| == |free|
  {
    !Fresh(keys, key) && (f <==> AllFree(keys, free, key))
  }

  predicate AllReflect(keys: seq<CVal>, free: seq<bool>, held: seq<CVal>, flags: seq<bool>)
    requires |keys| == |free| && |held| == |flags|
  {
    forall a {:trigger Reflects(keys, free, held[a], flags[a])} ::
      0 <= a < |held| ==> Reflects(keys, free, held[a], flags[a])
  }

  predicate AllHeld(keys: seq<CVal>, held: seq<CVal>) {
    forall i {:trigger Fresh(held, keys[i])} :: 0 <= i < |keys| ==> !Fresh(held, keys[i])
  }

  lemma {:induction false} NoOverwriteSnoc(strings: bool, keys: seq<CVal>, free: seq<bool>, key: CVal, f: bool)
    requires |keys| == |free| && NoOverwrite(strings, keys, free)
    ensures NoOverwrite(strings, keys + [key], free + [f]) <==>
            Fresh(keys, key) || (!strings && AllFree(keys, free, key))
  {
    var keys', free' := keys + [key], free + [f];
    if NoOverwrite(strings, keys', free') {
      forall i | 0 <= i < |keys| && SameKey(keys[i], key) ensures !strings && free[i] {
        assert SameKey(keys'[i], keys'[|keys|]);
      }
    }
  }

  /** Entries under another key keep their meaning when a key is added. */
  lemma {:induction false} ReflectsOther(keys: seq<CVal>, free: seq<bool>, key: CVal, f: bool, other: CVal, g: bool)
    requires |keys| == |free| && Reflects(keys, free, other, g) && !SameKey(key, other)
    ensures Reflects(keys + [key], free + [f], other, g)
  {
    var i :| 0 <= i < |keys| && SameKey(keys[i], other);
    assert (keys + [key])[i] == keys[i];
    if AllFree(keys + [key], free + [f], other) {
      forall j | 0 <= j < |keys| && SameKey(keys[j], other) ensures free[j] {
        assert (keys + [key])[j] == keys[j] && (free + [f])[j] == free[j];
      }
    }
  }

  /** An entry just written reflects the keys done, if what it replaced was free. */
  lemma {:induction false} ReflectsNew(keys: seq<CVal>, free: seq<bool>, key: CVal, f: bool, held: CVal)
    requires |keys| == |free| && SameKey(key, held) && AllFree(keys, free, held)
    ensures Reflects(keys + [key], free + [f], held, f)
  {
    assert (keys + [key])[|keys|] == key;
  }

  ghost function HeldAt(held: seq<CVal>, key: CVal): (a: nat)
    requires !Fresh(held, key)
    ensures a < |held| && SameKey(held[a], key)
  {
    var a :| 0 <= a < |held| && SameKey(held[a], key);
    a
  }

  lemma {:induction false} HeldFresh(keys: seq<CVal>, held: seq<CVal>, key: CVal, e: CVal)
    requires AllHeld(keys, held) && Fresh(held, e) && SameKey(key, e)
    ensures Fresh(keys, key) && AllHeld(keys + [key], held + [e])
  {
    forall i | 0 <= i < |keys + [key]| ensures !Fresh(held + [e], (keys + [key])[i]) {
      if i < |keys| {
        assert !Fresh(held, keys[i]);
        var a := HeldAt(held, keys[i]);
        assert (held + [e])[a] == held[a];
      } else {
        assert (held + [e])[|held|] == e;
      }
    }
    forall i | 0 <= i < |keys| ensures !SameKey(keys[i], key) {
      assert !Fresh(held, keys[i]);
      var a := HeldAt(held, keys[i]);
    }
  }

  lemma {:induction false} ReflectFresh(keys: seq<CVal>, free: seq<bool>, held: seq<CVal>, flags: seq<bool>,
                                        key: CVal, e: CVal, f: bool)
    requires |keys| == |free| && |held| == |flags| && AllReflect(keys, free, held, flags)
    requires Fresh(keys, key) && Fresh(held, e) && SameKey(key, e)
    ensures AllReflect(keys + [key], free + [f], held + [e], flags + [f])
  {
    forall a | 0 <= a < |held + [e]| ensures Reflects(keys + [key], free + [f], (held + [e])[a], (flags + [f])[a]) {
      if a < |held| {
        assert !SameKey(key, held[a]);
        assert Reflects(keys, free, held[a], flags[a]);
        ReflectsOther(keys, free, key, f, held[a], flags[a]);
      } else {
        ReflectsNew(keys, free, key, f, e);
      }
    }
  }

  lemma {:induction false} ReflectReplaced(keys: seq<CVal>, free: seq<bool>, held: seq<CVal>, flags: seq<bool>,
                                           key: CVal, a: nat, f: bool)
    requires |keys| == |free| && |held| == |flags| && AllReflect(keys, free, held, flags)
    requires a < |held| && SameKey(held[a], key) && Distinct(held) && flags[a]
    ensures AllReflect(keys + [key], free + [f], held, flags[a := f])
  {
    assert Reflects(keys, free, held[a], flags[a]);
    forall b | 0 <= b < |held| ensures Reflects(keys + [key], free + [f], held[b], flags[a := f][b]) {
      if b == a {
        ReflectsNew(keys, free, key, f, held[a]);
      } else {
        assert !SameKey(held[a], held[b]) && !SameKey(held[b], held[a]);
        assert Reflects(keys, free, held[b], flags[b]);
        ReflectsOther(keys, free, key, f, held[b], flags[b]);
      }
    }
  }

  /** `held` are the keys of a table and `flags` say which values need no cell. */
  predicate Tracks(keys: seq<CVal>, free: seq<bool>, held: seq<CVal>, flags: seq<bool>) {
    && |keys| == |free| && |held| == |flags|
    && Distinct(held) && AllReflect(keys, free, held, flags) && AllHeld(keys, held)
  }

  /** A key that collides with nothing before it extends the table. */
  lemma {:induction false} TracksFresh(keys: seq<CVal>, free: seq<bool>, held: seq<CVal>, flags: seq<bool>, key: CVal,
                                       e: CVal, f: bool)
    requires Tracks(keys, free, held, flags) && SameKey(key, e) && Fresh(held, e)
    ensures Fresh(keys, key) && Tracks(keys + [key], free + [f], held + [e], flags + [f])
  {
    HeldFresh(keys, held, key, e);
    ReflectFresh(keys, free, held, flags, key, e, f);
  }

  lemma {:induction false} HeldAgain(keys: seq<CVal>, held: seq<CVal>, key: CVal, a: nat)
    requires AllHeld(keys, held) && a < |held| && SameKey(held[a], key)
    ensures AllHeld(keys + [key], held)
  {
  }

  /** A key that replaces the value of an entry without losing a cell. */
  lemma {:induction false} TracksReplaced(keys: seq<CVal>, free: seq<bool>, held: seq<CVal>, flags: seq<bool>,
                                          key: CVal, a: nat, f: bool)
    requires Tracks(keys, free, held, flags) && a < |held| && SameKey(held[a], key) && flags[a]
    ensures Tracks(keys + [key], free + [f], held, flags[a := f])
  {
    ReflectReplaced(keys, free, held, flags, key, a, f);
    HeldAgain(keys, held, key, a);
  }

  lemma {:induction false} SameKeySameState(keys: seq<CVal>, free: seq<bool>, a: CVal, b: CVal)
    requires |keys| == |free| && SameKey(a, b)
    ensures Fresh(keys, a) == Fresh(keys, b) && AllFree(keys, free, a) == AllFree(keys, free, b)
  {
  }

  // ----- the same, of hash tables

  ghost predicate Table(acc: seq<Entry>, held: seq<CVal>, flags: seq<bool>) {
    && |held| == |flags| == |acc|
    && forall a :: 0 <= a < |acc| ==> held[a] == acc[a].key && flags[a] == (Size(Cells(acc[a].val)) == 0)
  }

  /** One insertion into a tracked table loses nothing exactly when the key is not an overwriting one. */
  lemma {:induction false} StepLoses(strings: bool, keys: seq<CVal>, free: seq<bool>, acc: seq<Entry>,
                                     held: seq<CVal>, flags: seq<bool>, key: CVal, e: Entry)
    returns (held': seq<CVal>, flags': seq<bool>)
    requires Tracks(keys, free, held, flags) && Table(acc, held, flags) && NoOverwrite(strings, keys, free)
    requires SameKey(key, e.key) && (strings <==> e.key.CStr?)
    ensures var f := Size(Cells(e.val)) == 0;
            && (Size(InsertLoses(acc, e)) == 0 <==> NoOverwrite(strings, keys + [key], free + [f]))
            && (Size(InsertLoses(acc, e)) == 0 ==>
                  Tracks(keys + [key], free + [f], held', flags') && Table(Insert(acc, e), held', flags'))
  {
    var at, f := FindKey(acc, e.key), Size(Cells(e.val)) == 0;
    NoOverwriteSnoc(strings, keys, free, key, f);
    InsertAt(acc, e);
    if at.None? {
      held', flags' := held + [e.key], flags + [f];
      FindNone(acc, e.key);
      assert Fresh(held, e.key);
      TracksFresh(keys, free, held, flags, key, e.key, f);
    } else {
      held', flags' := held, flags[at.value := f];
      assert Reflects(keys, free, held[at.value], flags[at.value]);
      SameKeySameState(keys, free, held[at.value], key);
      if flags[at.value] { TracksReplaced(keys, free, held, flags, key, at.value, f); }
    }
  }

  /** Of each value: what its conversion lost, and whether the result holds a cell. */
  ghost predicate Accounts(num: Readings, conv: (JS, nat) -> Marshalled, ty: GiType) {
    forall v: JS, next: nat :: conv(v, next).Ok? ==> Accounted(num, conv(v, next), ty, v)
  }

  ghost predicate Accounted(num: Readings, r: Marshalled, ty: GiType, v: JS)
    requires r.Ok?
  {
    (Size(r.lost) == 0 <==> KeysApart(num, ty, v)) && (Size(Cells(r.c)) == 0 <==> CellFree(ty, v))
  }

  /** A conversion loses no cell exactly when no nested hash overwrites one of its properties. */
  lemma {:induction false} LosesNothing(num: Readings, ty: GiType, v: JS, nullable: bool, transfer: Transfer, next: nat)
    requires To(num, ty, v, nullable, transfer, next).Ok?
    ensures Size(To(num, ty, v, nullable, transfer, next).lost) == 0 <==> KeysApart(num, ty, v)
    decreases ty, 0
  {
    match ty
    case TList(e) =>
      ConverterAccounts(num, e, false, ElementTransfer(transfer));
      NodesLose(num, e, Converter(num, e, false, ElementTransfer(transfer)), v.elems, [], next);
    case THash(k, val) =>
      ConverterAccounts(num, val, true, ElementTransfer(transfer));
      if !v.Null? {
        TableLoses(num, k, val, Converter(num, val, true, ElementTransfer(transfer)), Props(v), next, next + 1);
      }
    case TArray(_, b) => if !v.Null? { ItemsLose(num, b, v.elems, [], next + 1, next); }
    case _ =>
  }

  lemma {:induction false} ConverterAccounts(num: Readings, ty: GiType, nullable: bool, transfer: Transfer)
    ensures Accounts(num, Converter(num, ty, nullable, transfer), ty)
    decreases ty, 1
  {
    var conv := Converter(num, ty, nullable, transfer);
    forall v: JS, next: nat | conv(v, next).Ok? ensures Accounted(num, conv(v, next), ty, v) {
      LosesNothing(num, ty, v, nullable, transfer, next);
      ConvertedSize(num, ty, v, nullable, transfer, next);
    }
  }

  lemma {:induction false} NodesLose(num: Readings, e: GiType, conv: (JS, nat) -> Marshalled, elems: seq<JS>,
                                     acc: seq<Node>, next: nat)
    requires Accounts(num, conv, e) && ToNodes(conv, elems, acc, next).Ok?
    ensures Size(ToNodes(conv, elems, acc, next).lost) == 0 <==> forall i :: 0 <= i < |elems| ==>
                                                                               KeysApart(num, e, elems[i])
    decreases |elems|
  {
    if elems != [] {
      var r := conv(elems[0], next);
      assert Accounted(num, r, e, elems[0]);
      NodesLose(num, e, conv, elems[1..], acc + [Node(r.next, r.c)], r.next + 1);
      assert forall i :: 1 <= i < |elems| ==> elems[i] == elems[1..][i - 1];
    }
  }

  lemma {:induction false} ItemsLose(num: Readings, b: Basic, elems: seq<JS>, acc: seq<CVal>, next: nat, buffer: nat)
    requires ToItems(num, b, elems, acc, next, buffer).Ok?
    ensures ToItems(num, b, elems, acc, next, buffer).lost == Empty
    decreases |elems|
  {
    if elems != [] {
      var r := ToItem(num, b, elems[0], next);
      ItemsLose(num, b, elems[1..], acc + [r.c], r.next, buffer);
    }
  }

  lemma {:induction false} TableLoses(num: Readings, k: Basic, val: GiType, conv: (JS, nat) -> Marshalled,
                                      props: seq<Prop>, table: nat, next: nat)
    requires Accounts(num, conv, val) && ToEntries(num, k, conv, props, table, [], next).Ok?
    ensures Size(ToEntries(num, k, conv, props, table, [], next).lost) == 0
       <==> NoOverwrite(k.BStr?, Keys(num, k, props), Frees(val, props)) && ValuesApart(num, val, props)
  {
    EntriesLose(num, k, val, conv, props, table, [], next, [], [], [], []);
    EmptyPrefix(Keys(num, k, props));
    EmptyPrefix(Frees(val, props));
  }

  lemma {:induction false} EntriesLose(num: Readings, k: Basic, val: GiType, conv: (JS, nat) -> Marshalled,
                                       props: seq<Prop>, table: nat, acc: seq<Entry>, next: nat, keys: seq<CVal>,
                                       free: seq<bool>, held: seq<CVal>, flags: seq<bool>)
    requires Accounts(num, conv, val) && ToEntries(num, k, conv, props, table, acc, next).Ok?
    requires Tracks(keys, free, held, flags) && Table(acc, held, flags) && NoOverwrite(k.BStr?, keys, free)
    ensures Size(ToEntries(num, k, conv, props, table, acc, next).lost) == 0
       <==> && NoOverwrite(k.BStr?, keys + Keys(num, k, props), free + Frees(val, props))
            && ValuesApart(num, val, props)
    decreases |props|
  {
    if props == [] {
      assert keys + Keys(num, k, props) == keys && free + Frees(val, props) == free;
    } else {
      var p := props[0];
      var r := conv(p.val, next + KeyCells(k));
      assert Accounted(num, r, val, p.val);
      var e, key := Entry(ToKey(num, k, p.key, next), r.c), ToKey(num, k, p.key, 0);
      var keys', free' := keys + [key], free + [CellFree(val, p.val)];
      Associate(keys, [key], Keys(num, k, props[1..]));
      Associate(free, [CellFree(val, p.val)], Frees(val, props[1..]));
      var held', flags' := StepLoses(k.BStr?, keys, free, acc, held, flags, key, e);
      var all := NoOverwrite(k.BStr?, keys + Keys(num, k, props), free + Frees(val, props));
      var acc' := Insert(acc, e);
      if Size(InsertLoses(acc, e)) == 0 {
        EntriesLose(num, k, val, conv, props[1..], table, acc', r.next, keys', free', held', flags');
      } else {
        if all { NoOverwritePrefix(k.BStr?, keys', free', Keys(num, k, props[1..]), Frees(val, props[1..])); }
      }
      EntryLoses(num, val, props, r, ToEntries(num, k, conv, props[1..], table, acc', r.next), InsertLoses(acc, e),
                 all);
    }
  }

  /** One more entry: `r` is its value's conversion, `rest` that of the remaining properties. */
  lemma {:induction false} EntryLoses(num: Readings, val: GiType, props: seq<Prop>, r: Marshalled, rest: Marshalled,
                                      lost: Bag, all: bool)
    requires props != [] && r.Ok? && rest.Ok?
    requires Size(r.lost) == 0 <==> KeysApart(num, val, props[0].val)
    requires if Size(lost) == 0 then Size(rest.lost) == 0 <==> all && ValuesApart(num, val, props[1..]) else !all
    ensures Size(Also(rest, Plus(r.lost, lost), r.scratch).lost) == 0 <==> all && ValuesApart(num, val, props)
  {
    ValuesApartCons(num, val, props);
  }

  lemma {:induction false} NoOverwritePrefix(strings: bool, keys: seq<CVal>, free: seq<bool>, keys': seq<CVal>,
                                             free': seq<bool>)
    requires |keys| == |free| && |keys'| == |free'| && NoOverwrite(strings, keys + keys', free + free')
    ensures NoOverwrite(strings, keys, free)
  {
    forall i, j | 0 <= i < j < |keys| && SameKey(keys[i], keys[j]) ensures !strings && free[i] {
      assert (keys + keys')[i] == keys[i] && (keys + keys')[j] == keys[j] && (free + free')[i] == free[i];
    }
  }

  lemma {:induction false} SizeIsCount(b: Bag)
    ensures Size(b) > 0 ==> exists x :: Count(b, x) > 0
  {
    if b.Plus? {
      SizeIsCount(b.a);
      SizeIsCount(b.b);
      if Size(b.a) > 0 { var x :| Count(b.a, x) > 0; assert Count(b, x) > 0; }
      if Size(b.b) > 0 { var x :| Count(b.b, x) > 0; assert Count(b, x) > 0; }
    } else if b.Cell? {
      assert Count(b, b.id) > 0;
    }
  }

  /** Without what was lost, the accounts close exactly when nothing was. */
  lemma {:induction false} ClosesWithout(freed: Bag, lost: Bag, lo: nat, hi: nat)
    requires Allocated(Plus(freed, lost), lo, hi)
    ensures Allocated(freed, lo, hi) <==> Size(lost) == 0
  {
    forall x: nat ensures Count(freed, x) + Count(lost, x) == Once(lo, hi, x) {
      assert Count(Plus(freed, lost), x) == Once(lo, hi, x);
    }
    if Size(lost) == 0 {
      forall x: nat ensures Count(freed, x) == Once(lo, hi, x) { SizeZero(lost, x); }
    } else {
      SizeIsCount(lost);
    }
  }

  /** Converting an in argument for transfer NOTHING and releasing it after the call frees exactly what was allocated,
      each cell once, if and only if no nested hash table overwrites a property. */
  lemma {:induction false} InArgumentReclaimed(num: Readings, ty: GiType, v: JS, nullable: bool, next: nat)
    requires Supported(ty) && To(num, ty, v, nullable, Nothing, next).Ok?
    ensures var r := To(num, ty, v, nullable, Nothing, next);
            Allocated(Plus(ReleasedIn(ty, Nothing, r.c), r.scratch), next, r.next) <==> KeysApart(num, ty, v)
  {
    var r := To(num, ty, v, nullable, Nothing, next);
    InArgumentConserved(num, ty, v, nullable, next);
    LosesNothing(num, ty, v, nullable, Nothing, next);
    var released := ReleasedIn(ty, Nothing, r.c);
    Reassociated(released, r.lost, r.scratch, next, r.next);
    ClosesWithout(Plus(released, r.scratch), r.lost, next, r.next);
  }

  lemma {:induction false} Reassociated(a: Bag, b: Bag, c: Bag, lo: nat, hi: nat)
    requires Allocated(Plus(a, Plus(b, c)), lo, hi)
    ensures Allocated(Plus(Plus(a, c), b), lo, hi)
  {
    forall x: nat ensures Count(Plus(Plus(a, c), b), x) == Once(lo, hi, x) {
      assert Count(Plus(a, Plus(b, c)), x) == Count(a, x) + Count(b, x) + Count(c, x);
      assert Count(Plus(a, Plus(b, c)), x) == Once(lo, hi, x);
    }
  }

  /** Two property names that read as the same int32 are one key of a table keyed by int32; the first value is lost. */
  lemma LostToACollision(num: Readings, a: string, b: string)
    requires KeyToInt(num, I32, a) == KeyToInt(num, I32, b)
    ensures var ty, v := THash(BInt(I32), TBasic(BStr)), Obj([Prop(a, Str("x")), Prop(b, Str("y"))]);
            Supported(ty) && To(num, ty, v, false, Nothing, 0).Ok? && !KeysApart(num, ty, v)
  {
    SameKeyTwice(num, Prop(a, Str("x")), Prop(b, Str("y")));
    BothConvert(num, Prop(a, Str("x")), Prop(b, Str("y")));
  }

  /** Such names are those that are not numbers, which are all key 0 (as "a" and "b", where these read as NaN), and
      "1.5" and "1". */
  lemma CollidingNames(num: Readings)
    ensures forall s :: ToNumber(num, Str(s)) == Some(NaN) ==> KeyToInt(num, I32, s) == 0
    ensures "a" !in num && "b" !in num ==> KeyToInt(num, I32, "a") == KeyToInt(num, I32, "b") == 0
    ensures "1.5" in num && num["1.5"] == Fin(1.5) ==> KeyToInt(num, I32, "1.5") == KeyToInt(num, I32, "1") == 1
  {
    assert Parse("a").None? && Parse("b").None?;
    assert "1.5"[1] == '.' && "1.5"[0] == '1';
    assert Parse("1.5").None?;
    assert AllDigits("1") && ParseNat("1") == 1;
    assert ToNumber(num, Str("1")) == Some(Fin(1.0));
  }

  lemma SameKeyTwice(num: Readings, p: Prop, q: Prop)
    requires KeyToInt(num, I32, p.key) == KeyToInt(num, I32, q.key) && p.val.Str? && q.val.Str?
    ensures !KeysApart(num, THash(BInt(I32), TBasic(BStr)), Obj([p, q]))
  {
    var k := BInt(I32);
    assert [p, q][1..] == [q];
    assert Keys(num, k, [p, q]) == [ToKey(num, k, p.key, 0)] + Keys(num, k, [q]);
    var keys, free := Keys(num, k, [p, q]), Frees(TBasic(BStr), [p, q]);
    assert SameKey(keys[0], keys[1]) && !free[0];
  }

  lemma BothConvert(num: Readings, p: Prop, q: Prop)
    requires p.val.Str? && q.val.Str?
    ensures To(num, THash(BInt(I32), TBasic(BStr)), Obj([p, q]), false, Nothing, 0).Ok?
  {
    var conv := Converter(num, TBasic(BStr), true, Nothing);
    assert conv(p.val, 1).Ok? && conv(q.val, conv(p.val, 1).next).Ok?;
    TwoConvert(num, BInt(I32), conv, p, q);
  }

  lemma TwoConvert(num: Readings, k: Basic, conv: (JS, nat) -> Marshalled, p: Prop, q: Prop)
    requires k.BInt? && SupportedKey(k)
    requires conv(p.val, 1).Ok? && conv(q.val, conv(p.val, 1).next).Ok?
    ensures ToEntries(num, k, conv, [p, q], 0, [], 1).Ok?
  {
    var acc := Insert([], Entry(ToKey(num, k, p.key, 1), conv(p.val, 1).c));
    assert [p, q][1..] == [q];
    OneConverts(num, k, conv, q, acc, conv(p.val, 1).next);
  }

  lemma OneConverts(num: Readings, k: Basic, conv: (JS, nat) -> Marshalled, q: Prop, acc: seq<Entry>, next: nat)
    requires k.BInt? && SupportedKey(k) && conv(q.val, next).Ok?
    ensures ToEntries(num, k, conv, [q], 0, acc, next).Ok?
  {
    assert [q][1..] == [];
  }
}
