/** The marshallers of gi/arg.cpp as they run: loops over lists, tables and arrays that allocate and free heap cells
    one by one. Each is proved against its specification function in Marshal or RoundTrip. */
module MarshalLoops {
  import opened Basics
  import opened JsValues
  import opened Ledger
  import opened CValues
  import opened Marshal
  import N = Numeric
  import M = MarshalMemory
  import R = RoundTrip

  /** Between two moments the process freed exactly `more`. */
  ghost predicate Freed(before: Bag, more: Bag, after: Bag) {
    forall x: nat :: Count(after, x) == Count(before, x) + Count(more, x)
  }

  /** Converting everything (`total`, with `before` freed at the start) comes down to converting the rest (`rest`, with
      `now` freed so far). */
  ghost predicate Continues(total: Marshalled, before: Bag, rest: Marshalled, now: Bag) {
    && (total.Ok? <==> rest.Ok?)
    && (total.Ok? ==>
          && total.c == rest.c && total.next == rest.next
          && Accounted(total.scratch, before, rest.scratch, now))
  }

  ghost predicate Accounted(all: Bag, before: Bag, rest: Bag, now: Bag) {
    forall x: nat :: Count(all, x) + Count(before, x) == Count(rest, x) + Count(now, x)
  }

  lemma {:induction false} StepContinues(total: Marshalled, before: Bag, rest: Marshalled, now: Bag, lost: Bag,
                                         scratch: Bag, later: Bag)
    requires Continues(total, before, Also(rest, lost, scratch), now) && Freed(now, scratch, later)
    ensures Continues(total, before, rest, later)
  {
    if total.Ok? {
      forall x: nat ensures Count(total.scratch, x) + Count(before, x) == Count(rest.scratch, x) + Count(later, x) {
        assert Count(Plus(rest.scratch, scratch), x) == Count(rest.scratch, x) + Count(scratch, x);
      }
    }
  }

  // ----- "to" marshallers

  function Reverse<T>(s: seq<T>): (r: seq<T>)
    ensures |r| == |s|
  {
    if s == [] then [] else Reverse(s[1..]) + [s[0]]
  }

  lemma ReversePrepend<T>(x: T, s: seq<T>)
    ensures Reverse([x] + s) == Reverse(s) + [x]
  {
    assert ([x] + s)[1..] == s;
  }

  method ToBasicValue(heap: Heap, num: Readings, b: Basic, v: JS, nullable: bool) returns (ok: bool, c: CVal)
    modifies heap
    ensures var r := ToBasic(num, b, v, nullable, old(heap.next));
            (ok <==> r.Ok?) && (ok ==> c == r.c && heap.next == r.next && Freed(old(heap.freed), r.scratch, heap.freed))
  {
    c, ok := CNull, true;
    if b.BInt? {
      var n := N.FromJs(num, b.tag, v);
      ok := n.Ok?;
      if ok { c := CInt(n.n); }
    } else if v.Str? {
      var cell := heap.Alloc();
      c := CStr(cell, CText(v.s));
    } else {
      ok := v.Null? && nullable;
    }
  }

  /** gjs_value_to_gi_argument */
  method ToValue(heap: Heap, num: Readings, ty: GiType, v: JS, nullable: bool, transfer: Transfer)
    returns (ok: bool, c: CVal)
    modifies heap
    ensures var r := To(num, ty, v, nullable, transfer, old(heap.next));
            (ok <==> r.Ok?) && (ok ==> c == r.c && heap.next == r.next && Freed(old(heap.freed), r.scratch, heap.freed))
    decreases ty, 0
  {
    match ty
    case TBasic(b) => ok, c := ToBasicValue(heap, num, b, v, nullable);
    case TWide(w) =>
      var x := WideFromJs(num, w, v);
      ok, c := x.Some?, CNull;
      if ok {
        var cell := heap.Alloc();
        c := CWide(cell, x.value);
      }
    case TList(e) => ok, c := ToGList(heap, num, e, v, transfer);
    case THash(k, val) => ok, c := ToGHash(heap, num, k, val, v, nullable, transfer);
    case TArray(pointers, b) => ok, c := ToArray(heap, num, pointers, b, v, nullable, transfer);
  }

  /** gjs_array_to_g_list and basic_array_to_linked_list: prepend each element, reverse at the end. */
  method ToGList(heap: Heap, num: Readings, e: GiType, v: JS, transfer: Transfer) returns (ok: bool, c: CVal)
    modifies heap
    ensures var r := To(num, TList(e), v, false, transfer, old(heap.next));
            (ok <==> r.Ok?) && (ok ==> c == r.c && heap.next == r.next && Freed(old(heap.freed), r.scratch, heap.freed))
    decreases e, 1
  {
    if !v.Arr? || (transfer.Container? && !e.TBasic? && NeedsRelease(e)) { return false, CNull; }
    var tr := ElementTransfer(transfer);
    ghost var conv := Converter(num, e, false, tr);
    ghost var total, before := ToNodes(conv, v.elems, [], heap.next), heap.freed;
    var list: seq<Node> := [];
    var i := 0;
    assert v.elems[i..] == v.elems;
    while i < |v.elems|
      invariant 0 <= i <= |v.elems|
      invariant Continues(total, before, ToNodes(conv, v.elems[i..], Reverse(list), heap.next), heap.freed)
    {
      ghost var next, now, rest := heap.next, heap.freed, v.elems[i..];
      Suffix(v.elems, i);
      var good, data := ToValue(heap, num, e, v.elems[i], false, tr);
      if !good { return false, CNull; }
      ghost var r := conv(v.elems[i], next);
      ReversePrepend(Node(heap.next, data), list);
      ghost var later := ToNodes(conv, rest[1..], Reverse(list) + [Node(r.next, r.c)], r.next + 1);
      StepContinues(total, before, later, now, r.lost, r.scratch, heap.freed);
      var cell := heap.Alloc();
      list := [Node(cell, data)] + list;
      i := i + 1;
    }
    return true, CList(Reverse(list));
  }

  method ToTableKey(heap: Heap, num: Readings, k: Basic, key: string) returns (c: CVal)
    modifies heap`next
    ensures c == ToKey(num, k, key, old(heap.next)) && heap.next == old(heap.next) + KeyCells(k)
  {
    if k.BStr? {
      var cell := heap.Alloc();
      c := CStr(cell, CText(key));
    } else {
      c := CInt(KeyToInt(num, k.tag, key));
    }
  }

  /** gjs_object_to_g_hash and gjs_value_to_basic_ghash_gi_argument */
  method ToGHash(heap: Heap, num: Readings, k: Basic, val: GiType, v: JS, nullable: bool, transfer: Transfer)
    returns (ok: bool, c: CVal)
    modifies heap
    ensures var r := To(num, THash(k, val), v, nullable, transfer, old(heap.next));
            (ok <==> r.Ok?) && (ok ==> c == r.c && heap.next == r.next && Freed(old(heap.freed), r.scratch, heap.freed))
    decreases val, 4
  {
    if v.Null? { return nullable, CNull; }
    if !v.Obj? && !v.Arr? { return false, CNull; }
    if transfer.Container? && (IsString(k) || NeedsRelease(val)) { return false, CNull; }
    var table := heap.Alloc();
    ghost var conv := Converter(num, val, true, ElementTransfer(transfer));
    ok, c := FillTable(heap, num, k, val, conv, Props(v), ElementTransfer(transfer), table);
  }

  method ToEntry(heap: Heap, num: Readings, k: Basic, val: GiType, ghost conv: (JS, nat) -> Marshalled, p: Prop,
                 transfer: Transfer)
    returns (ok: bool, e: Entry)
    requires conv == Converter(num, val, true, transfer)
    modifies heap
    ensures var r := conv(p.val, old(heap.next) + KeyCells(k));
            && (ok <==> SupportedKey(k) && r.Ok?)
            && (ok ==> e == Entry(ToKey(num, k, p.key, old(heap.next)), r.c) && heap.next == r.next
                       && Freed(old(heap.freed), r.scratch, heap.freed))
    decreases val, 1
  {
    if !SupportedKey(k) { return false, Entry(CNull, CNull); }
    var key := ToTableKey(heap, num, k, p.key);
    var good, data := ToValue(heap, num, val, p.val, true, transfer);
    return good, Entry(key, data);
  }

  /** One turn of the loop over properties: on success the conversion continues with the rest. */
  lemma {:induction false} EntriesStep(num: Readings, total: Marshalled, before: Bag, k: Basic,
                                       conv: (JS, nat) -> Marshalled, props: seq<Prop>, i: nat, table: nat,
                                       acc: seq<Entry>, next: nat, now: Bag, r: Marshalled, e: Entry, after: Bag)
    requires i < |props| && r == conv(props[i].val, next + KeyCells(k))
    requires Continues(total, before, ToEntries(num, k, conv, props[i..], table, acc, next), now)
    requires SupportedKey(k) && r.Ok? ==>
               e == Entry(ToKey(num, k, props[i].key, next), r.c) && Freed(now, r.scratch, after)
    ensures if SupportedKey(k) && r.Ok?
            then Continues(total, before, ToEntries(num, k, conv, props[i + 1..], table, Insert(acc, e), r.next), after)
            else total.Err?
  {
    Suffix(props, i);
    if SupportedKey(k) && r.Ok? {
      var later := ToEntries(num, k, conv, props[i + 1..], table, Insert(acc, e), r.next);
      StepContinues(total, before, later, now, Plus(r.lost, InsertLoses(acc, e)), r.scratch, after);
    }
  }

  /** No property is left: the table is complete. */
  lemma {:induction false} EntriesDone(num: Readings, total: Marshalled, before: Bag, k: Basic,
                                       conv: (JS, nat) -> Marshalled, props: seq<Prop>, table: nat, acc: seq<Entry>,
                                       next: nat, now: Bag)
    requires props == [] && Continues(total, before, ToEntries(num, k, conv, props, table, acc, next), now)
    ensures total.Ok? && total.c == CHash(table, acc) && total.next == next && Freed(before, total.scratch, now)
  {
  }

  method AddEntry(heap: Heap, num: Readings, k: Basic, val: GiType, ghost conv: (JS, nat) -> Marshalled,
                  ghost total: Marshalled, ghost before: Bag, props: seq<Prop>, i: nat, transfer: Transfer,
                  ghost table: nat, entries: seq<Entry>)
    returns (ok: bool, more: seq<Entry>)
    requires conv == Converter(num, val, true, transfer) && i < |props|
    requires Continues(total, before, ToEntries(num, k, conv, props[i..], table, entries, heap.next), heap.freed)
    modifies heap
    ensures if ok
            then Continues(total, before, ToEntries(num, k, conv, props[i + 1..], table, more, heap.next), heap.freed)
            else total.Err?
    decreases val, 2
  {
    ghost var next, now := heap.next, heap.freed;
    var good, e := ToEntry(heap, num, k, val, conv, props[i], transfer);
    ghost var r := conv(props[i].val, next + KeyCells(k));
    EntriesStep(num, total, before, k, conv, props, i, table, entries, next, now, r, e, heap.freed);
    ok, more := good, Insert(entries, e);
  }

  method FillTable(heap: Heap, num: Readings, k: Basic, val: GiType, ghost conv: (JS, nat) -> Marshalled,
                   props: seq<Prop>, transfer: Transfer, table: nat)
    returns (ok: bool, c: CVal)
    requires conv == Converter(num, val, true, transfer)
    modifies heap
    ensures var r := ToEntries(num, k, conv, props, table, [], old(heap.next));
            (ok <==> r.Ok?) && (ok ==> c == r.c && heap.next == r.next && Freed(old(heap.freed), r.scratch, heap.freed))
    decreases val, 3
  {
    ghost var total, before := ToEntries(num, k, conv, props, table, [], heap.next), heap.freed;
    var entries: seq<Entry> := [];
    var i := 0;
    assert props[i..] == props;
    while i < |props|
      invariant 0 <= i <= |props|
      invariant Continues(total, before, ToEntries(num, k, conv, props[i..], table, entries, heap.next), heap.freed)
    {
      ok, entries := AddEntry(heap, num, k, val, conv, total, before, props, i, transfer, table, entries);
      if !ok { return false, CNull; }
      i := i + 1;
    }
    EntriesDone(num, total, before, k, conv, props[i..], table, entries, heap.next, heap.freed);
    return true, CHash(table, entries);
  }

  method ToArrayItem(heap: Heap, num: Readings, b: Basic, v: JS) returns (ok: bool, c: CVal)
    modifies heap`next
    ensures var r := ToItem(num, b, v, old(heap.next)); (ok <==> r.Ok?) && (ok ==> c == r.c && heap.next == r.next)
  {
    c, ok := CNull, true;
    if b.BInt? {
      var x := ToNumber(num, v);
      ok := x.Some?;
      if ok { c := CInt(b.tag.Cast(Integral(x.value))); }
    } else if v.Str? {
      var cell := heap.Alloc();
      c := CStr(cell, CText(v.s));
    } else {
      ok := v.Null?;
    }
  }

  /** gjs_value_to_basic_array_gi_argument: fills a temporary C array, copies it into the GArray and frees it. */
  method ToArray(heap: Heap, num: Readings, pointers: bool, b: Basic, v: JS, nullable: bool, transfer: Transfer)
    returns (ok: bool, c: CVal)
    modifies heap
    ensures var r := To(num, TArray(pointers, b), v, nullable, transfer, old(heap.next));
            (ok <==> r.Ok?) && (ok ==> c == r.c && heap.next == r.next && Freed(old(heap.freed), r.scratch, heap.freed))
    decreases TArray(pointers, b), 1
  {
    if v.Null? && nullable {
      var header := heap.Alloc();
      return true, CArray(header, []);
    }
    if !v.Arr? { return false, CNull; }
    var buffer := heap.Alloc();
    ok, c := FillArray(heap, num, b, v.elems, buffer);
  }

  method FillArray(heap: Heap, num: Readings, b: Basic, elems: seq<JS>, buffer: nat) returns (ok: bool, c: CVal)
    modifies heap
    ensures var r := ToItems(num, b, elems, [], old(heap.next), buffer);
            (ok <==> r.Ok?) && (ok ==> c == r.c && heap.next == r.next && Freed(old(heap.freed), r.scratch, heap.freed))
  {
    ghost var total := ToItems(num, b, elems, [], heap.next, buffer);
    var items: seq<CVal> := [];
    var i := 0;
    while i < |elems|
      invariant 0 <= i <= |elems| && heap.freed == old(heap.freed)
      invariant total == ToItems(num, b, elems[i..], items, heap.next, buffer)
    {
      Suffix(elems, i);
      var good, item := ToArrayItem(heap, num, b, elems[i]);
      if !good { return false, CNull; }
      items := items + [item];
      i := i + 1;
    }
    var header := heap.Alloc();
    heap.Free(buffer);
    return true, CArray(header, items);
  }

  // ----- "release" marshallers

  /** Freeing `all` of something comes down to freeing what is left of it. */
  lemma {:induction false} StepFreed(all: Bag, before: Bag, first: Bag, rest: Bag, now: Bag, later: Bag)
    requires Accounted(all, before, Plus(first, rest), now) && Freed(now, first, later)
    ensures Accounted(all, before, rest, later)
  {
    forall x: nat ensures Count(all, x) + Count(before, x) == Count(rest, x) + Count(later, x) {
      assert Count(Plus(first, rest), x) == Count(first, x) + Count(rest, x);
    }
  }

  lemma {:induction false} BothFreed(before: Bag, a: Bag, now: Bag, b: Bag, after: Bag)
    requires Freed(before, a, now) && Freed(now, b, after)
    ensures Freed(before, Plus(a, b), after)
  {
  }

  method FreeString(heap: Heap, b: Basic, c: CVal)
    modifies heap`freed
    ensures Freed(old(heap.freed), if IsString(b) && c.CStr? then Cell(c.cell) else Empty, heap.freed)
  {
    if IsString(b) && c.CStr? { heap.Free(c.cell); }
  }

  method FreeLinks(heap: Heap, nodes: seq<Node>)
    modifies heap`freed
    ensures Freed(old(heap.freed), Links(nodes), heap.freed)
  {
    ghost var before := heap.freed;
    var i := 0;
    while i < |nodes|
      invariant 0 <= i <= |nodes| && Accounted(Links(nodes), before, Links(nodes[i..]), heap.freed)
    {
      ghost var now, rest := heap.freed, nodes[i..];
      Suffix(nodes, i);
      heap.Free(nodes[i].cell);
      StepFreed(Links(nodes), before, Cell(nodes[i].cell), Links(rest[1..]), now, heap.freed);
      i := i + 1;
    }
  }

  /** gjs_g_arg_release_internal */
  method ReleaseValue(heap: Heap, ty: GiType, transfer: Transfer, c: CVal)
    modifies heap`freed
    ensures Freed(old(heap.freed), Released(ty, transfer, c), heap.freed)
    decreases ty, 0
  {
    match ty
    case TBasic(b) => FreeString(heap, b, c);
    case TWide(_) =>
    case TList(e) => ReleaseGList(heap, e, transfer, c);
    case THash(k, val) => ReleaseGHash(heap, k, val, transfer, c);
    case TArray(pointers, b) => ReleaseArray(heap, pointers, b, transfer, c);
  }

  /** gjs_g_arg_release_g_list and basic_linked_list_release: the links go last, when the list leaves its scope. */
  method ReleaseGList(heap: Heap, e: GiType, transfer: Transfer, c: CVal)
    modifies heap`freed
    ensures Freed(old(heap.freed), Released(TList(e), transfer, c), heap.freed)
    decreases e, 1
  {
    if !c.CList? { return; }
    ghost var before := heap.freed;
    ghost var all := if transfer.Container? then Empty else ReleasedNodes(e, transfer, c.nodes);
    if !transfer.Container? {
      var i := 0;
      while i < |c.nodes|
        invariant 0 <= i <= |c.nodes| && Accounted(all, before, ReleasedNodes(e, transfer, c.nodes[i..]), heap.freed)
      {
        ghost var now, rest := heap.freed, c.nodes[i..];
        Suffix(c.nodes, i);
        ReleaseValue(heap, e, transfer, c.nodes[i].data);
        StepFreed(all, before, Released(e, transfer, c.nodes[i].data), ReleasedNodes(e, transfer, rest[1..]), now,
                  heap.freed);
        i := i + 1;
      }
    }
    ghost var now := heap.freed;
    assert Freed(before, all, now);
    FreeLinks(heap, c.nodes);
    BothFreed(before, all, now, Links(c.nodes), heap.freed);
  }

  method ReleaseTableValue(heap: Heap, val: GiType, transfer: Transfer, c: CVal)
    modifies heap`freed
    ensures Freed(old(heap.freed), ReleasedHashValue(val, transfer, c), heap.freed)
    decreases val, 1
  {
    if !val.TWide? {
      ReleaseValue(heap, val, transfer, c);
    } else if c.CWide? {
      heap.Free(c.cell);
    }
  }

  method ReleaseEntry(heap: Heap, k: Basic, val: GiType, transfer: Transfer, e: Entry)
    modifies heap`freed
    ensures Freed(old(heap.freed), Plus(ReleasedKey(k, e.key), ReleasedHashValue(val, transfer, e.val)), heap.freed)
    decreases val, 2
  {
    ghost var start := heap.freed;
    FreeString(heap, k, e.key);
    ghost var middle := heap.freed;
    ReleaseTableValue(heap, val, transfer, e.val);
    BothFreed(start, ReleasedKey(k, e.key), middle, ReleasedHashValue(val, transfer, e.val), heap.freed);
  }

  /** The hash cases of gjs_g_arg_release_internal, and gjs_gi_argument_release_basic_ghash. */
  method ReleaseGHash(heap: Heap, k: Basic, val: GiType, transfer: Transfer, c: CVal)
    modifies heap`freed
    ensures Freed(old(heap.freed), Released(THash(k, val), transfer, c), heap.freed)
    decreases val, 3
  {
    if !c.CHash? { return; }
    ghost var before := heap.freed;
    ghost var all := if transfer.Container? then Empty else ReleasedEntries(k, val, transfer, c.entries);
    if !transfer.Container? {
      var i := 0;
      while i < |c.entries|
        invariant 0 <= i <= |c.entries|
        invariant Accounted(all, before, ReleasedEntries(k, val, transfer, c.entries[i..]), heap.freed)
      {
        ghost var start, rest := heap.freed, c.entries[i..];
        Suffix(c.entries, i);
        ReleaseEntry(heap, k, val, transfer, c.entries[i]);
        ghost var key, data := ReleasedKey(k, rest[0].key), ReleasedHashValue(val, transfer, rest[0].val);
        StepFreed(all, before, Plus(key, data), ReleasedEntries(k, val, transfer, rest[1..]), start, heap.freed);
        i := i + 1;
      }
    }
    ghost var now := heap.freed;
    assert Freed(before, all, now);
    heap.Free(c.table);
    BothFreed(before, all, now, Cell(c.table), heap.freed);
  }

  /** gjs_gi_argument_release_basic_garray and gjs_gi_argument_release_basic_gptrarray */
  method ReleaseArray(heap: Heap, pointers: bool, b: Basic, transfer: Transfer, c: CVal)
    modifies heap`freed
    ensures Freed(old(heap.freed), Released(TArray(pointers, b), transfer, c), heap.freed)
    decreases TArray(pointers, b), 1
  {
    if !c.CArray? { return; }
    ghost var before := heap.freed;
    ghost var all := if transfer.Container? || !IsString(b) then Empty else Strings(c.items);
    if !transfer.Container? && IsString(b) {
      var i := 0;
      while i < |c.items|
        invariant 0 <= i <= |c.items| && Accounted(all, before, Strings(c.items[i..]), heap.freed)
      {
        ghost var now, rest := heap.freed, c.items[i..];
        Suffix(c.items, i);
        FreeString(heap, b, c.items[i]);
        ghost var first := if c.items[i].CStr? then Cell(c.items[i].cell) else Empty;
        StepFreed(all, before, first, Strings(rest[1..]), now, heap.freed);
        i := i + 1;
      }
    }
    ghost var now := heap.freed;
    assert Freed(before, all, now);
    heap.Free(c.header);
    BothFreed(before, all, now, Cell(c.header), heap.freed);
  }

  /** gjs_gi_argument_release, of an out argument or return value: what the caller owns is freed, once. */
  method ReleaseOutArg(heap: Heap, ty: GiType, transfer: Transfer, c: CVal)
    requires Supported(ty) && HasType(ty, c)
    modifies heap`freed
    ensures Freed(old(heap.freed), ReleasedOut(ty, transfer, c), heap.freed)
    ensures M.OwnedPart(transfer, c, ReleasedOut(ty, transfer, c))
  {
    M.ReleasedOutIsOwned(ty, transfer, c);
    if transfer != Nothing { ReleaseValue(heap, ty, transfer, c); }
  }

  /** gjs_gi_argument_release_in_arg */
  method ReleaseInArg(heap: Heap, ty: GiType, transfer: Transfer, c: CVal)
    modifies heap`freed
    ensures Freed(old(heap.freed), ReleasedIn(ty, transfer, c), heap.freed)
    ensures Supported(ty) && HasType(ty, c) ==>
              M.OwnedPart(if transfer.Nothing? then Everything else Nothing, c, ReleasedIn(ty, transfer, c))
  {
    if Supported(ty) && HasType(ty, c) { M.ReleasedInIsOwned(ty, transfer, c); }
    if transfer == Nothing && NeedsRelease(ty) { ReleaseValue(heap, ty, Nothing, c); }
  }

  /** A whole in argument through the real loops: everything allocated has been freed, each cell once, exactly when no
      nested table overwrites a property. */
  method PassAndRelease(heap: Heap, num: Readings, ty: GiType, v: JS, nullable: bool) returns (ok: bool)
    requires Supported(ty)
    modifies heap
    ensures ok <==> To(num, ty, v, nullable, Nothing, old(heap.next)).Ok?
    ensures ok ==> ((forall x: nat ::
                       Count(heap.freed, x) == Count(old(heap.freed), x) + Once(old(heap.next), heap.next, x))
                    <==> M.KeysApart(num, ty, v))
  {
    ghost var start, before := heap.next, heap.freed;
    var c;
    ok, c := ToValue(heap, num, ty, v, nullable, Nothing);
    if ok {
      ghost var now, r := heap.freed, To(num, ty, v, nullable, Nothing, start);
      ReleaseInArg(heap, ty, Nothing, c);
      BothFreed(before, r.scratch, now, ReleasedIn(ty, Nothing, c), heap.freed);
      M.InArgumentReclaimed(num, ty, v, nullable, start);
      ghost var all := Plus(ReleasedIn(ty, Nothing, c), r.scratch);
      AllocatedFreed(before, all, heap.freed, start, r.next);
    }
  }

  lemma {:induction false} AllocatedFreed(before: Bag, all: Bag, after: Bag, lo: nat, hi: nat)
    requires forall x: nat :: Count(after, x) == Count(before, x) + Count(all, x)
    ensures Allocated(all, lo, hi) <==> forall x: nat :: Count(after, x) == Count(before, x) + Once(lo, hi, x)
  {
    if Allocated(all, lo, hi) {
      forall x: nat ensures Count(after, x) == Count(before, x) + Once(lo, hi, x) {
        assert Count(all, x) == Once(lo, hi, x);
      }
    }
    if forall x: nat :: Count(after, x) == Count(before, x) + Once(lo, hi, x) {
      forall x: nat ensures Count(all, x) == Once(lo, hi, x) {
        assert Count(after, x) == Count(before, x) + Once(lo, hi, x);
        assert Count(after, x) == Count(before, x) + Count(all, x);
      }
    }
  }

  // ----- "from" marshallers

  /** gjs_value_from_gi_argument; `order` is the order a hash table iterator goes in. */
  method FromValue(ty: GiType, c: CVal, order: seq<Entry> -> seq<Entry>) returns (v: JS)
    ensures v == R.From(ty, c, order)
    decreases ty, 0
  {
    match ty
    case TBasic(b) => v := R.FromBasic(b, c);
    case TList(e) => v := FromGList(e, c, order);
    case THash(k, val) => v := FromGHash(k, val, c, order);
    case TArray(_, b) => v := FromArray(b, c);
    case TWide(_) => v := Undefined;
  }

  /** gjs_value_from_basic_garray_gi_argument, gjs_value_from_basic_gptrarray_gi_argument and
      gjs_array_from_basic_c_array_internal */
  method FromArray(b: Basic, c: CVal) returns (v: JS)
    ensures v == if c.CArray? then Arr(R.FromItems(b, c.items)) else Null
  {
    if !c.CArray? { return Null; }
    var elems: seq<JS> := [];
    var i := 0;
    while i < |c.items|
      invariant 0 <= i <= |c.items| && |elems| == i
      invariant forall j :: 0 <= j < i ==> elems[j] == R.FromBasic(b, c.items[j])
    {
      elems := elems + [R.FromBasic(b, c.items[i])];
      i := i + 1;
    }
    v := Arr(elems);
    assert elems == R.FromItems(b, c.items);
  }

  /** gjs_array_from_g_list and array_from_basic_linked_list */
  method FromGList(e: GiType, c: CVal, order: seq<Entry> -> seq<Entry>) returns (v: JS)
    ensures v == R.From(TList(e), c, order)
    decreases e, 1
  {
    var nodes := if c.CList? then c.nodes else [];
    var elems: seq<JS> := [];
    var i := 0;
    while i < |nodes|
      invariant 0 <= i <= |nodes| && |elems| == i
      invariant forall j :: 0 <= j < i ==> elems[j] == R.From(e, nodes[j].data, order)
    {
      var elem := FromValue(e, nodes[i].data, order);
      elems := elems + [elem];
      i := i + 1;
    }
    v := Arr(elems);
    assert elems == R.FromNodes(R.Shower(e, order), nodes);
  }

  /** gjs_object_from_g_hash and gjs_value_from_basic_ghash */
  method FromGHash(k: Basic, val: GiType, c: CVal, order: seq<Entry> -> seq<Entry>) returns (v: JS)
    ensures v == R.From(THash(k, val), c, order)
    decreases val, 1
  {
    if !c.CHash? { return Null; }
    var entries, props := order(c.entries), [];
    ghost var show := R.Shower(val, order);
    ghost var all := R.FromEntries(k, show, entries, []);
    var i := 0;
    while i < |entries|
      invariant 0 <= i <= |entries| && all == R.FromEntries(k, show, entries[i..], props)
    {
      ghost var rest := entries[i..];
      Suffix(entries, i);
      var data := FromValue(val, entries[i].val, order);
      props := R.Define(props, Prop(R.FromKey(entries[i].key), data));
      i := i + 1;
    }
    v := Obj(props);
  }
}
