/** Arrays passed with their length in another argument (BasicExplicitCArrayIn in gi/arg-cache.cpp): the array's in()
    writes the length's cell, wherever that argument stands, and release() reads it back. */
module ExplicitArray {
  import opened Basics
  import opened JsValues
  import opened Ledger
  import opened CValues
  import opened Marshal
  import opened Meaning
  import MarshalMemory
  import L = MarshalLoops

  // ----- the length cell

  /** gjs_gi_argument_set_array_length and gjs_gi_argument_get_array_length: the length is cast to its type, and read
      back as a size_t. */
  function StoredLength(tag: IntTag, n: nat): int { tag.Cast(n) }

  function ReadLength(stored: int): nat { U64.Cast(stored) }

  /** JS arrays have fewer than 2^32 elements; such a count survives exactly when it fits the length's type. */
  lemma LengthSurvivesIff(tag: IntTag, n: nat)
    requires n < 0x1_0000_0000
    ensures ReadLength(StoredLength(tag, n)) == n <==> tag.Holds(n)
  {
    var stored := tag.Cast(n);
    if !tag.Holds(n) {
      assert stored != n;
      NegativeReadsHuge(stored);
    }
  }

  lemma NegativeReadsHuge(stored: int)
    requires I64.Min() <= stored <= U64.Max()
    ensures stored < 0 ==> ReadLength(stored) >= 0x1_0000_0000
    ensures stored >= 0 ==> ReadLength(stored) == stored
  {
    if stored < 0 { assert U64.Cast(stored) == stored + 0x1_0000_0000_0000_0000; }
  }

  // ----- converting and freeing one array

  datatype CBuffer = NullBuffer | Buffer(cell: nat, items: seq<CVal>)

  function ElementCount(b: CBuffer): nat { if b.Buffer? then |b.items| else 0 }

  ghost function BufferCells(b: CBuffer): Bag {
    if b.Buffer? then Plus(ItemsCells(b.items), Cell(b.cell)) else Empty
  }

  datatype Converted = Done(buffer: CBuffer, next: nat) | Refused

  /** gjs_array_to_basic_explicit_array, for arrays and null. */
  ghost function ToBuffer(num: Readings, b: Basic, v: JS, nullable: bool, next: nat): Converted {
    if v.Null? then (if nullable then Done(NullBuffer, next) else Refused)
    else if !v.Arr? then Refused
    else
      var r := ToItems(num, b, v.elems, [], next + 1, next);
      if r.Ok? && r.c.CArray? && r.next > 0 then Done(Buffer(next, r.c.items), r.next - 1) else Refused
  }

  lemma {:induction false} ItemsMade(num: Readings, b: Basic, elems: seq<JS>, acc: seq<CVal>, next: nat, buffer: nat)
    requires ToItems(num, b, elems, acc, next, buffer).Ok?
    ensures var r := ToItems(num, b, elems, acc, next, buffer);
            r.c.CArray? && r.c.header + 1 == r.next && |r.c.items| == |acc| + |elems| && r.scratch == Cell(buffer)
            && r.lost == Empty
    decreases |elems|
  {
    if elems != [] {
      var r := ToItem(num, b, elems[0], next);
      ItemsMade(num, b, elems[1..], acc + [r.c], r.next, buffer);
    }
  }

  /** The buffer has one item for each element, and its cells are those allocated. */
  lemma {:induction false} BufferAllocated(num: Readings, b: Basic, v: JS, nullable: bool, next: nat)
    requires ToBuffer(num, b, v, nullable, next).Done?
    ensures var r := ToBuffer(num, b, v, nullable, next);
            && Allocated(BufferCells(r.buffer), next, r.next)
            && (v.Arr? ==> ElementCount(r.buffer) == |v.elems|)
            && (r.buffer.Buffer? ==> forall i :: 0 <= i < |r.buffer.items| ==> HasBasicType(b, r.buffer.items[i]))
  {
    if v.Arr? {
      var r := ToItems(num, b, v.elems, [], next + 1, next);
      ItemsMade(num, b, v.elems, [], next + 1, next);
      MarshalMemory.ToItemsHasType(num, b, v.elems, [], next + 1, next);
      var cells := Plus(ItemsCells(r.c.items), Cell(next));
      forall x: nat ensures Count(cells, x) == Once(next, r.next - 1, x) {
        ToItemsBalanced(num, b, v.elems, [], next + 1, next, x);
        BufferBalanced(r, next, x);
      }
    }
  }

  /** The buffer means the array, item by item, and is made for just the arrays whose items can be converted. */
  lemma {:induction false} BufferMeans(num: Readings, b: Basic, v: JS, nullable: bool, next: nat)
    ensures var r := ToBuffer(num, b, v, nullable, next);
            && (r.Done? <==> (v.Null? && nullable) || (v.Arr? && AllElems(AcceptedItem(b), v.elems)))
            && (r.Done? ==> if v.Null? then r.buffer == NullBuffer
                  else r.buffer.Buffer? && ItemsMean(num, b, v.elems, r.buffer.items))
  {
    if v.Arr? {
      ItemsConvert(num, b, v.elems, [], next + 1, next, []);
      EmptyPrefix(v.elems);
      if ToItems(num, b, v.elems, [], next + 1, next).Ok? { ItemsMade(num, b, v.elems, [], next + 1, next); }
    }
  }

  /** Only strings are read one by one, and only a length up to the items stays inside the buffer. */
  predicate StaysInside(b: Basic, buffer: CBuffer, length: nat) {
    IsString(b) ==> length <= ElementCount(buffer)
  }

  /** What release() frees if it reads `length`. */
  ghost function FreedBuffer(b: Basic, buffer: CBuffer, length: nat): Bag
    requires StaysInside(b, buffer, length)
  {
    if buffer.NullBuffer? then Empty
    else Plus(if IsString(b) then Strings(buffer.items[..length]) else Empty, Cell(buffer.cell))
  }

  /** With the right length, everything that was allocated is freed, once. */
  lemma {:induction false} AllFreed(num: Readings, b: Basic, v: JS, nullable: bool, next: nat)
    requires ToBuffer(num, b, v, nullable, next).Done?
    ensures var r := ToBuffer(num, b, v, nullable, next);
            Allocated(FreedBuffer(b, r.buffer, ElementCount(r.buffer)), next, r.next)
  {
    var r := ToBuffer(num, b, v, nullable, next);
    BufferAllocated(num, b, v, nullable, next);
    if r.buffer.Buffer? {
      assert r.buffer.items[..|r.buffer.items|] == r.buffer.items;
      var freed := FreedBuffer(b, r.buffer, |r.buffer.items|);
      forall x: nat ensures Count(freed, x) == Once(next, r.next, x) {
        MarshalMemory.ItemsFreed(b, r.buffer.items, x);
        assert Count(BufferCells(r.buffer), x) == Once(next, r.next, x);
      }
    }
  }

  // ----- all arguments of a call

  datatype Slot = ArrayArg(element: Basic, length: nat, tag: IntTag, nullable: bool) | SkipAll | OtherArg

  datatype Word = Unset | Length(n: int) | Data(buffer: CBuffer)

  /** Each array's length argument is a skipped slot of its own. */
  predicate Coupled(slots: seq<Slot>) {
    forall i :: 0 <= i < |slots| && slots[i].ArrayArg? ==> slots[i].length < |slots| && slots[slots[i].length].SkipAll?
  }

  /** The in cells after the first `n` in() calls; `buffers` are the converted arrays. */
  function CellsAfter(slots: seq<Slot>, buffers: seq<CBuffer>, n: nat): (cells: seq<Word>)
    requires Coupled(slots) && |buffers| == |slots| && n <= |slots|
    ensures |cells| == |slots|
  {
    if n == 0 then seq(|slots|, _ => Unset)
    else
      var before, s := CellsAfter(slots, buffers, n - 1), slots[n - 1];
      if s.ArrayArg?
      then before[s.length := Length(StoredLength(s.tag, ElementCount(buffers[n - 1])))][n - 1 := Data(buffers[n - 1])]
      else before
  }

  /** No later array uses the same length argument. */
  predicate LastUser(slots: seq<Slot>, i: nat, n: nat)
    requires i < n <= |slots| && slots[i].ArrayArg?
  {
    forall j :: i < j < n && slots[j].ArrayArg? ==> slots[j].length != slots[i].length
  }

  lemma {:induction false} LastUserWrites(slots: seq<Slot>, buffers: seq<CBuffer>, i: nat, n: nat)
    requires Coupled(slots) && |buffers| == |slots| && i < n <= |slots| && slots[i].ArrayArg?
    ensures CellsAfter(slots, buffers, n)[i] == Data(buffers[i])
    ensures LastUser(slots, i, n) ==>
              CellsAfter(slots, buffers, n)[slots[i].length]
              == Length(StoredLength(slots[i].tag, ElementCount(buffers[i])))
  {
    if i < n - 1 { LastUserWrites(slots, buffers, i, n - 1); }
  }

  /** Whether the length comes before or after its array, C sees the array's element count exactly when that fits the
      length's type. */
  lemma {:induction false} LengthSeen(slots: seq<Slot>, buffers: seq<CBuffer>, i: nat)
    requires Coupled(slots) && |buffers| == |slots| && i < |slots| && slots[i].ArrayArg?
    requires ElementCount(buffers[i]) < 0x1_0000_0000 && LastUser(slots, i, |slots|)
    ensures var cell := CellsAfter(slots, buffers, |slots|)[slots[i].length];
            cell.Length? && (ReadLength(cell.n) == ElementCount(buffers[i]) <==>
                             slots[i].tag.Holds(ElementCount(buffers[i])))
  {
    LastUserWrites(slots, buffers, i, |slots|);
    LengthSurvivesIff(slots[i].tag, ElementCount(buffers[i]));
  }

  /** Arrays that share a length argument all see the count of the last of them. */
  lemma {:induction false} SharedLength(slots: seq<Slot>, buffers: seq<CBuffer>, i: nat, last: nat)
    requires Coupled(slots) && |buffers| == |slots| && i <= last < |slots|
    requires slots[i].ArrayArg? && slots[last].ArrayArg?
    requires slots[i].length == slots[last].length && LastUser(slots, last, |slots|)
    ensures var count := ElementCount(buffers[last]);
            var cell := CellsAfter(slots, buffers, |slots|)[slots[i].length];
            && cell == Length(StoredLength(slots[last].tag, count))
            && (slots[last].tag.Holds(count) && count < 0x1_0000_0000 ==>
                  (ReadLength(cell.n) == ElementCount(buffers[i]) <==> ElementCount(buffers[i]) == count))
  {
    LastUserWrites(slots, buffers, last, |slots|);
    if ElementCount(buffers[last]) < 0x1_0000_0000 {
      LengthSurvivesIff(slots[last].tag, ElementCount(buffers[last]));
    }
  }

  // ----- the code

  class ArrayIn {
    const slot: Slot
    const at: nat
    const transfer: Transfer

    constructor (slot: Slot, at: nat, transfer: Transfer)
      requires slot.ArrayArg?
      ensures this.slot == slot && this.at == at && this.transfer == transfer
    {
      this.slot, this.at, this.transfer := slot, at, transfer;
    }

    /** BasicExplicitCArrayIn::in */
    method In(heap: Heap, num: Readings, cells: array<Word>, v: JS) returns (ok: bool, ghost made: CBuffer)
      requires slot.ArrayArg? && at < cells.Length && slot.length < cells.Length
      modifies heap, cells
      ensures var r := ToBuffer(num, slot.element, v, slot.nullable, old(heap.next));
              && (ok <==> r.Done?)
              && (ok ==> made == r.buffer && heap.next == r.next && heap.freed == old(heap.freed)
                         && var length := Length(StoredLength(slot.tag, ElementCount(made)));
                         cells[..] == old(cells[..])[slot.length := length][at := Data(made)])
    {
      var buffer: CBuffer;
      ok, buffer := Convert(heap, num, v);
      made := buffer;
      if ok {
        cells[slot.length] := Length(StoredLength(slot.tag, ElementCount(buffer)));
        cells[at] := Data(buffer);
      }
    }

    method Convert(heap: Heap, num: Readings, v: JS) returns (ok: bool, buffer: CBuffer)
      requires slot.ArrayArg?
      modifies heap`next
      ensures var r := ToBuffer(num, slot.element, v, slot.nullable, old(heap.next));
              (ok <==> r.Done?) && (ok ==> buffer == r.buffer && heap.next == r.next)
    {
      if v.Null? { return slot.nullable, NullBuffer; }
      if !v.Arr? { return false, NullBuffer; }
      var cell := heap.Alloc();
      ghost var total := ToItems(num, slot.element, v.elems, [], heap.next, cell);
      if total.Ok? { ItemsMade(num, slot.element, v.elems, [], heap.next, cell); }
      var items: seq<CVal> := [];
      var i := 0;
      while i < |v.elems|
        invariant 0 <= i <= |v.elems| && total == ToItems(num, slot.element, v.elems[i..], items, heap.next, cell)
      {
        Suffix(v.elems, i);
        var good, item := L.ToArrayItem(heap, num, slot.element, v.elems[i]);
        if !good { return false, NullBuffer; }
        items := items + [item];
        i := i + 1;
      }
      return true, Buffer(cell, items);
    }

    /** BasicExplicitCArrayIn::release: the length is read back from the cell. `inside` is false where the source
        reads past its buffer; what happens then is undefined. */
    method Release(heap: Heap, cells: array<Word>, completed: bool) returns (inside: bool)
      requires slot.ArrayArg? && at < cells.Length && slot.length < cells.Length
      requires cells[at].Data? && cells[slot.length].Length?
      modifies heap`freed
      ensures var length := ReadLength(cells[slot.length].n);
              && (inside <==> (completed && transfer != Transfer.Nothing)
                              || StaysInside(slot.element, cells[at].buffer, length))
              && (inside ==> L.Freed(old(heap.freed),
                                     if completed && transfer != Transfer.Nothing then Empty
                                     else FreedBuffer(slot.element, cells[at].buffer, length),
                                     heap.freed))
    {
      var length := ReadLength(cells[slot.length].n);
      if completed && transfer != Transfer.Nothing { return true; }
      var buffer := cells[at].buffer;
      if !StaysInside(slot.element, buffer, length) { return false; }
      if buffer.NullBuffer? { return true; }
      ghost var before := heap.freed;
      ghost var all := if IsString(slot.element) then Strings(buffer.items[..length]) else Empty;
      if IsString(slot.element) { FreeItems(heap, buffer.items[..length]); }
      ghost var now := heap.freed;
      heap.Free(buffer.cell);
      L.BothFreed(before, all, now, Cell(buffer.cell), heap.freed);
      return true;
    }

    method FreeItems(heap: Heap, items: seq<CVal>)
      modifies heap`freed
      ensures L.Freed(old(heap.freed), Strings(items), heap.freed)
    {
      ghost var before := heap.freed;
      var i := 0;
      while i < |items|
        invariant 0 <= i <= |items| && L.Accounted(Strings(items), before, Strings(items[i..]), heap.freed)
      {
        ghost var now := heap.freed;
        Suffix(items, i);
        L.FreeString(heap, BStr, items[i]);
        ghost var first := if items[i].CStr? then Cell(items[i].cell) else Empty;
        L.StepFreed(Strings(items), before, first, Strings(items[i + 1..]), now, heap.freed);
        i := i + 1;
      }
    }
  }

  // ----- exactly when everything is freed

  /** The count of elements, as it is read back from a length of this type. */
  function ReadBack(tag: IntTag, v: JS): nat {
    ReadLength(StoredLength(tag, if v.Arr? then |v.elems| else 0))
  }

  /** What a caller can check: the elements are not strings; or the length falls short only of null elements. */
  predicate LengthServes(b: Basic, length: nat, v: JS) {
    IsString(b) ==>
      if v.Arr? then length <= |v.elems| && forall i :: length <= i < |v.elems| ==> v.elems[i].Null?
      else length == 0
  }

  lemma {:induction false} StringsSplit(items: seq<CVal>, n: nat, x: nat)
    requires n <= |items|
    ensures Count(Strings(items), x) == Count(Strings(items[..n]), x) + Count(Strings(items[n..]), x)
  {
    if n == 0 {
      assert items[n..] == items;
    } else {
      StringsSplit(items[1..], n - 1, x);
      assert items[..n][1..] == items[1..][..n - 1] && items[n..] == items[1..][n - 1..];
    }
  }

  lemma {:induction false} StringsNone(items: seq<CVal>)
    ensures MarshalMemory.Size(Strings(items)) == 0 <==> forall i :: 0 <= i < |items| ==> !items[i].CStr?
  {
    if items != [] {
      StringsNone(items[1..]);
      assert forall i :: 1 <= i < |items| ==> items[i] == items[1..][i - 1];
    }
  }

  /** Items are strings where the elements are, and null where they are null. */
  lemma {:induction false} ItemsLikeElements(num: Readings, elems: seq<JS>, acc: seq<CVal>, next: nat, buffer: nat,
                                             done: seq<JS>)
    requires ToItems(num, BStr, elems, acc, next, buffer).Ok? && |acc| == |done|
    requires forall i :: 0 <= i < |acc| ==> (acc[i].CStr? <==> !done[i].Null?)
    ensures var items := ToItems(num, BStr, elems, acc, next, buffer).c;
            items.CArray? && |items.items| == |done + elems|
            && forall i :: 0 <= i < |items.items| ==> (items.items[i].CStr? <==> !(done + elems)[i].Null?)
    decreases |elems|
  {
    if elems == [] {
      assert done + elems == done;
    } else {
      var r := ToItem(num, BStr, elems[0], next);
      ItemsLikeElements(num, elems[1..], acc + [r.c], r.next, buffer, done + [elems[0]]);
      assert (done + [elems[0]]) + elems[1..] == done + elems;
    }
  }

  /** Releasing a string array with a shorter length frees everything exactly if only null elements are passed over. */
  lemma {:induction false} ShortLength(num: Readings, v: JS, nullable: bool, next: nat, n: nat)
    requires ToBuffer(num, BStr, v, nullable, next).Done? && v.Arr? && n <= |v.elems|
    ensures var r := ToBuffer(num, BStr, v, nullable, next);
            ElementCount(r.buffer) == |v.elems|
            && (Allocated(FreedBuffer(BStr, r.buffer, n), next, r.next)
                <==> forall i :: n <= i < |v.elems| ==> v.elems[i].Null?)
  {
    var r := ToBuffer(num, BStr, v, nullable, next);
    BufferAllocated(num, BStr, v, nullable, next);
    AllFreed(num, BStr, v, nullable, next);
    ItemsLikeElements(num, v.elems, [], next + 1, next, []);
    EmptyPrefix(v.elems);
    ShortRelease(r.buffer, n, next, r.next);
    TailNull(v.elems, r.buffer.items, n);
  }

  lemma {:induction false} ShortRelease(buffer: CBuffer, n: nat, lo: nat, hi: nat)
    requires buffer.Buffer? && n <= |buffer.items| && Allocated(FreedBuffer(BStr, buffer, |buffer.items|), lo, hi)
    ensures Allocated(FreedBuffer(BStr, buffer, n), lo, hi) <==> forall i :: n <= i < |buffer.items| ==>
                                                                               !buffer.items[i].CStr?
  {
    var items, freed := buffer.items, FreedBuffer(BStr, buffer, n);
    assert items[..|items|] == items;
    forall x: nat ensures Count(Plus(freed, Strings(items[n..])), x) == Once(lo, hi, x) {
      StringsSplit(items, n, x);
      assert Count(FreedBuffer(BStr, buffer, |items|), x) == Once(lo, hi, x);
    }
    MarshalMemory.ClosesWithout(freed, Strings(items[n..]), lo, hi);
    StringsNone(items[n..]);
    assert forall i :: n <= i < |items| ==> items[i] == items[n..][i - n];
    assert forall i :: 0 <= i < |items[n..]| ==> items[n..][i] == items[i + n];
  }

  lemma TailNull(elems: seq<JS>, items: seq<CVal>, n: nat)
    requires |items| == |elems| && forall i :: 0 <= i < |items| ==> (items[i].CStr? <==> !elems[i].Null?)
    ensures (forall i :: n <= i < |items| ==> !items[i].CStr?) <==> (forall i :: n <= i < |elems| ==> elems[i].Null?)
  {
  }

  /** Release with any length. */
  lemma {:induction false} ReclaimedIff(num: Readings, b: Basic, v: JS, nullable: bool, next: nat, length: nat)
    requires ToBuffer(num, b, v, nullable, next).Done?
    ensures var r := ToBuffer(num, b, v, nullable, next);
            (StaysInside(b, r.buffer, length) && Allocated(FreedBuffer(b, r.buffer, length), next, r.next))
            <==> LengthServes(b, length, v)
  {
    var r := ToBuffer(num, b, v, nullable, next);
    BufferAllocated(num, b, v, nullable, next);
    AllFreed(num, b, v, nullable, next);
    if v.Arr? && IsString(b) && length <= |v.elems| { ShortLength(num, v, nullable, next, length); }
    if v.Arr? && !IsString(b) {
      assert FreedBuffer(b, r.buffer, length) == FreedBuffer(b, r.buffer, ElementCount(r.buffer));
    }
  }

  /** A count that fits the length's type serves. */
  lemma FittingServes(b: Basic, tag: IntTag, v: JS)
    requires v.Arr? ==> |v.elems| < 0x1_0000_0000 && tag.Holds(|v.elems|)
    ensures LengthServes(b, ReadBack(tag, v), v)
  {
    if v.Arr? { LengthSurvivesIff(tag, |v.elems|); } else { LengthSurvivesIff(tag, 0); }
  }

  /** Whichever array wrote the length last: after all in() calls, the release of array `i` frees exactly what its
      conversion allocated if and only if the count of that last array, as read back, serves array `i`. */
  lemma {:induction false} SharedReclaimedIff(num: Readings, slots: seq<Slot>, buffers: seq<CBuffer>, i: nat, last: nat,
                                              v: JS, next: nat)
    requires Coupled(slots) && |buffers| == |slots| && i <= last < |slots|
    requires slots[i].ArrayArg? && slots[last].ArrayArg?
    requires slots[i].length == slots[last].length && LastUser(slots, last, |slots|)
    requires ToBuffer(num, slots[i].element, v, slots[i].nullable, next).Done?
    requires buffers[i] == ToBuffer(num, slots[i].element, v, slots[i].nullable, next).buffer
    ensures var b, cells := slots[i].element, CellsAfter(slots, buffers, |slots|);
            && cells[i] == Data(buffers[i]) && cells[slots[i].length].Length?
            && var length := ReadLength(cells[slots[i].length].n);
            (StaysInside(b, buffers[i], length)
             && Allocated(FreedBuffer(b, buffers[i], length), next,
                          ToBuffer(num, b, v, slots[i].nullable, next).next))
            <==> LengthServes(b, ReadLength(StoredLength(slots[last].tag, ElementCount(buffers[last]))), v)
  {
    LastUserWrites(slots, buffers, i, |slots|);
    SharedLength(slots, buffers, i, last);
    ReclaimedIff(num, slots[i].element, v, slots[i].nullable, next,
                 ReadLength(StoredLength(slots[last].tag, ElementCount(buffers[last]))));
  }

  /** An array and its length through a whole call that keeps nothing (transfer NOTHING, or not completed), the length
      argument on either side: exactly what in() allocated is freed if and only if the length serves. */
  method PassAndRelease(heap: Heap, num: Readings, arg: ArrayIn, cells: array<Word>, v: JS, completed: bool)
    returns (ok: bool, inside: bool)
    requires arg.slot.ArrayArg? && arg.at < cells.Length && arg.slot.length < cells.Length && arg.at != arg.slot.length
    requires arg.transfer.Nothing? || !completed
    modifies heap, cells
    ensures ok <==> ToBuffer(num, arg.slot.element, v, arg.slot.nullable, old(heap.next)).Done?
    ensures ok ==>
              ((inside && forall x: nat ::
                  Count(heap.freed, x) == Count(old(heap.freed), x) + Once(old(heap.next), heap.next, x))
               <==> LengthServes(arg.slot.element, ReadBack(arg.slot.tag, v), v))
  {
    ghost var start, before := heap.next, heap.freed;
    ghost var made: CBuffer;
    inside := true;
    ok, made := arg.In(heap, num, cells, v);
    if ok {
      ghost var n := ReadBack(arg.slot.tag, v);
      BufferAllocated(num, arg.slot.element, v, arg.slot.nullable, start);
      ReclaimedIff(num, arg.slot.element, v, arg.slot.nullable, start, n);
      inside := arg.Release(heap, cells, completed);
      if inside {
        L.AllocatedFreed(before, FreedBuffer(arg.slot.element, made, n), heap.freed, start, heap.next);
      }
    }
  }

  // ----- inputs that fail

  /** An array of this many strings. */
  function Repeated(n: nat): JS { Arr(seq(n, _ => Str("x"))) }

  lemma {:induction false} StringsConvert(num: Readings, elems: seq<JS>, acc: seq<CVal>, next: nat, buffer: nat)
    requires forall i :: 0 <= i < |elems| ==> elems[i].Str?
    ensures var r := ToItems(num, BStr, elems, acc, next, buffer); r.Ok? && r.next == next + |elems| + 1
    decreases |elems|
  {
    if elems != [] {
      var r := ToItem(num, BStr, elems[0], next);
      StringsConvert(num, elems[1..], acc + [r.c], r.next, buffer);
    }
  }

  lemma ManyStrings(num: Readings, n: nat, next: nat)
    ensures var r := ToBuffer(num, BStr, Repeated(n), false, next);
            r.Done? && r.buffer == Buffer(next, r.buffer.items) && |r.buffer.items| == n && r.next == next + n + 1
  {
    var elems := Repeated(n).elems;
    StringsConvert(num, elems, [], next + 1, next);
    ItemsMade(num, BStr, elems, [], next + 1, next);
  }

  lemma CountsRead()
    ensures ReadLength(StoredLength(U8, 256)) == 0 && ReadLength(StoredLength(I8, 128)) > 128
  {
    assert StoredLength(U8, 256) == 0 && StoredLength(I8, 128) == -128;
    NegativeReadsHuge(-128);
  }

  lemma RepeatedReadBack(tag: IntTag, n: nat)
    ensures ReadBack(tag, Repeated(n)) == ReadLength(StoredLength(tag, n))
  {
    assert |Repeated(n).elems| == n;
  }

  lemma OnlyTheBuffer(buffer: CBuffer, x: nat)
    requires buffer.Buffer?
    ensures Count(FreedBuffer(BStr, buffer, 0), x) == if x == buffer.cell then 1 else 0
  {
    assert buffer.items[..0] == [];
  }

  lemma SomethingLeft(n: nat)
    requires n > 0
    ensures !LengthServes(BStr, 0, Repeated(n))
  {
    assert Repeated(n).elems[0] == Str("x");
  }

  /** 256 strings, their length a uint8: the length is read back as 0, and none of the strings is freed. */
  lemma StringsLeftBehind(num: Readings, next: nat)
    ensures var v := Repeated(256);
            var r := ToBuffer(num, BStr, v, false, next);
            && r.Done? && r.next == next + 257 && ReadBack(U8, v) == 0 && !LengthServes(BStr, ReadBack(U8, v), v)
            && forall x: nat :: Count(FreedBuffer(BStr, r.buffer, 0), x) == if x == next then 1 else 0
  {
    ManyStrings(num, 256, next);
    SomethingLeft(256);
    CountsRead();
    RepeatedReadBack(U8, 256);
    var buffer := ToBuffer(num, BStr, Repeated(256), false, next).buffer;
    forall x: nat ensures Count(FreedBuffer(BStr, buffer, 0), x) == if x == next then 1 else 0 {
      OnlyTheBuffer(buffer, x);
    }
  }

  /** 128 strings, their length an int8: it is read back as a huge number, and the release reads past the buffer. */
  lemma ReadsPastBuffer(num: Readings, next: nat)
    ensures var v := Repeated(128);
            var r := ToBuffer(num, BStr, v, false, next);
            r.Done? && !StaysInside(BStr, r.buffer, ReadBack(I8, v))
  {
    ManyStrings(num, 128, next);
    CountsRead();
    RepeatedReadBack(I8, 128);
  }
}
