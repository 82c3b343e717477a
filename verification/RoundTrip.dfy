/** The "from" marshallers of gi/arg.cpp, and exactly which JS values survive the trip to C and back. */
module RoundTrip {
  import opened Basics
  import opened JsValues
  import opened CValues
  import opened Marshal
  import N = Numeric
  import MarshalMemory

  // ----- "from" marshallers; `order` is the order in which GHashTableIter visits the entries of a table

  ghost predicate Shuffles(order: seq<Entry> -> seq<Entry>) {
    forall entries: seq<Entry>, e: Entry :: e in order(entries) <==> e in entries
  }

  function FromBasic(b: Basic, c: CVal): JS {
    if b.BStr? then (if c.CStr? then Str(c.text) else Null)
    else if c.CInt? then Integer(c.n) else Undefined
  }

  /** gjs_value_from_gi_argument, for types that nest no wide number. Of an array only the pointer to the GArray or
      GPtrArray itself can be null. */
  ghost function From(ty: GiType, c: CVal, order: seq<Entry> -> seq<Entry>): JS
    decreases ty, 0
  {
    match ty
    case TBasic(b) => FromBasic(b, c)
    case TWide(_) => Undefined
    case TList(e) => Arr(if c.CList? then FromNodes(Shower(e, order), c.nodes) else [])
    case THash(k, val) => if c.CHash? then Obj(FromEntries(k, Shower(val, order), order(c.entries), [])) else Null
    case TArray(_, b) => if c.CArray? then Arr(FromItems(b, c.items)) else Null
  }

  /** fill_vector_from_basic_c_array */
  function FromItems(b: Basic, items: seq<CVal>): (elems: seq<JS>)
    ensures |elems| == |items| && forall i :: 0 <= i < |items| ==> elems[i] == FromBasic(b, items[i])
  {
    seq(|items|, i requires 0 <= i < |items| => FromBasic(b, items[i]))
  }

  /** The conversion of one type, as the loops over nodes and entries use it. */
  ghost function Shower(ty: GiType, order: seq<Entry> -> seq<Entry>): CVal -> JS
    decreases ty, 1
  {
    (c: CVal) => From(ty, c, order)
  }

  ghost function FromNodes(show: CVal -> JS, nodes: seq<Node>): (elems: seq<JS>)
    ensures |elems| == |nodes| && forall i :: 0 <= i < |nodes| ==> elems[i] == show(nodes[i].data)
  {
    if nodes == [] then [] else [show(nodes[0].data)] + FromNodes(show, nodes[1..])
  }

  /** The property key made from a table key: JS_ValueToId of the converted value. */
  function FromKey(key: CVal): string {
    if key.CStr? then key.text else if key.CInt? then Print(key.n) else "null"
  }

  /** JS_DefinePropertyById: an existing key keeps its place. */
  function Define(props: seq<Prop>, p: Prop): seq<Prop> {
    if props == [] then [p]
    else if props[0].key == p.key then [p] + props[1..]
    else [props[0]] + Define(props[1..], p)
  }

  /** Table entries still to convert, `acc` being the properties defined so far. */
  ghost function FromEntries(k: Basic, show: CVal -> JS, entries: seq<Entry>, acc: seq<Prop>): seq<Prop>
    decreases |entries|
  {
    if entries == [] then acc
    else FromEntries(k, show, entries[1..], Define(acc, Prop(FromKey(entries[0].key), show(entries[0].val))))
  }

  // ----- which values are the same, and which have the form C can represent

  /** Types this direction covers: strings, small integers, lists, tables and arrays. Not byte arrays, which come back
      as a Uint8Array, and not integers in a GPtrArray, whose bytes are copied as if they were pointers. */
  predicate Plain(ty: GiType) {
    match ty
    case TBasic(b) => SmallBasic(b)
    case TWide(_) => false
    case TList(e) => Plain(e)
    case THash(k, val) => SmallBasic(k) && Plain(val)
    case TArray(pointers, b) => SmallBasic(b) && (b.BInt? ==> !pointers && b.tag != U8)
  }

  /** Objects have one property of each name. */
  predicate WellFormed(v: JS)
    decreases v
  {
    match v
    case Arr(elems) => forall i :: 0 <= i < |elems| ==> WellFormed(elems[i])
    case Obj(props) =>
      && (forall i, j :: 0 <= i < j < |props| ==> props[i].key != props[j].key)
      && (forall i :: 0 <= i < |props| ==> WellFormed(props[i].val))
    case _ => true
  }

  /** The same value, objects being compared as maps. */
  ghost predicate SameJS(a: JS, b: JS)
    decreases a
  {
    match a
    case Arr(xs) => b.Arr? && |xs| == |b.elems| && forall i :: 0 <= i < |xs| ==> SameJS(xs[i], b.elems[i])
    case Obj(ps) =>
      && b.Obj?
      && (forall i {:trigger InSecond(ps[i], b.props)} :: 0 <= i < |ps| ==> InSecond(ps[i], b.props))
      && (forall j {:trigger InFirst(ps, b.props[j])} :: 0 <= j < |b.props| ==> InFirst(ps, b.props[j]))
    case _ => a == b
  }

  ghost predicate InSecond(p: Prop, qs: seq<Prop>)
    decreases p
  {
    exists j :: 0 <= j < |qs| && p.key == qs[j].key && SameJS(p.val, qs[j].val)
  }

  ghost predicate InFirst(ps: seq<Prop>, q: Prop)
    decreases ps
  {
    exists i :: 0 <= i < |ps| && ps[i].key == q.key && SameJS(ps[i].val, q.val)
  }

  ghost predicate CanonicalBasic(b: Basic, v: JS) {
    match b
    case BStr => v.Null? || (v.Str? && '\0' !in v.s)
    case BInt(tag) => exists n: int :: v == Integer(n) && tag.Holds(n)
  }

  ghost predicate CanonicalKey(k: Basic, key: string) {
    match k
    case BStr => '\0' !in key
    case BInt(tag) => exists n: int :: key == Print(n) && tag.Holds(n)
  }

  /** The value has the form its type gives back: strings without NUL, integers in range, keys that spell an integer
      in range the way JS does, arrays for lists and plain objects for tables. */
  ghost predicate Canonical(ty: GiType, v: JS)
    decreases ty
  {
    match ty
    case TBasic(b) => CanonicalBasic(b, v)
    case TWide(_) => false
    case TList(e) => v.Arr? && forall i :: 0 <= i < |v.elems| ==> Canonical(e, v.elems[i])
    case THash(k, val) =>
      v.Null? || (v.Obj? && forall i :: 0 <= i < |v.props| ==>
                                          CanonicalKey(k, v.props[i].key) && Canonical(val, v.props[i].val))
    case TArray(_, b) => v.Arr? && forall i :: 0 <= i < |v.elems| ==> CanonicalBasic(b, v.elems[i])
  }

  // ----- defining properties one by one

  lemma {:induction false} DefineKeeps(props: seq<Prop>, p: Prop, q: Prop)
    ensures p in Define(props, p)
    ensures q in Define(props, p) ==> q in props || q == p
    ensures q in props && q.key != p.key ==> q in Define(props, p)
  {
    if props != [] && props[0].key != p.key { DefineKeeps(props[1..], p, q); }
  }

  ghost function Shown(show: CVal -> JS, e: Entry): Prop {
    Prop(FromKey(e.key), show(e.val))
  }

  /** Every property defined comes from an entry. */
  lemma {:induction false} FromEntriesOnly(k: Basic, show: CVal -> JS, entries: seq<Entry>, acc: seq<Prop>, q: Prop)
    requires q in FromEntries(k, show, entries, acc)
    ensures q in acc || exists e :: e in entries && q == Shown(show, e)
    decreases |entries|
  {
    if entries != [] {
      var p := Shown(show, entries[0]);
      FromEntriesOnly(k, show, entries[1..], Define(acc, p), q);
      DefineKeeps(acc, p, q);
    }
  }

  /** A property stays if no other entry gives the same key. */
  lemma {:induction false} FromEntriesKeeps(k: Basic, show: CVal -> JS, entries: seq<Entry>, acc: seq<Prop>, q: Prop)
    requires forall e :: e in entries && FromKey(e.key) == q.key ==> Shown(show, e) == q
    requires q in acc || exists e :: e in entries && Shown(show, e) == q
    ensures q in FromEntries(k, show, entries, acc)
    decreases |entries|
  {
    if entries != [] {
      var p := Shown(show, entries[0]);
      DefineKeeps(acc, p, q);
      assert p.key == q.key ==> p == q;
      FromEntriesKeeps(k, show, entries[1..], Define(acc, p), q);
    }
  }

  // ----- canonical values survive

  /** What entry `e` shows is property `p`. */
  ghost predicate Matches(show: CVal -> JS, e: Entry, p: Prop) {
    FromKey(e.key) == p.key && SameJS(show(e.val), p.val)
  }

  ghost predicate AllMatch(show: CVal -> JS, entries: seq<Entry>, props: seq<Prop>) {
    |entries| == |props| && forall i :: 0 <= i < |props| ==> Matches(show, entries[i], props[i])
  }

  ghost predicate Survives(conv: (JS, nat) -> Marshalled, show: CVal -> JS, ty: GiType) {
    forall v: JS, next: nat :: conv(v, next).Ok? && Canonical(ty, v) && WellFormed(v) ==>
                                 SameJS(show(conv(v, next).c), v)
  }

  lemma {:induction false} BasicSurvives(num: Readings, b: Basic, v: JS, nullable: bool, next: nat)
    requires SmallBasic(b) && CanonicalBasic(b, v)
    ensures ToBasic(num, b, v, nullable, next).Ok? ==> FromBasic(b, ToBasic(num, b, v, nullable, next).c) == v
  {
    if b.BInt? {
      var n: int :| v == Integer(n) && b.tag.Holds(n);
      N.SmallRoundTrip(num, b.tag, n);
      N.TruncInteger(n);
    }
  }

  lemma PrintedNumber(num: Readings, n: int)
    requires -SAFE <= n <= SAFE
    ensures ToNumber(num, Str(Print(n))) == Some(Fin(n as real))
  {
    ParsePrint(n);
    assert Parse("").None?;
  }

  lemma PrintedKey(num: Readings, tag: IntTag, n: int)
    requires tag.Small() && tag.Holds(n)
    ensures KeyToInt(num, tag, Print(n)) == n
  {
    PrintedNumber(num, n);
    N.TruncInteger(n);
  }

  lemma KeySurvives(num: Readings, k: Basic, key: string, next: nat)
    requires SmallBasic(k) && CanonicalKey(k, key)
    ensures FromKey(ToKey(num, k, key, next)) == key
  {
    if k.BInt? {
      var n: int :| key == Print(n) && k.tag.Holds(n);
      PrintedKey(num, k.tag, n);
      assert ToKey(num, k, key, next) == CInt(n);
    }
  }

  lemma {:induction false} Survival(num: Readings, ty: GiType, v: JS, nullable: bool, transfer: Transfer, next: nat,
                                    order: seq<Entry> -> seq<Entry>)
    requires Plain(ty) && Shuffles(order) && WellFormed(v) && Canonical(ty, v)
    requires To(num, ty, v, nullable, transfer, next).Ok?
    ensures SameJS(From(ty, To(num, ty, v, nullable, transfer, next).c, order), v)
    decreases ty, 0
  {
    match ty
    case TBasic(b) => BasicSurvives(num, b, v, nullable, next);
    case TList(e) =>
      ConverterSurvives(num, e, false, ElementTransfer(transfer), order);
      NodesSurvive(e, Converter(num, e, false, ElementTransfer(transfer)), Shower(e, order), v.elems, [], next, []);
      EmptyPrefix(v.elems);
    case THash(k, val) =>
      if v.Obj? {
        ConverterSurvives(num, val, true, ElementTransfer(transfer), order);
        TableSurvives(num, k, val, Converter(num, val, true, ElementTransfer(transfer)), Shower(val, order), v.props,
                      next, next + 1, order);
      }
    case TArray(_, b) =>
      ItemsSurvive(num, b, v.elems, [], next + 1, next, []);
      EmptyPrefix(v.elems);
  }

  lemma MoveAcross<T>(a: seq<T>, b: seq<T>)
    requires b != []
    ensures (a + [b[0]]) + b[1..] == a + b
  {
  }

  lemma {:induction false} ConverterSurvives(num: Readings, ty: GiType, nullable: bool, transfer: Transfer,
                                             order: seq<Entry> -> seq<Entry>)
    requires Plain(ty) && Shuffles(order)
    ensures Survives(Converter(num, ty, nullable, transfer), Shower(ty, order), ty)
    decreases ty, 1
  {
    var conv, show := Converter(num, ty, nullable, transfer), Shower(ty, order);
    forall v: JS, next: nat | conv(v, next).Ok? && Canonical(ty, v) && WellFormed(v)
      ensures SameJS(show(conv(v, next).c), v)
    {
      Survival(num, ty, v, nullable, transfer, next, order);
    }
  }

  ghost predicate NodesMatch(show: CVal -> JS, nodes: seq<Node>, elems: seq<JS>) {
    |nodes| == |elems| && forall i :: 0 <= i < |elems| ==> SameJS(show(nodes[i].data), elems[i])
  }

  lemma {:induction false} NodesSurvive(e: GiType, conv: (JS, nat) -> Marshalled, show: CVal -> JS, elems: seq<JS>,
                                        acc: seq<Node>, next: nat, done: seq<JS>)
    requires Survives(conv, show, e) && NodesMatch(show, acc, done) && ToNodes(conv, elems, acc, next).Ok?
    requires forall i :: 0 <= i < |elems| ==> Canonical(e, elems[i]) && WellFormed(elems[i])
    ensures var c := ToNodes(conv, elems, acc, next).c; c.CList? && NodesMatch(show, c.nodes, done + elems)
    decreases |elems|
  {
    if elems == [] {
      assert done + elems == done;
    } else {
      var r := conv(elems[0], next);
      NodesSurvive(e, conv, show, elems[1..], acc + [Node(r.next, r.c)], r.next + 1, done + [elems[0]]);
      MoveAcross(done, elems);
    }
  }

  // ----- arrays

  ghost predicate ItemsMatch(b: Basic, items: seq<CVal>, elems: seq<JS>) {
    |items| == |elems| && forall i :: 0 <= i < |elems| ==> FromBasic(b, items[i]) == elems[i]
  }

  lemma {:induction false} ItemSurvives(num: Readings, b: Basic, v: JS, next: nat)
    requires SmallBasic(b) && CanonicalBasic(b, v)
    ensures ToItem(num, b, v, next).Ok? ==> FromBasic(b, ToItem(num, b, v, next).c) == v
  {
    if b.BInt? {
      var n: int :| v == Integer(n) && b.tag.Holds(n);
      N.TruncInteger(n);
    } else {
      BasicSurvives(num, b, v, true, next);
    }
  }

  lemma {:induction false} ItemsSurvive(num: Readings, b: Basic, elems: seq<JS>, acc: seq<CVal>, next: nat,
                                        buffer: nat, done: seq<JS>)
    requires SmallBasic(b) && ItemsMatch(b, acc, done) && ToItems(num, b, elems, acc, next, buffer).Ok?
    requires forall i :: 0 <= i < |elems| ==> CanonicalBasic(b, elems[i])
    ensures var c := ToItems(num, b, elems, acc, next, buffer).c; c.CArray? && ItemsMatch(b, c.items, done + elems)
    decreases |elems|
  {
    if elems == [] {
      assert done + elems == done;
    } else {
      var r := ToItem(num, b, elems[0], next);
      ItemSurvives(num, b, elems[0], next);
      ItemsSurvive(num, b, elems[1..], acc + [r.c], r.next, buffer, done + [elems[0]]);
      MoveAcross(done, elems);
    }
  }

  // ----- tables

  ghost predicate KeysCanonical(k: Basic, val: GiType, props: seq<Prop>) {
    && (forall i :: 0 <= i < |props| ==>
                      CanonicalKey(k, props[i].key) && Canonical(val, props[i].val) && WellFormed(props[i].val))
    && (forall i, j :: 0 <= i < j < |props| ==> props[i].key != props[j].key)
  }

  /** A key unlike all those in the table is appended. */
  lemma {:induction false} InsertAppends(show: CVal -> JS, acc: seq<Entry>, done: seq<Prop>, e: Entry, p: Prop)
    requires AllMatch(show, acc, done) && Matches(show, e, p)
    requires forall i :: 0 <= i < |done| ==> done[i].key != p.key
    ensures Insert(acc, e) == acc + [e] && AllMatch(show, acc + [e], done + [p])
  {
    forall i | 0 <= i < |acc| ensures !SameKey(acc[i].key, e.key) { assert Matches(show, acc[i], done[i]); }
    FindNone(acc, e.key);
    InsertAt(acc, e);
  }

  lemma {:induction false} EntriesSurvive(num: Readings, k: Basic, val: GiType, conv: (JS, nat) -> Marshalled,
                                          show: CVal -> JS, props: seq<Prop>, table: nat, acc: seq<Entry>, next: nat,
                                          done: seq<Prop>)
    requires SmallBasic(k) && Survives(conv, show, val) && AllMatch(show, acc, done)
    requires KeysCanonical(k, val, done + props) && ToEntries(num, k, conv, props, table, acc, next).Ok?
    ensures var c := ToEntries(num, k, conv, props, table, acc, next).c;
            c.CHash? && AllMatch(show, c.entries, done + props)
    decreases |props|
  {
    if props == [] {
      assert done + props == done;
    } else {
      var all, p := done + props, props[0];
      assert all[|done|] == p;
      var r := conv(p.val, next + KeyCells(k));
      var e := Entry(ToKey(num, k, p.key, next), r.c);
      KeySurvives(num, k, p.key, next);
      assert Matches(show, e, p);
      forall i | 0 <= i < |done| ensures done[i].key != p.key { assert all[i] == done[i]; }
      InsertAppends(show, acc, done, e, p);
      MoveAcross(done, props);
      EntriesSurvive(num, k, val, conv, show, props[1..], table, acc + [e], r.next, done + [p]);
    }
  }

  lemma {:induction false} TableSurvives(num: Readings, k: Basic, val: GiType, conv: (JS, nat) -> Marshalled,
                                         show: CVal -> JS, props: seq<Prop>, table: nat, next: nat,
                                         order: seq<Entry> -> seq<Entry>)
    requires SmallBasic(k) && Survives(conv, show, val) && Shuffles(order)
    requires KeysCanonical(k, val, props) && ToEntries(num, k, conv, props, table, [], next).Ok?
    ensures var c := ToEntries(num, k, conv, props, table, [], next).c;
            c.CHash? && SameJS(Obj(FromEntries(k, show, order(c.entries), [])), Obj(props))
  {
    EmptyPrefix(props);
    EntriesSurvive(num, k, val, conv, show, props, table, [], next, []);
    TableShows(k, show, ToEntries(num, k, conv, props, table, [], next).c.entries, props, order);
  }

  lemma {:induction false} TableShows(k: Basic, show: CVal -> JS, entries: seq<Entry>, props: seq<Prop>,
                                      order: seq<Entry> -> seq<Entry>)
    requires Shuffles(order) && AllMatch(show, entries, props)
    requires forall i, j :: 0 <= i < j < |props| ==> props[i].key != props[j].key
    ensures SameJS(Obj(FromEntries(k, show, order(entries), [])), Obj(props))
  {
    var es := order(entries);
    var ps := FromEntries(k, show, es, []);
    forall i | 0 <= i < |ps| ensures InSecond(ps[i], props) { ShownOnce(k, show, entries, props, es, ps[i]); }
    forall j | 0 <= j < |props| ensures InFirst(ps, props[j]) { ShownSomewhere(k, show, entries, props, es, j); }
  }

  lemma {:induction false} ShownOnce(k: Basic, show: CVal -> JS, entries: seq<Entry>, props: seq<Prop>,
                                     es: seq<Entry>, q: Prop)
    requires AllMatch(show, entries, props) && (forall e :: e in es ==> e in entries)
    requires q in FromEntries(k, show, es, [])
    ensures InSecond(q, props)
  {
    FromEntriesOnly(k, show, es, [], q);
    var e :| e in es && q == Shown(show, e);
    var j :| 0 <= j < |entries| && entries[j] == e;
    assert Matches(show, entries[j], props[j]);
  }

  lemma {:induction false} ShownSomewhere(k: Basic, show: CVal -> JS, entries: seq<Entry>, props: seq<Prop>,
                                          es: seq<Entry>, j: nat)
    requires AllMatch(show, entries, props) && (forall e :: e in es <==> e in entries) && j < |props|
    requires forall a, b :: 0 <= a < b < |props| ==> props[a].key != props[b].key
    ensures InFirst(FromEntries(k, show, es, []), props[j])
  {
    var e := entries[j];
    assert Matches(show, e, props[j]) && e in es;
    OnlyEntry(show, entries, props, j, es);
    FromEntriesKeeps(k, show, es, [], Shown(show, e));
    var ps := FromEntries(k, show, es, []);
    var i :| 0 <= i < |ps| && ps[i] == Shown(show, e);
  }

  lemma {:induction false} OnlyEntry(show: CVal -> JS, entries: seq<Entry>, props: seq<Prop>, j: nat, es: seq<Entry>)
    requires AllMatch(show, entries, props) && j < |props|
    requires forall a, b :: 0 <= a < b < |props| ==> props[a].key != props[b].key
    requires forall e :: e in es ==> e in entries
    ensures forall e :: e in es && FromKey(e.key) == FromKey(entries[j].key) ==>
                          Shown(show, e) == Shown(show, entries[j])
  {
    forall e | e in es && FromKey(e.key) == FromKey(entries[j].key) ensures Shown(show, e) == Shown(show, entries[j]) {
      var i :| 0 <= i < |entries| && entries[i] == e;
      assert Matches(show, entries[i], props[i]) && Matches(show, entries[j], props[j]);
    }
  }

  // ----- only canonical values survive, because everything that comes back from C is canonical

  lemma {:induction false} FromIsCanonical(ty: GiType, c: CVal, order: seq<Entry> -> seq<Entry>)
    requires Plain(ty) && Shuffles(order) && MarshalMemory.Typed(ty, c)
    ensures Canonical(ty, From(ty, c, order))
    decreases ty
  {
    match ty
    case TBasic(b) => BasicIsCanonical(b, c);
    case TList(e) =>
      if c.CList? {
        forall i | 0 <= i < |c.nodes| ensures Canonical(e, From(e, c.nodes[i].data, order)) {
          FromIsCanonical(e, c.nodes[i].data, order);
        }
      }
    case THash(k, val) =>
      if c.CHash? {
        var show := Shower(val, order);
        var ps := FromEntries(k, show, order(c.entries), []);
        forall i | 0 <= i < |ps| ensures CanonicalKey(k, ps[i].key) && Canonical(val, ps[i].val) {
          FromEntriesOnly(k, show, order(c.entries), [], ps[i]);
          var e :| e in order(c.entries) && ps[i] == Shown(show, e);
          assert e in c.entries;
          KeyIsCanonical(k, e.key);
          FromIsCanonical(val, e.val, order);
        }
      }
    case TArray(_, b) =>
      forall i | 0 <= i < |c.items| ensures CanonicalBasic(b, FromBasic(b, c.items[i])) {
        BasicIsCanonical(b, c.items[i]);
      }
  }

  lemma {:induction false} BasicIsCanonical(b: Basic, c: CVal)
    requires HasBasicType(b, c)
    ensures CanonicalBasic(b, FromBasic(b, c))
  {
    if b.BInt? { assert FromBasic(b, c) == Integer(c.n) && b.tag.Holds(c.n); }
  }

  lemma {:induction false} KeyIsCanonical(k: Basic, key: CVal)
    requires HasBasicType(k, key) && !key.CNull?
    ensures CanonicalKey(k, FromKey(key))
  {
    if k.BInt? { assert FromKey(key) == Print(key.n) && k.tag.Holds(key.n); }
  }

  lemma {:induction false} SameIsCanonical(ty: GiType, a: JS, b: JS)
    requires Plain(ty) && Canonical(ty, a) && SameJS(a, b)
    ensures Canonical(ty, b)
    decreases ty
  {
    match ty
    case TBasic(_) =>
    case TList(e) =>
      forall i | 0 <= i < |b.elems| ensures Canonical(e, b.elems[i]) { SameIsCanonical(e, a.elems[i], b.elems[i]); }
    case THash(k, val) =>
      if a.Obj? {
        forall j | 0 <= j < |b.props| ensures CanonicalKey(k, b.props[j].key) && Canonical(val, b.props[j].val) {
          assert InFirst(a.props, b.props[j]);
          var i :| 0 <= i < |a.props| && a.props[i].key == b.props[j].key && SameJS(a.props[i].val, b.props[j].val);
          SameIsCanonical(val, a.props[i].val, b.props[j].val);
        }
      }
    case TArray(_, item) =>
      forall i | 0 <= i < |b.elems| ensures CanonicalBasic(item, b.elems[i]) {
        BasicSame(item, a.elems[i], b.elems[i]);
      }
  }

  lemma BasicSame(b: Basic, v: JS, w: JS)
    requires CanonicalBasic(b, v) && SameJS(v, w)
    ensures v == w
  {
  }

  /** The round trip: a converted value reads back as itself, whatever the order tables are visited in, exactly when it
      has canonical form. */
  lemma {:induction false} RoundTrip(num: Readings, ty: GiType, v: JS, nullable: bool, transfer: Transfer, next: nat,
                                     order: seq<Entry> -> seq<Entry>)
    requires Plain(ty) && Shuffles(order) && WellFormed(v)
    requires To(num, ty, v, nullable, transfer, next).Ok?
    ensures SameJS(From(ty, To(num, ty, v, nullable, transfer, next).c, order), v) <==> Canonical(ty, v)
  {
    var c := To(num, ty, v, nullable, transfer, next).c;
    if Canonical(ty, v) {
      Survival(num, ty, v, nullable, transfer, next, order);
    } else if SameJS(From(ty, c, order), v) {
      MarshalMemory.ToHasType(num, ty, v, nullable, transfer, next);
      FromIsCanonical(ty, c, order);
      SameIsCanonical(ty, From(ty, c, order), v);
    }
  }
}
