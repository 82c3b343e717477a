/** What it means that a C value stands for a JS value: a definition apart from the marshallers, which conversions
    respect, and exactly when a conversion succeeds. */
module Meaning {
  import opened Basics
  import opened JsValues
  import opened CValues
  import opened Ledger
  import opened Marshal
  import opened MarshalMemory
  import N = Numeric

  // ----- numbers

  /** The integer a JS value stands for when an integer is wanted. */
  function Whole(num: Readings, v: JS): int {
    if v.BigInt? then v.n else Integral(ToNumber(num, v).value)
  }

  /** `n` is the value of the type that is congruent to `m` in as many bits as integers are read with, 32 or 64. */
  ghost predicate Wraps(tag: IntTag, n: int, m: int) {
    tag.Holds(n) && exists k: int :: m == n + k * Modulus(tag)
  }

  function Modulus(tag: IntTag): int { if tag.Small() then 0x1_0000_0000 else 0x1_0000_0000_0000_0000 }

  /** A value is accepted where an integer is wanted: not a BigInt for small types; for those of 8 and 16 bits if its
      ToInt32 is in range, and for uint32 if it is itself. For 64 bits, BigInts and Numbers have to be in range. */
  predicate AcceptedInteger(num: Readings, tag: IntTag, v: JS) {
    if !tag.Small() then v.BigInt? || v.Number? ==> tag.Holds(Whole(num, v))
    else if v.BigInt? then false
    else
      var x := ToNumber(num, v).value;
      match tag
      case I32 => true
      case U32 => v.Undefined? || (v.Number? && !x.Fin?) || (x.Fin? && 0.0 <= x.r <= 4294967295.0)
      case _ => tag.Holds(I32.Cast(Whole(num, v)))
  }

  lemma CastWraps(tag: IntTag, m: int)
    ensures exists k: int :: m == tag.Cast(m) + k * tag.Size()
  {
    if tag.Holds(m) {
      assert m == tag.Cast(m) + 0 * tag.Size();
    } else {
      var k := (m - tag.Min()) / tag.Size();
      assert m == tag.Cast(m) + k * tag.Size();
    }
  }

  lemma SmallMeans(num: Readings, tag: IntTag, v: JS)
    requires tag.Small() && !v.BigInt?
    ensures N.FromJs(num, tag, v).Ok? <==> AcceptedInteger(num, tag, v)
    ensures N.FromJs(num, tag, v).Ok? ==>
              N.FromJs(num, tag, v).n == if tag.U32? then Whole(num, v) else I32.Cast(Whole(num, v))
  {
    N.HeldInteger(ToNumber(num, v).value);
  }

  /** Exactly the accepted values are converted, and to the number congruent to theirs. */
  lemma IntegerMeans(num: Readings, tag: IntTag, v: JS)
    ensures N.FromJs(num, tag, v).Ok? <==> AcceptedInteger(num, tag, v)
    ensures N.FromJs(num, tag, v).Ok? ==> Wraps(tag, N.FromJs(num, tag, v).n, Whole(num, v))
  {
    var m := Whole(num, v);
    assert m == m + 0 * Modulus(tag);
    CastWraps(if tag.Small() then I32 else tag, m);
    if tag.Small() && !v.BigInt? { SmallMeans(num, tag, v); }
    if N.FromJs(num, tag, v).Ok? { N.AcceptedFits(num, tag, v); }
  }

  /** In particular numbers in range are held as they are. */
  lemma WrapsInRange(tag: IntTag, n: int, m: int)
    requires Wraps(tag, n, m) && tag.Holds(m)
    ensures n == m
  {
    var k: int :| m == n + k * Modulus(tag);
  }

  // ----- meaning

  ghost predicate BasicMeans(num: Readings, b: Basic, v: JS, c: CVal) {
    match b
    case BStr => (v.Null? && c.CNull?) || (v.Str? && c.CStr? && c.text == CText(v.s))
    case BInt(tag) => c.CInt? && Wraps(tag, c.n, Whole(num, v))
  }

  /** A number in a block of its own. */
  ghost predicate WideMeans(num: Readings, w: Wide, v: JS, x: Num) {
    match w
    case WInt(tag) => exists n: int :: x == Fin(n as real) && Wraps(tag, n, Whole(num, v))
    case _ => ToNumber(num, v) == Some(x)
  }

  /** Items of arrays are cast to their type, without a check of their range. */
  ghost predicate ItemMeans(num: Readings, b: Basic, v: JS, c: CVal) {
    match b
    case BStr => BasicMeans(num, BStr, v, c)
    case BInt(tag) =>
      !v.BigInt? && c.CInt? && tag.Holds(c.n) && exists k: int :: Whole(num, v) == c.n + k * tag.Size()
  }

  ghost predicate ItemsMean(num: Readings, b: Basic, elems: seq<JS>, items: seq<CVal>) {
    |items| == |elems| && forall i :: 0 <= i < |elems| ==> ItemMeans(num, b, elems[i], items[i])
  }

  /** The table key that a property name stands for; of equal ones the last property counts. */
  ghost predicate KeyMeans(num: Readings, k: Basic, name: string, key: CVal) {
    match k
    case BStr => key.CStr? && key.text == CText(name)
    case BInt(tag) => key.CInt? && tag.Holds(key.n) && exists q: int :: Whole(num, Str(name)) == key.n + q * tag.Size()
  }

  /** Two property names stand for one key. */
  function SameName(num: Readings, k: Basic): (string, string) -> bool {
    (a: string, b: string) => SameKey(ToKey(num, k, a, 0), ToKey(num, k, b, 0))
  }

  ghost predicate LastOf(same: (string, string) -> bool, props: seq<Prop>, i: nat) {
    i < |props| && forall j :: i < j < |props| ==> !same(props[i].key, props[j].key)
  }

  ghost predicate HasProp(same: (string, string) -> bool, stands: (Prop, Entry) -> bool, props: seq<Prop>, e: Entry) {
    exists i: nat :: LastOf(same, props, i) && stands(props[i], e)
  }

  ghost predicate HasEntry(stands: (Prop, Entry) -> bool, p: Prop, entries: seq<Entry>) {
    exists a :: 0 <= a < |entries| && stands(p, entries[a])
  }

  predicate DistinctKeys(entries: seq<Entry>) {
    forall a, b :: 0 <= a < b < |entries| ==> !SameKey(entries[a].key, entries[b].key)
  }

  /** The entries stand, one for one, for the properties that are the last of their key. */
  ghost predicate TableMeans(same: (string, string) -> bool, stands: (Prop, Entry) -> bool, props: seq<Prop>,
                             entries: seq<Entry>) {
    && DistinctKeys(entries)
    && (forall a {:trigger HasProp(same, stands, props, entries[a])} ::
          0 <= a < |entries| ==> HasProp(same, stands, props, entries[a]))
    && (forall i: nat {:trigger HasEntry(stands, props[i], entries)} ::
          LastOf(same, props, i) ==> HasEntry(stands, props[i], entries))
  }

  /** C value `c`, of this type, stands for JS value `v`. The empty list is the null pointer; an array converted from
      null is empty. */
  ghost predicate Means(num: Readings, ty: GiType, v: JS, c: CVal)
    decreases ty, 0
  {
    match ty
    case TBasic(b) => BasicMeans(num, b, v, c)
    case TWide(w) => c.CWide? && WideMeans(num, w, v, c.held)
    case TList(e) =>
      && v.Arr? && (c.CList? || (c.CNull? && v.elems == []))
      && (c.CList? ==>
            |c.nodes| == |v.elems| && forall i :: 0 <= i < |v.elems| ==> Means(num, e, v.elems[i], c.nodes[i].data))
    case THash(k, val) =>
      if c.CNull? then v.Null?
      else c.CHash? && (v.Obj? || v.Arr?) && TableMeans(SameName(num, k), Standing(num, k, val), Props(v), c.entries)
    case TArray(_, b) =>
      if v.Null? then c.CNull? || (c.CArray? && c.items == [])
      else v.Arr? && c.CArray? && ItemsMean(num, b, v.elems, c.items)
  }

  /** A table entry stands for a property. */
  ghost function Standing(num: Readings, k: Basic, val: GiType): (Prop, Entry) -> bool
    decreases val, 1
  {
    (p: Prop, e: Entry) => KeyMeans(num, k, p.key, e.key) && Means(num, val, p.val, e.val)
  }

  // ----- which values are converted

  /** A value is converted, independently of what it holds in cells and of how long it is, exactly if this holds. */
  predicate Convertible(num: Readings, ty: GiType, v: JS, nullable: bool, transfer: Transfer)
    decreases ty, 0
  {
    match ty
    case TBasic(b) => if b.BStr? then v.Str? || (v.Null? && nullable) else AcceptedInteger(num, b.tag, v)
    case TWide(w) => AcceptedWide(num, w, v)
    case TList(e) =>
      && v.Arr? && (transfer.Container? ==> e.TBasic? || !NeedsRelease(e))
      && AllElems(Accepts(num, e, false, ElementTransfer(transfer)), v.elems)
    case THash(k, val) =>
      if v.Null? then nullable
      else
        && (v.Obj? || v.Arr?) && (transfer.Container? ==> !IsString(k) && !NeedsRelease(val))
        && AllProps(k, Accepts(num, val, true, ElementTransfer(transfer)), Props(v))
    case TArray(_, b) => if v.Null? then nullable else v.Arr? && AllElems(AcceptedItem(b), v.elems)
  }

  function AcceptedItem(b: Basic): JS -> bool {
    (v: JS) => if b.BStr? then v.Str? || v.Null? else !v.BigInt?
  }

  function Accepts(num: Readings, ty: GiType, nullable: bool, transfer: Transfer): JS -> bool
    decreases ty, 1
  {
    (v: JS) => Convertible(num, ty, v, nullable, transfer)
  }

  predicate AllElems(accepts: JS -> bool, elems: seq<JS>) {
    elems == [] || (accepts(elems[0]) && AllElems(accepts, elems[1..]))
  }

  predicate AllProps(k: Basic, accepts: JS -> bool, props: seq<Prop>) {
    props == [] || (SupportedKey(k) && accepts(props[0].val) && AllProps(k, accepts, props[1..]))
  }

  /** Finite numbers beyond the range of float are refused, NaN and the infinities are not. */
  predicate AcceptedWide(num: Readings, w: Wide, v: JS) {
    match w
    case WInt(tag) => AcceptedInteger(num, tag, v)
    case WDouble => !v.BigInt?
    case WFloat =>
      !v.BigInt? && (ToNumber(num, v).value.Fin? ==> -FLT_MAX <= ToNumber(num, v).value.r <= FLT_MAX)
  }

  // ----- keys

  lemma ToKeyMeans(num: Readings, k: Basic, name: string, next: nat)
    ensures KeyMeans(num, k, name, ToKey(num, k, name, next))
  {
    if k.BInt? { CastWraps(k.tag, Whole(num, Str(name))); }
  }

  lemma CongruentOnce(tag: IntTag, a: int, b: int, k: int)
    requires tag.Holds(a) && tag.Holds(b) && a == b + k * tag.Size()
    ensures a == b
  {
  }

  /** A name stands for one key. */
  lemma KeyUnique(num: Readings, k: Basic, name: string, key: CVal)
    requires KeyMeans(num, k, name, key)
    ensures SameKey(key, ToKey(num, k, name, 0))
  {
    if k.BInt? {
      ToKeyMeans(num, k, name, 0);
      var q: int :| Whole(num, Str(name)) == key.n + q * k.tag.Size();
      var q': int :| Whole(num, Str(name)) == ToKey(num, k, name, 0).n + q' * k.tag.Size();
      assert q * k.tag.Size() - q' * k.tag.Size() == (q - q') * k.tag.Size();
      CongruentOnce(k.tag, ToKey(num, k, name, 0).n, key.n, q - q');
    }
  }

  /** Names and keys correspond: what the lemmas about tables need to know of them. */
  ghost predicate Corresponds(same: (string, string) -> bool, stands: (Prop, Entry) -> bool) {
    && (forall p: Prop, q: Prop, e: Entry, f: Entry {:trigger stands(p, e), stands(q, f)} ::
          stands(p, e) && stands(q, f) ==> (SameKey(e.key, f.key) <==> same(p.key, q.key)))
    && (forall p: Prop, e: Entry, f: Entry {:trigger stands(p, Entry(f.key, e.val))} ::
          stands(p, e) && SameKey(f.key, e.key) ==> stands(p, Entry(f.key, e.val)))
  }

  lemma KeysCorrespond(num: Readings, k: Basic, a: string, b: string, ka: CVal, kb: CVal)
    requires KeyMeans(num, k, a, ka) && KeyMeans(num, k, b, kb)
    ensures SameKey(ka, kb) <==> SameName(num, k)(a, b)
  {
    KeyUnique(num, k, a, ka);
    KeyUnique(num, k, b, kb);
  }

  lemma KeyTaken(num: Readings, k: Basic, a: string, ka: CVal, kb: CVal)
    requires KeyMeans(num, k, a, ka) && SameKey(kb, ka)
    ensures KeyMeans(num, k, a, kb)
  {
  }

  lemma NamesCorrespond(num: Readings, k: Basic, val: GiType)
    ensures Corresponds(SameName(num, k), Standing(num, k, val))
  {
    var same, stands := SameName(num, k), Standing(num, k, val);
    forall p: Prop, q: Prop, e: Entry, f: Entry | stands(p, e) && stands(q, f)
      ensures SameKey(e.key, f.key) <==> same(p.key, q.key)
    {
      KeysCorrespond(num, k, p.key, q.key, e.key, f.key);
    }
    forall p: Prop, e: Entry, f: Entry | stands(p, e) && SameKey(f.key, e.key) ensures stands(p, Entry(f.key, e.val)) {
      KeyTaken(num, k, p.key, e.key, f.key);
    }
  }

  // ----- tables

  lemma LastOfMore(same: (string, string) -> bool, props: seq<Prop>, p: Prop, i: nat)
    requires i < |props|
    ensures LastOf(same, props + [p], i) <==> LastOf(same, props, i) && !same(props[i].key, p.key)
  {
    var more := props + [p];
    assert more[i] == props[i] && more[|props|] == p;
    assert forall j :: 0 <= j < |props| ==> more[j] == props[j];
    if LastOf(same, more, i) {
      forall j | i < j < |props| ensures !same(props[i].key, props[j].key) {
        assert !same(more[i].key, more[j].key);
      }
    }
  }

  /** Only entry `at`, if any, has the key of property `p`. */
  ghost predicate OnlyAt(same: (string, string) -> bool, stands: (Prop, Entry) -> bool, props: seq<Prop>,
                         entries: seq<Entry>, p: Prop, at: Option<nat>) {
    forall i, a | 0 <= i < |props| && 0 <= a < |entries| && stands(props[i], entries[a]) ::
      same(props[i].key, p.key) <==> at == Some(a)
  }

  lemma KeyOnlyAt(same: (string, string) -> bool, stands: (Prop, Entry) -> bool, props: seq<Prop>,
                  entries: seq<Entry>, p: Prop, e: Entry, at: Option<nat>)
    requires Corresponds(same, stands) && stands(p, e)
    requires forall a: nat :: a < |entries| ==> (SameKey(entries[a].key, e.key) <==> at == Some(a))
    ensures OnlyAt(same, stands, props, entries, p, at)
  {
  }

  /** A property with a key that is not in the table extends it. */
  lemma {:induction false} TableExtended(same: (string, string) -> bool, stands: (Prop, Entry) -> bool,
                                         props: seq<Prop>, entries: seq<Entry>, p: Prop, e: Entry)
    requires TableMeans(same, stands, props, entries) && stands(p, e)
    requires OnlyAt(same, stands, props, entries, p, None)
    requires forall a :: 0 <= a < |entries| ==> !SameKey(entries[a].key, e.key)
    ensures TableMeans(same, stands, props + [p], entries + [e])
  {
    var more, extended := props + [p], entries + [e];
    forall a | 0 <= a < |extended| ensures HasProp(same, stands, more, extended[a]) {
      if a < |entries| {
        assert HasProp(same, stands, props, entries[a]);
        var i: nat :| LastOf(same, props, i) && stands(props[i], entries[a]);
        LastOfMore(same, props, p, i);
        assert more[i] == props[i];
      } else {
        assert LastOf(same, more, |props|) && more[|props|] == p;
      }
    }
    forall i: nat | LastOf(same, more, i) ensures HasEntry(stands, more[i], extended) {
      if i < |props| {
        LastOfMore(same, props, p, i);
        assert HasEntry(stands, props[i], entries);
        var a :| 0 <= a < |entries| && stands(props[i], entries[a]);
        assert extended[a] == entries[a];
      } else {
        assert extended[|entries|] == e;
      }
    }
  }

  lemma {:induction false} ReplacedHasProp(same: (string, string) -> bool, stands: (Prop, Entry) -> bool,
                                           props: seq<Prop>, entries: seq<Entry>, p: Prop, e: Entry, at: nat, a: nat)
    requires TableMeans(same, stands, props, entries) && stands(p, e)
    requires at < |entries| && OnlyAt(same, stands, props, entries, p, Some(at)) && a < |entries|
    ensures HasProp(same, stands, props + [p], if a == at then e else entries[a])
  {
    var more := props + [p];
    if a == at {
      assert LastOf(same, more, |props|) && more[|props|] == p;
    } else {
      assert HasProp(same, stands, props, entries[a]);
      var i: nat :| LastOf(same, props, i) && stands(props[i], entries[a]);
      LastOfMore(same, props, p, i);
      assert more[i] == props[i];
    }
  }

  lemma {:induction false} ReplacedHasEntry(same: (string, string) -> bool, stands: (Prop, Entry) -> bool,
                                            props: seq<Prop>, entries: seq<Entry>, p: Prop, e: Entry, at: nat, i: nat)
    requires TableMeans(same, stands, props, entries) && stands(p, e)
    requires at < |entries| && OnlyAt(same, stands, props, entries, p, Some(at)) && LastOf(same, props + [p], i)
    ensures HasEntry(stands, (props + [p])[i], entries[at := e])
  {
    var more, replaced := props + [p], entries[at := e];
    if i < |props| {
      LastOfMore(same, props, p, i);
      assert HasEntry(stands, props[i], entries);
      var a :| 0 <= a < |entries| && stands(props[i], entries[a]);
      assert replaced[a] == entries[a];
    } else {
      assert replaced[at] == e;
    }
  }

  /** A property with a key that is in the table takes its entry over. */
  lemma {:induction false} TableReplaced(same: (string, string) -> bool, stands: (Prop, Entry) -> bool,
                                         props: seq<Prop>, entries: seq<Entry>, p: Prop, e: Entry, at: nat)
    requires TableMeans(same, stands, props, entries) && stands(p, e)
    requires at < |entries| && entries[at].key == e.key && OnlyAt(same, stands, props, entries, p, Some(at))
    ensures TableMeans(same, stands, props + [p], entries[at := e])
  {
    var more, replaced := props + [p], entries[at := e];
    forall a | 0 <= a < |replaced| ensures HasProp(same, stands, more, replaced[a]) {
      ReplacedHasProp(same, stands, props, entries, p, e, at, a);
    }
    forall i: nat | LastOf(same, more, i) ensures HasEntry(stands, more[i], replaced) {
      ReplacedHasEntry(same, stands, props, entries, p, e, at, i);
    }
  }

  lemma {:induction false} InsertMeans(same: (string, string) -> bool, stands: (Prop, Entry) -> bool, props: seq<Prop>,
                                       entries: seq<Entry>, p: Prop, e: Entry)
    requires Corresponds(same, stands) && TableMeans(same, stands, props, entries) && stands(p, e)
    ensures TableMeans(same, stands, props + [p], Insert(entries, e))
  {
    FindNone(entries, e.key);
    InsertAt(entries, e);
    var at := FindKey(entries, e.key);
    KeyOnlyAt(same, stands, props, entries, p, e, at);
    if at.None? {
      TableExtended(same, stands, props, entries, p, e);
    } else {
      var taken := Entry(entries[at.value].key, e.val);
      assert stands(p, taken);
      TableReplaced(same, stands, props, entries, p, taken, at.value);
    }
  }

  // ----- converted values mean what they were converted from

  /** What a conversion gives means what it was given. */
  ghost predicate Faithful(conv: (JS, nat) -> Marshalled, means: (JS, CVal) -> bool) {
    forall v: JS, next: nat :: conv(v, next).Ok? ==> means(v, conv(v, next).c)
  }

  /** It succeeds for just these values. */
  ghost predicate Decided(conv: (JS, nat) -> Marshalled, accepts: JS -> bool) {
    forall v: JS, next: nat :: conv(v, next).Ok? <==> accepts(v)
  }

  ghost function Meant(num: Readings, ty: GiType): (JS, CVal) -> bool {
    (v: JS, c: CVal) => Means(num, ty, v, c)
  }

  lemma {:induction false} BasicConverts(num: Readings, b: Basic, v: JS, nullable: bool, next: nat)
    ensures var r := ToBasic(num, b, v, nullable, next);
            && (r.Ok? <==> Convertible(num, TBasic(b), v, nullable, Nothing))
            && (r.Ok? ==> BasicMeans(num, b, v, r.c))
  {
    if b.BInt? { IntegerMeans(num, b.tag, v); }
  }

  lemma {:induction false} WideConverts(num: Readings, w: Wide, v: JS)
    ensures var x := WideFromJs(num, w, v);
            (x.Some? <==> AcceptedWide(num, w, v)) && (x.Some? ==> WideMeans(num, w, v, x.value))
  {
    if w.WInt? { IntegerMeans(num, w.tag, v); }
  }

  lemma {:induction false} ItemConverts(num: Readings, b: Basic, v: JS, next: nat)
    ensures var r := ToItem(num, b, v, next);
            && (r.Ok? <==> AcceptedItem(b)(v))
            && (r.Ok? ==> ItemMeans(num, b, v, r.c))
  {
    if b.BInt? { CastWraps(b.tag, Whole(num, v)); }
  }

  ghost predicate NodesMean(means: (JS, CVal) -> bool, elems: seq<JS>, nodes: seq<Node>) {
    |nodes| == |elems| && forall i :: 0 <= i < |elems| ==> means(elems[i], nodes[i].data)
  }

  lemma {:induction false} NodesConvert(conv: (JS, nat) -> Marshalled, means: (JS, CVal) -> bool, accepts: JS -> bool,
                                        elems: seq<JS>, acc: seq<Node>, next: nat, done: seq<JS>)
    requires Faithful(conv, means) && Decided(conv, accepts) && NodesMean(means, done, acc)
    ensures var r := ToNodes(conv, elems, acc, next);
            && (r.Ok? <==> AllElems(accepts, elems))
            && (r.Ok? ==> r.c.CList? && NodesMean(means, done + elems, r.c.nodes))
    decreases |elems|
  {
    if elems == [] {
      assert done + elems == done;
    } else {
      var r, rest := conv(elems[0], next), elems[1..];
      if r.Ok? {
        NodesConvert(conv, means, accepts, rest, acc + [Node(r.next, r.c)], r.next + 1, done + [elems[0]]);
        assert (done + [elems[0]]) + rest == done + elems;
      }
    }
  }

  /** Entries made of converted keys and values stand for their properties. */
  ghost predicate Makes(num: Readings, k: Basic, means: (JS, CVal) -> bool, stands: (Prop, Entry) -> bool) {
    forall p: Prop, next: nat, c: CVal {:trigger stands(p, Entry(ToKey(num, k, p.key, next), c))} ::
      means(p.val, c) ==> stands(p, Entry(ToKey(num, k, p.key, next), c))
  }

  lemma StandingMakes(num: Readings, k: Basic, val: GiType)
    ensures Makes(num, k, Meant(num, val), Standing(num, k, val))
  {
    forall p: Prop, next: nat, c: CVal | Meant(num, val)(p.val, c)
      ensures Standing(num, k, val)(p, Entry(ToKey(num, k, p.key, next), c))
    {
      ToKeyMeans(num, k, p.key, next);
    }
  }

  lemma {:induction false} EntriesSucceed(k: Basic, conv: (JS, nat) -> Marshalled, accepts: JS -> bool,
                                          props: seq<Prop>, next: nat)
    requires Decided(conv, accepts)
    ensures EntriesOk(k, conv, props, next) <==> AllProps(k, accepts, props)
    decreases |props|
  {
    if props != [] && conv(props[0].val, next + KeyCells(k)).Ok? {
      EntriesSucceed(k, conv, accepts, props[1..], conv(props[0].val, next + KeyCells(k)).next);
    }
  }

  lemma {:induction false} EntriesConvert(num: Readings, k: Basic, conv: (JS, nat) -> Marshalled,
                                          means: (JS, CVal) -> bool, same: (string, string) -> bool,
                                          stands: (Prop, Entry) -> bool, props: seq<Prop>, table: nat,
                                          acc: seq<Entry>, next: nat, done: seq<Prop>)
    requires Faithful(conv, means) && Corresponds(same, stands) && Makes(num, k, means, stands)
    requires TableMeans(same, stands, done, acc) && ToEntries(num, k, conv, props, table, acc, next).Ok?
    ensures var c := ToEntries(num, k, conv, props, table, acc, next).c;
            c.CHash? && TableMeans(same, stands, done + props, c.entries)
    decreases |props|
  {
    if props == [] {
      assert done + props == done;
    } else {
      var r, p, rest := conv(props[0].val, next + KeyCells(k)), props[0], props[1..];
      var e := Entry(ToKey(num, k, p.key, next), r.c);
      assert stands(p, e);
      InsertMeans(same, stands, done, acc, p, e);
      EntriesConvert(num, k, conv, means, same, stands, rest, table, Insert(acc, e), r.next, done + [p]);
      assert (done + [p]) + rest == done + props;
    }
  }

  lemma {:induction false} ItemsConvert(num: Readings, b: Basic, elems: seq<JS>, acc: seq<CVal>, next: nat, buffer: nat,
                                        done: seq<JS>)
    requires ItemsMean(num, b, done, acc)
    ensures var r := ToItems(num, b, elems, acc, next, buffer);
            && (r.Ok? <==> AllElems(AcceptedItem(b), elems))
            && (r.Ok? ==> r.c.CArray? && ItemsMean(num, b, done + elems, r.c.items))
    decreases |elems|
  {
    if elems == [] {
      assert done + elems == done;
    } else {
      var r, rest := ToItem(num, b, elems[0], next), elems[1..];
      ItemConverts(num, b, elems[0], next);
      if r.Ok? {
        ItemsConvert(num, b, rest, acc + [r.c], r.next, buffer, done + [elems[0]]);
        assert (done + [elems[0]]) + rest == done + elems;
      }
    }
  }

  /** A conversion succeeds exactly for the convertible values, and the C value means the JS value; at every depth. */
  lemma {:induction false} ToMeans(num: Readings, ty: GiType, v: JS, nullable: bool, transfer: Transfer, next: nat)
    ensures var r := To(num, ty, v, nullable, transfer, next);
            && (r.Ok? <==> Convertible(num, ty, v, nullable, transfer))
            && (r.Ok? ==> Means(num, ty, v, r.c))
    decreases ty, 0
  {
    match ty
    case TBasic(b) => BasicConverts(num, b, v, nullable, next);
    case TWide(w) => WideConverts(num, w, v);
    case TList(e) => ListConverts(num, e, v, nullable, transfer, next);
    case THash(k, val) => TableConverts(num, k, val, v, nullable, transfer, next);
    case TArray(_, b) =>
      if v.Arr? {
        ItemsConvert(num, b, v.elems, [], next + 1, next, []);
        EmptyPrefix(v.elems);
      }
  }

  lemma {:induction false} ConverterFaithful(num: Readings, ty: GiType, nullable: bool, transfer: Transfer)
    ensures Faithful(Converter(num, ty, nullable, transfer), Meant(num, ty))
    ensures Decided(Converter(num, ty, nullable, transfer), Accepts(num, ty, nullable, transfer))
    decreases ty, 1
  {
    var conv, means := Converter(num, ty, nullable, transfer), Meant(num, ty);
    forall v: JS, next: nat
      ensures conv(v, next).Ok? <==> Accepts(num, ty, nullable, transfer)(v)
      ensures conv(v, next).Ok? ==> means(v, conv(v, next).c)
    {
      ToMeans(num, ty, v, nullable, transfer, next);
    }
  }

  lemma {:induction false} ListConverts(num: Readings, e: GiType, v: JS, nullable: bool, transfer: Transfer, next: nat)
    ensures var r := To(num, TList(e), v, nullable, transfer, next);
            && (r.Ok? <==> Convertible(num, TList(e), v, nullable, transfer))
            && (r.Ok? ==> Means(num, TList(e), v, r.c))
    decreases e, 2
  {
    if v.Arr? {
      var t := ElementTransfer(transfer);
      ConverterFaithful(num, e, false, t);
      NodesConvert(Converter(num, e, false, t), Meant(num, e), Accepts(num, e, false, t), v.elems, [], next, []);
      EmptyPrefix(v.elems);
    }
  }

  lemma {:induction false} TableConverts(num: Readings, k: Basic, val: GiType, v: JS, nullable: bool,
                                         transfer: Transfer, next: nat)
    ensures var r := To(num, THash(k, val), v, nullable, transfer, next);
            && (r.Ok? <==> Convertible(num, THash(k, val), v, nullable, transfer))
            && (r.Ok? ==> Means(num, THash(k, val), v, r.c))
    decreases val, 2
  {
    if v.Obj? || v.Arr? {
      var t := ElementTransfer(transfer);
      ConverterFaithful(num, val, true, t);
      NamesCorrespond(num, k, val);
      StandingMakes(num, k, val);
      TableConvertsWith(num, k, Converter(num, val, true, t), Meant(num, val), Accepts(num, val, true, t),
                        SameName(num, k), Standing(num, k, val), Props(v), next, next + 1);
    }
  }

  lemma {:induction false} TableConvertsWith(num: Readings, k: Basic, conv: (JS, nat) -> Marshalled,
                                             means: (JS, CVal) -> bool, accepts: JS -> bool,
                                             same: (string, string) -> bool, stands: (Prop, Entry) -> bool,
                                             props: seq<Prop>, table: nat, next: nat)
    requires Faithful(conv, means) && Decided(conv, accepts)
    requires Corresponds(same, stands) && Makes(num, k, means, stands)
    ensures var r := ToEntries(num, k, conv, props, table, [], next);
            && (r.Ok? <==> AllProps(k, accepts, props))
            && (r.Ok? ==> r.c.CHash? && TableMeans(same, stands, props, r.c.entries))
  {
    EntriesSucceed(k, conv, accepts, props, next);
    if ToEntries(num, k, conv, props, table, [], next).Ok? {
      EntriesConvert(num, k, conv, means, same, stands, props, table, [], next, []);
      EmptyPrefix(props);
    }
  }

  // ----- what that says of numbers in blocks of their own

  /** Every Number is held as it is where a double is wanted, and where a float is, unless it is finite and beyond the
      range of float. BigInts in range are held exactly where a 64-bit integer is wanted, and others are refused. */
  lemma WideHolds(num: Readings, x: Num, n: int, tag: IntTag, nullable: bool, transfer: Transfer, next: nat)
    requires !tag.Small()
    ensures To(num, TWide(WDouble), Number(x), nullable, transfer, next) == Ok(CWide(next, x), next + 1, Empty, Empty)
    ensures To(num, TWide(WFloat), Number(x), nullable, transfer, next) ==
            if x.Fin? && !(-FLT_MAX <= x.r <= FLT_MAX) then Err else Ok(CWide(next, x), next + 1, Empty, Empty)
    ensures To(num, TWide(WInt(tag)), BigInt(n), nullable, transfer, next) ==
            if tag.Holds(n) then Ok(CWide(next, Fin(n as real)), next + 1, Empty, Empty) else Err
    ensures var r := To(num, TWide(WInt(tag)), Integer(n), nullable, transfer, next);
            tag.Holds(n) ==> r == Ok(CWide(next, Fin(n as real)), next + 1, Empty, Empty)
  {
    N.TruncInteger(n);
  }

  /** In a table of numbers, the entry under a name's key holds the number of the last property with that key. */
  lemma {:induction false} LastNumberHeld(num: Readings, k: Basic, w: Wide, props: seq<Prop>, i: nat, nullable: bool,
                                          transfer: Transfer, next: nat)
    requires To(num, THash(k, TWide(w)), Obj(props), nullable, transfer, next).Ok?
    requires LastOf(SameName(num, k), props, i)
    ensures var c := To(num, THash(k, TWide(w)), Obj(props), nullable, transfer, next).c;
            c.CHash? && exists a :: 0 <= a < |c.entries| && HoldsNumber(num, k, w, props[i], c.entries[a])
  {
    ToMeans(num, THash(k, TWide(w)), Obj(props), nullable, transfer, next);
    var c := To(num, THash(k, TWide(w)), Obj(props), nullable, transfer, next).c;
    var stands := Standing(num, k, TWide(w));
    TableConverts(num, k, TWide(w), Obj(props), nullable, transfer, next);
    assert HasEntry(stands, props[i], c.entries);
    var a :| 0 <= a < |c.entries| && stands(props[i], c.entries[a]);
    assert Means(num, TWide(w), props[i].val, c.entries[a].val);
    assert HoldsNumber(num, k, w, props[i], c.entries[a]);
  }

  ghost predicate HoldsNumber(num: Readings, k: Basic, w: Wide, p: Prop, e: Entry) {
    KeyMeans(num, k, p.key, e.key) && e.val.CWide? && WideMeans(num, w, p.val, e.val.held)
  }

  /** A number in a double holds just the Number given, and a BigInt in a 64-bit integer itself. */
  lemma WideMeansNumber(num: Readings, w: Wide, v: JS, x: Num)
    requires WideMeans(num, w, v, x)
    ensures !w.WInt? && v.Number? ==> x == v.x
    ensures w.WInt? && v.BigInt? && w.tag.Holds(v.n) ==> x == Fin(v.n as real)
  {
    if w.WInt? && v.BigInt? && w.tag.Holds(v.n) {
      var n: int :| x == Fin(n as real) && Wraps(w.tag, n, v.n);
      WrapsInRange(w.tag, n, v.n);
    }
  }
}
