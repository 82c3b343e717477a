/** Reading C values back respects what they stand for, for every value C may hand over. */
module ReadingMeans {
  import opened Basics
  import opened JsValues
  import opened CValues
  import opened Marshal
  import opened MarshalMemory
  import opened Meaning
  import N = Numeric
  import R = RoundTrip

  /** Keys of a C table are distinct. */
  ghost predicate UniqueKeys(c: CVal)
    decreases c
  {
    match c
    case CList(nodes) => forall i :: 0 <= i < |nodes| ==> UniqueKeys(nodes[i].data)
    case CHash(_, entries) =>
      DistinctKeys(entries) && forall i :: 0 <= i < |entries| ==> UniqueKeys(entries[i].val)
    case _ => true
  }

  lemma BasicReadMeans(num: Readings, b: Basic, c: CVal)
    requires HasBasicType(b, c)
    ensures BasicMeans(num, b, R.FromBasic(b, c), c)
    ensures b.BInt? ==> ItemMeans(num, b, R.FromBasic(b, c), c)
  {
    if b.BInt? {
      N.TruncInteger(c.n);
      assert c.n == c.n + 0 * Modulus(b.tag) == c.n + 0 * b.tag.Size();
    }
  }

  lemma KeyReadMeans(num: Readings, k: Basic, key: CVal)
    requires SmallBasic(k) && HasBasicType(k, key) && !key.CNull?
    ensures KeyMeans(num, k, R.FromKey(key), key)
  {
    if k.BInt? {
      R.PrintedNumber(num, key.n);
      N.TruncInteger(key.n);
      assert key.n == key.n + 0 * k.tag.Size();
    }
  }

  ghost predicate DistinctNames(props: seq<Prop>) {
    forall i, j :: 0 <= i < j < |props| ==> props[i].key != props[j].key
  }

  lemma {:induction false} DefineDistinct(props: seq<Prop>, p: Prop)
    requires DistinctNames(props)
    ensures DistinctNames(R.Define(props, p))
    ensures forall q :: q in R.Define(props, p) ==> q == p || q in props
  {
    if props != [] && props[0].key != p.key {
      DefineDistinct(props[1..], p);
      var rest := R.Define(props[1..], p);
      forall j | 0 <= j < |rest| ensures rest[j].key != props[0].key {
        assert rest[j] in rest;
        if rest[j] != p { var i :| 0 <= i < |props[1..]| && props[1..][i] == rest[j]; }
      }
    }
  }

  lemma {:induction false} NamesDistinct(k: Basic, show: CVal -> JS, entries: seq<Entry>, acc: seq<Prop>)
    requires DistinctNames(acc)
    ensures DistinctNames(R.FromEntries(k, show, entries, acc))
    decreases |entries|
  {
    if entries != [] {
      var p := Prop(R.FromKey(entries[0].key), show(entries[0].val));
      DefineDistinct(acc, p);
      NamesDistinct(k, show, entries[1..], R.Define(acc, p));
    }
  }

  /** Each property read from a table stands for an entry, and the last of its key it is. */
  lemma {:induction false} TableReadMeans(num: Readings, k: Basic, val: GiType, show: CVal -> JS, entries: seq<Entry>,
                                          order: seq<Entry> -> seq<Entry>)
    requires SmallBasic(k) && R.Shuffles(order) && DistinctKeys(entries) && EntriesTyped(k, val, entries)
    requires forall i :: 0 <= i < |entries| ==> Means(num, val, show(entries[i].val), entries[i].val)
    ensures TableMeans(SameName(num, k), Standing(num, k, val), R.FromEntries(k, show, order(entries), []), entries)
  {
    var props, stands := R.FromEntries(k, show, order(entries), []), Standing(num, k, val);
    NamesDistinct(k, show, order(entries), []);
    NamesCorrespond(num, k, val);
    forall a: nat | a < |entries| ensures stands(R.Shown(show, entries[a]), entries[a]) {
      KeyReadMeans(num, k, entries[a].key);
    }
    forall a | 0 <= a < |entries| ensures HasProp(SameName(num, k), stands, props, entries[a]) {
      var i := EntryShown(num, k, val, show, entries, order, a);
      ShownLast(num, k, val, show, entries, order, i, a);
    }
    forall i: nat | LastOf(SameName(num, k), props, i) ensures HasEntry(stands, props[i], entries) {
      var a := ShownEntry(k, show, entries, order, i);
    }
  }

  lemma ShownEntry(k: Basic, show: CVal -> JS, entries: seq<Entry>, order: seq<Entry> -> seq<Entry>, i: nat)
    returns (a: nat)
    requires R.Shuffles(order) && i < |R.FromEntries(k, show, order(entries), [])|
    ensures a < |entries| && R.FromEntries(k, show, order(entries), [])[i] == R.Shown(show, entries[a])
  {
    var p := R.FromEntries(k, show, order(entries), [])[i];
    R.FromEntriesOnly(k, show, order(entries), [], p);
    var e :| e in order(entries) && p == R.Shown(show, e);
    assert e in entries;
    a :| 0 <= a < |entries| && entries[a] == e;
  }

  /** Typed keys with one name are one key. */
  lemma NameOfKey(num: Readings, k: Basic, a: CVal, b: CVal)
    requires SmallBasic(k) && HasBasicType(k, a) && !a.CNull? && HasBasicType(k, b) && !b.CNull?
    ensures R.FromKey(a) == R.FromKey(b) <==> SameKey(a, b)
  {
    if k.BInt? {
      ParsePrint(a.n);
      ParsePrint(b.n);
    }
  }

  lemma EntryShown(num: Readings, k: Basic, val: GiType, show: CVal -> JS, entries: seq<Entry>,
                   order: seq<Entry> -> seq<Entry>, a: nat)
    returns (i: nat)
    requires SmallBasic(k) && R.Shuffles(order) && DistinctKeys(entries) && EntriesTyped(k, val, entries)
    requires a < |entries|
    ensures var props := R.FromEntries(k, show, order(entries), []);
            i < |props| && props[i] == R.Shown(show, entries[a])
  {
    var q := R.Shown(show, entries[a]);
    assert entries[a] in order(entries);
    forall e | e in order(entries) && R.FromKey(e.key) == q.key ensures R.Shown(show, e) == q {
      assert e in entries;
      var b :| 0 <= b < |entries| && entries[b] == e;
      NameOfKey(num, k, entries[a].key, entries[b].key);
      NameOfKey(num, k, entries[b].key, entries[a].key);
    }
    R.FromEntriesKeeps(k, show, order(entries), [], q);
    var props := R.FromEntries(k, show, order(entries), []);
    i :| 0 <= i < |props| && props[i] == q;
  }

  lemma ShownLast(num: Readings, k: Basic, val: GiType, show: CVal -> JS, entries: seq<Entry>,
                  order: seq<Entry> -> seq<Entry>, i: nat, a: nat)
    requires SmallBasic(k) && R.Shuffles(order) && DistinctKeys(entries) && EntriesTyped(k, val, entries)
    requires a < |entries| && i < |R.FromEntries(k, show, order(entries), [])|
    requires R.FromEntries(k, show, order(entries), [])[i] == R.Shown(show, entries[a])
    requires DistinctNames(R.FromEntries(k, show, order(entries), []))
    ensures LastOf(SameName(num, k), R.FromEntries(k, show, order(entries), []), i)
  {
    var props := R.FromEntries(k, show, order(entries), []);
    forall j | i < j < |props| ensures !SameName(num, k)(props[i].key, props[j].key) {
      var b := ShownEntry(k, show, entries, order, j);
      KeyReadMeans(num, k, entries[a].key);
      KeyReadMeans(num, k, entries[b].key);
      KeysCorrespond(num, k, props[i].key, props[j].key, entries[a].key, entries[b].key);
      NameOfKey(num, k, entries[a].key, entries[b].key);
    }
  }

  /** Whatever C value is read back, nulls included, and in whatever order tables are visited, the JS value is one that
      it stands for. */
  lemma {:induction false} FromMeans(num: Readings, ty: GiType, c: CVal, order: seq<Entry> -> seq<Entry>)
    requires R.Plain(ty) && HasType(ty, c) && UniqueKeys(c) && R.Shuffles(order)
    ensures Means(num, ty, R.From(ty, c, order), c)
    decreases ty
  {
    match ty
    case TBasic(b) => BasicReadMeans(num, b, c);
    case TList(e) =>
      if c.CList? {
        forall i | 0 <= i < |c.nodes| ensures Means(num, e, R.Shower(e, order)(c.nodes[i].data), c.nodes[i].data) {
          FromMeans(num, e, c.nodes[i].data, order);
        }
      }
    case THash(k, val) =>
      if c.CHash? {
        var show := R.Shower(val, order);
        forall i | 0 <= i < |c.entries| ensures Means(num, val, show(c.entries[i].val), c.entries[i].val) {
          FromMeans(num, val, c.entries[i].val, order);
        }
        TableReadMeans(num, k, val, show, c.entries, order);
      }
    case TArray(_, b) =>
      if c.CArray? {
        forall i | 0 <= i < |c.items| ensures ItemMeans(num, b, R.FromBasic(b, c.items[i]), c.items[i]) {
          BasicReadMeans(num, b, c.items[i]);
        }
      }
  }
}
