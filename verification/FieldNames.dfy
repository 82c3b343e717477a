/** Names of boxed fields in JS (gi/boxed.cpp): methods have priority, so a field whose name is taken is mangled with
    leading underscores; the field cache is keyed by mangled names. */
module FieldNames {
  import opened Basics

  function Underscores(k: nat): (s: string)
    ensures |s| == k
  {
    if k == 0 then "" else "_" + Underscores(k - 1)
  }

  /** The methods that are at least as long as a name: each underscore leaves one behind. */
  function NotShorter(methods: set<string>, n: nat): set<string> {
    set m | m in methods && |m| >= n
  }

  lemma LongerNames(methods: set<string>, name: string)
    requires name in methods
    ensures |NotShorter(methods, |name| + 1)| < |NotShorter(methods, |name|)|
  {
    var some, fewer := NotShorter(methods, |name|), NotShorter(methods, |name| + 1);
    assert fewer <= some - {name};
    SubsetSize(fewer, some - {name});
  }

  lemma {:induction false} SubsetSize(a: set<string>, b: set<string>)
    requires a <= b
    ensures |a| <= |b|
  {
    if x :| x in a { SubsetSize(a - {x}, b - {x}); }
  }

  /** The name a field has in JS. */
  function Mangled(methods: set<string>, name: string): string
    decreases |NotShorter(methods, |name|)|
  {
    if name in methods then
      LongerNames(methods, name);
      Mangled(methods, "_" + name)
    else name
  }

  /** find_unique_js_field_name */
  method FindUniqueJsFieldName(methods: set<string>, name: string) returns (js: string)
    ensures js == Mangled(methods, name)
  {
    js := name;
    while js in methods
      invariant Mangled(methods, js) == Mangled(methods, name)
      decreases |NotShorter(methods, |js|)|
    {
      LongerNames(methods, js);
      js := "_" + js;
    }
  }

  lemma UnderscoreFirst(k: nat, name: string)
    ensures Underscores(k) + ("_" + name) == Underscores(k + 1) + name
  {
    if k > 0 { UnderscoreFirst(k - 1, name); }
    var a := Underscores(k) + ("_" + name);
    assert a[1..] == if k == 0 then name else Underscores(k - 1) + ("_" + name);
    assert a == "_" + a[1..];
    assert "_" + (Underscores(k) + name) == Underscores(k + 1) + name;
  }

  /** The mangled name avoids every method, and is the field's name with the fewest underscores that does. */
  lemma {:induction false} MangledIsMinimal(methods: set<string>, name: string) returns (k: nat)
    ensures Mangled(methods, name) == Underscores(k) + name && Mangled(methods, name) !in methods
    ensures forall j :: 0 <= j < k ==> Underscores(j) + name in methods
    decreases |NotShorter(methods, |name|)|
  {
    assert Underscores(0) + name == name;
    if name in methods {
      LongerNames(methods, name);
      var rest := MangledIsMinimal(methods, "_" + name);
      k := rest + 1;
      UnderscoreFirst(rest, name);
      forall j | 0 <= j < k ensures Underscores(j) + name in methods {
        if j > 0 { UnderscoreFirst(j - 1, name); }
      }
    } else {
      k := 0;
    }
  }

  /** A name that is free is not mangled any further. */
  lemma MangledOnce(methods: set<string>, name: string)
    ensures Mangled(methods, Mangled(methods, name)) == Mangled(methods, name)
  {
    var k := MangledIsMinimal(methods, name);
  }

  // ----- the field cache

  predicate DistinctInJs(methods: set<string>, fields: seq<string>) {
    forall i, j :: 0 <= i < j < |fields| ==> Mangled(methods, fields[i]) != Mangled(methods, fields[j])
  }

  predicate Named(methods: set<string>, fields: seq<string>, js: string, i: nat) {
    i < |fields| && Mangled(methods, fields[i]) == js
  }

  /** A field cache: under each JS name, some field of that name. Which one it is where names clash depends on the
      hash table, whose putNewInfallible presupposes that the key is new. */
  ghost predicate Caches(methods: set<string>, fields: seq<string>, m: map<string, nat>) {
    && (forall js :: js in m ==> Named(methods, fields, js, m[js]))
    && (forall i :: 0 <= i < |fields| ==> Mangled(methods, fields[i]) in m)
  }

  /** create_field_map; `presupposed` is false if a key was not new. */
  method CreateFieldMap(methods: set<string>, fields: seq<string>) returns (m: map<string, nat>, presupposed: bool)
    ensures Caches(methods, fields, m)
    ensures presupposed <==> DistinctInJs(methods, fields)
  {
    m, presupposed := map[], true;
    var i := 0;
    while i < |fields|
      invariant 0 <= i <= |fields|
      invariant forall js :: js in m ==> m[js] < i && Named(methods, fields, js, m[js])
      invariant forall j :: 0 <= j < i ==> Mangled(methods, fields[j]) in m
      invariant presupposed <==> DistinctInJs(methods, fields[..i])
    {
      var js := FindUniqueJsFieldName(methods, fields[i]);
      NextDistinct(methods, fields, i);
      if js in m { presupposed := false; }
      m := m[js := i];
      i := i + 1;
    }
    assert fields[..i] == fields;
  }

  lemma NextDistinct(methods: set<string>, fields: seq<string>, i: nat)
    requires i < |fields|
    ensures DistinctInJs(methods, fields[..i + 1])
       <==> DistinctInJs(methods, fields[..i])
            && forall j :: 0 <= j < i ==> Mangled(methods, fields[j]) != Mangled(methods, fields[i])
  {
    assert forall j :: 0 <= j < i ==> fields[..i + 1][j] == fields[j] == fields[..i][j];
    assert fields[..i + 1][i] == fields[i];
  }

  /** lookup_field: None is the exception for an unknown field. */
  function Lookup(methods: set<string>, m: map<string, nat>, prop: string): Option<nat> {
    var js := Mangled(methods, prop);
    if js in m then Some(m[js]) else None
  }

  /** With any cache: looking up a field by its C name or by its JS name gives the same entry, and every field finds
      its own entry if and only if no two of them have the same name in JS. */
  lemma {:induction false} LookupFindsIff(methods: set<string>, fields: seq<string>, m: map<string, nat>)
    requires Caches(methods, fields, m)
    ensures (forall i :: 0 <= i < |fields| ==> Lookup(methods, m, fields[i]) == Some(i)) <==>
            DistinctInJs(methods, fields)
    ensures forall i :: 0 <= i < |fields| ==>
                          Lookup(methods, m, Mangled(methods, fields[i])) == Lookup(methods, m, fields[i])
    ensures forall prop :: Lookup(methods, m, prop).Some? <==>
                           exists i :: 0 <= i < |fields| && Mangled(methods, fields[i]) == Mangled(methods, prop)
  {
    forall i | 0 <= i < |fields|
      ensures Lookup(methods, m, Mangled(methods, fields[i])) == Lookup(methods, m, fields[i])
      ensures Lookup(methods, m, fields[i]).Some?
      ensures Named(methods, fields, Mangled(methods, fields[i]), Lookup(methods, m, fields[i]).value)
    {
      MangledOnce(methods, fields[i]);
      assert Mangled(methods, fields[i]) in m;
    }
  }

  /** Two fields can clash: the mangled name of one is the plain name of the other. */
  lemma MangledClash()
    ensures !DistinctInJs({"a"}, ["a", "_a"])
  {
    var ms: set<string> := {"a"};
    assert "a" in ms && "_" + "a" == "_a" && "_a" !in ms by { assert |"_a"| == 2; }
    assert Mangled(ms, "_a") == "_a";
    assert Mangled(ms, "a") == Mangled(ms, "_a");
    assert ["a", "_a"][0] == "a" && ["a", "_a"][1] == "_a";
  }
}
