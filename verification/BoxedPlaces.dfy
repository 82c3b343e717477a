/** Where the views of nested structures are, told from the steps of a run. */
module BoxedPlaces {
  import opened Basics
  import opened BoxedViews

  /** Reading a field gives the object stashed there, if any, or else a view of just that field. */
  lemma ReadGives(s: State, id: nat, f: Field)
    requires Valid(s) && Enabled(s, Read(id, f))
    ensures var s' := Next(s, Read(id, f));
            if f.index in s.objs[id].nested then s' == s.(held := s.held + {s.objs[id].nested[f.index]})
            else s.next in s'.objs && s.next in s'.held && IsField(s'.objs[s.next], id, s.objs[id], f)
  {
  }

  /** A structure with pointers that was written to a field is what reading the field gives, and is kept alive by the
      structure it was written to; writing one without pointers leaves all objects as they were. */
  lemma WriteThenRead(s: State, id: nat, f: Field, source: nat)
    requires Valid(s) && Enabled(s, Write(id, f, source))
    ensures var s' := Next(s, Write(id, f, source));
            if f.hasPointers then
              && id in s'.objs && RefersTo(s'.objs[id], source)
              && Enabled(s', Read(id, f)) && Next(s', Read(id, f)) == s'
            else s' == s
  {
    var s' := Next(s, Write(id, f, source));
    if f.hasPointers {
      assert s'.objs[id].nested[f.index] == source;
      assert s'.held + {source} == s'.held;
    }
  }

  /** Step `k` made object `id`. */
  predicate MadeAt(s: State, steps: seq<Step>, k: nat, id: nat) {
    k < |steps| && Run(s, steps[..k]).next == id && Run(s, steps[..k + 1]).next == id + 1
  }

  ghost predicate ReadFrom(s: State, steps: seq<Step>, id: nat, parent: nat, f: Field) {
    exists k: nat :: MadeAt(s, steps, k, id) && steps[k] == Read(parent, f)
  }

  ghost predicate MadeWhole(s: State, steps: seq<Step>, id: nat) {
    exists k: nat :: MadeAt(s, steps, k, id) && (steps[k].Construct? || steps[k].Wrap?)
  }

  lemma MadeLater(s: State, steps: seq<Step>, k: nat, id: nat)
    requires steps != [] && MadeAt(Next(s, steps[0]), steps[1..], k, id)
    ensures MadeAt(s, steps, k + 1, id) && steps[k + 1] == steps[1..][k]
  {
    assert steps[..k + 1][1..] == steps[1..][..k] && steps[..k + 1][0] == steps[0];
    assert steps[..k + 2][1..] == steps[1..][..k + 1] && steps[..k + 2][0] == steps[0];
  }

  /** Object `id` was made in this run: whole, or by reading field `f` of its parent, where it still is. */
  ghost predicate Comes(s: State, steps: seq<Step>, id: nat, f: Field)
    requires id in Run(s, steps).objs
  {
    var o := Run(s, steps).objs[id];
    if o.parent.None? then MadeWhole(s, steps, id)
    else
      && o.parent.value in Run(s, steps).objs && ReadFrom(s, steps, id, o.parent.value, f)
      && IsField(o, o.parent.value, Run(s, steps).objs[o.parent.value], f)
  }

  /** Every live object was there at the start, or was made by the step that constructed, wrapped or read it. */
  lemma {:induction false} Provenance(s: State, steps: seq<Step>, id: nat) returns (f: Field)
    requires Valid(s) && Legal(s, steps) && id in Run(s, steps).objs
    ensures if id < s.next then id in s.objs && SamePlace(s.objs[id], Run(s, steps).objs[id])
            else Comes(s, steps, id, f)
    decreases |steps|, 1
  {
    f := Field(0, 0, 0, false);
    RunKeepsValid(s, steps);
    assert ObjValid(Run(s, steps), id);
    if id < s.next {
      AliveBefore(s, steps, id);
    } else if steps != [] {
      StepKeepsValid(s, steps[0]);
      if id < Next(s, steps[0]).next {
        f := MadeNow(s, steps, id);
      } else {
        f := MadeThen(s, steps, id);
      }
    }
  }

  /** What a step makes. */
  lemma MadeByStep(s: State, step: Step)
    requires Valid(s) && Enabled(s, step) && Next(s, step).next != s.next
    ensures var s' := Next(s, step);
            && s'.next == s.next + 1 && s.next in s'.objs
            && if s'.objs[s.next].parent.None? then step.Construct? || step.Wrap?
               else
                 && step.Read? && s'.objs[s.next].parent == Some(step.id) && step.id in s.objs && step.id in s'.objs
                 && SamePlace(s'.objs[step.id], s.objs[step.id])
                 && IsField(s'.objs[s.next], step.id, s'.objs[step.id], step.field)
  {
  }

  lemma {:induction false} MadeNow(s: State, steps: seq<Step>, id: nat) returns (f: Field)
    requires Valid(s) && Legal(s, steps) && steps != [] && id in Run(s, steps).objs
    requires s.next <= id < Next(s, steps[0]).next
    ensures Comes(s, steps, id, f)
  {
    var s', step := Next(s, steps[0]), steps[0];
    f := if step.Read? then step.field else Field(0, 0, 0, false);
    MadeByStep(s, step);
    StepKeepsValid(s, step);
    AliveBefore(s', steps[1..], id);
    assert steps[..0] == [] && steps[..1] == [step];
    assert MadeAt(s, steps, 0, id);
    if s'.objs[id].parent.Some? {
      RunKeepsValid(s', steps[1..]);
      assert ObjValid(Run(s, steps), id);
      AliveBefore(s', steps[1..], step.id);
    }
  }

  lemma {:induction false} MadeThen(s: State, steps: seq<Step>, id: nat) returns (f: Field)
    requires Valid(s) && Legal(s, steps) && steps != [] && id in Run(s, steps).objs
    requires Valid(Next(s, steps[0])) && id >= Next(s, steps[0]).next
    ensures Comes(s, steps, id, f)
    decreases |steps|, 0
  {
    var s' := Next(s, steps[0]);
    f := Provenance(s', steps[1..], id);
    var o := Run(s, steps).objs[id];
    if o.parent.None? {
      var k: nat :| MadeAt(s', steps[1..], k, id) && (steps[1..][k].Construct? || steps[1..][k].Wrap?);
      MadeLater(s, steps, k, id);
    } else {
      var k: nat :| MadeAt(s', steps[1..], k, id) && steps[1..][k] == Read(o.parent.value, f);
      MadeLater(s, steps, k, id);
    }
  }

  function Sum(fields: seq<Field>): nat {
    if fields == [] then 0 else Sum(fields[..|fields| - 1]) + fields[|fields| - 1].offset
  }

  /** Object `id` was read field by field, starting from `root`, which was constructed or wrapped. */
  ghost predicate ReadAlong(steps: seq<Step>, id: nat, fields: seq<Field>, root: nat)
    decreases |fields|, 1
  {
    if fields == [] then id == root && MadeWhole(INITIAL, steps, id)
    else exists parent: nat :: ReadVia(steps, id, parent, fields, root)
  }

  ghost predicate ReadVia(steps: seq<Step>, id: nat, parent: nat, fields: seq<Field>, root: nat)
    requires fields != []
    decreases |fields|, 0
  {
    && ReadFrom(INITIAL, steps, id, parent, fields[|fields| - 1])
    && ReadAlong(steps, parent, fields[..|fields| - 1], root)
  }

  /** In every run a live view starts, in the memory of the structure at the end of its chain of reads, at the sum of
      the offsets of the fields that were read, and has the size of the last of them. */
  lemma {:induction false} ViewStartsAt(steps: seq<Step>, id: nat) returns (fields: seq<Field>)
    requires Legal(INITIAL, steps) && id in Run(INITIAL, steps).objs
    ensures var o := Run(INITIAL, steps).objs[id];
            && ReadAlong(steps, id, fields, o.block) && o.offset == Sum(fields)
            && (fields != [] ==> o.size == fields[|fields| - 1].size)
    decreases id
  {
    var s := Run(INITIAL, steps);
    RunKeepsValid(INITIAL, steps);
    assert ObjValid(s, id);
    var f := Provenance(INITIAL, steps, id);
    if s.objs[id].parent.None? {
      fields := [];
    } else {
      var rest := ViewStartsAt(steps, s.objs[id].parent.value);
      fields := rest + [f];
      assert fields[..|fields| - 1] == rest;
      assert ReadVia(steps, id, s.objs[id].parent.value, fields, s.objs[id].block);
    }
  }

  /** So views of disjoint fields of one structure do not overlap. */
  lemma {:induction false} DisjointFields(steps: seq<Step>, a: nat, b: nat, parent: nat, f: Field, g: Field)
    requires Legal(INITIAL, steps) && a in Run(INITIAL, steps).objs && b in Run(INITIAL, steps).objs
    requires ReadFrom(INITIAL, steps, a, parent, f) && ReadFrom(INITIAL, steps, b, parent, g)
    requires f.offset + f.size <= g.offset
    ensures var x, y := Run(INITIAL, steps).objs[a], Run(INITIAL, steps).objs[b];
            x.block == y.block && x.offset + x.size <= y.offset
  {
    ReadOnce(steps, a, parent, f);
    ReadOnce(steps, b, parent, g);
  }

  lemma {:induction false} NextGrows(s: State, steps: seq<Step>, i: nat, j: nat)
    requires i <= j <= |steps|
    ensures Run(s, steps[..i]).next <= Run(s, steps[..j]).next
    decreases |steps|
  {
    if i > 0 {
      assert steps[..i][1..] == steps[1..][..i - 1] && steps[..j][1..] == steps[1..][..j - 1];
      NextGrows(Next(s, steps[0]), steps[1..], i - 1, j - 1);
    } else if j > 0 {
      assert steps[..j][1..] == steps[1..][..j - 1] && steps[1..][..0] == [] == steps[..0];
      NextGrows(Next(s, steps[0]), steps[1..], 0, j - 1);
    }
  }

  /** An object is read by one step, and is still where that step put it. */
  lemma ReadOnce(steps: seq<Step>, id: nat, parent: nat, f: Field)
    requires Legal(INITIAL, steps) && id in Run(INITIAL, steps).objs && ReadFrom(INITIAL, steps, id, parent, f)
    ensures parent in Run(INITIAL, steps).objs
            && IsField(Run(INITIAL, steps).objs[id], parent, Run(INITIAL, steps).objs[parent], f)
  {
    var f' := Provenance(INITIAL, steps, id);
    var o := Run(INITIAL, steps).objs[id];
    var k: nat :| MadeAt(INITIAL, steps, k, id) && steps[k] == Read(parent, f);
    var k': nat :| MadeAt(INITIAL, steps, k', id)
                   && if o.parent.None? then steps[k'].Construct? || steps[k'].Wrap?
                   else steps[k'] == Read(o.parent.value, f');
    if k < k' { NextGrows(INITIAL, steps, k + 1, k'); }
    if k' < k { NextGrows(INITIAL, steps, k' + 1, k); }
  }
}
