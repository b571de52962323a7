/** The tree diff of src/lib.rs: `diff` and its recursive `diff_rec`.

    `DiffOf` is the meaning of `diff_rec(path, a, b)` as a function; the
    method `DiffRec` is the loop-and-vector code, proved to compute it. The
    first document `a` is the one compared to: what only `a` has is
    `Added`, what only `b` has is `Deleted`. */
module DiffEngine {
  import opened Toml
  import opened Merge

  /** One entry of the change list. The engine never produces `Changed`;
      the renderer knows the variant but leaves it unimplemented. */
  datatype Change =
    | Same
    | Added(key: string, val: Value)
    | Deleted(key: string, val: Value)
    | Changed(key: string, aVal: Value, bVal: Value)

  /** The change list that the renderer prints. */
  datatype TomlDiff = TomlDiff(changes: seq<Change>)

  /** Every character is a decimal digit. */
  predicate AllDigits(s: string)
  {
    forall k | 0 <= k < |s| :: '0' <= s[k] <= '9'
  }

  /** The number a string of decimal digits denotes, most significant
      digit first. */
  function DigitsValue(s: string): nat
    requires AllDigits(s)
  {
    if s == [] then 0
    else DigitsValue(s[..|s| - 1]) * 10 + (s[|s| - 1] as int - '0' as int) as nat
  }

  /** The digit character for `d`. */
  function Digit(d: nat): (c: char)
    requires d < 10
    ensures '0' <= c <= '9' && c as int - '0' as int == d
  {
    "0123456789"[d]
  }

  /** Decimal digits of `n`, as `format!("{i}")` writes an index: a
      non-empty digit string, with no leading zero, that denotes `n`. */
  function NatToString(n: nat): (s: string)
    ensures |s| > 0 && AllDigits(s)
    ensures DigitsValue(s) == n
    ensures |s| > 1 ==> s[0] != '0'
    ensures n < 10 <==> |s| == 1
  {
    if n < 10 then [Digit(n)]
    else
      var t := NatToString(n / 10);
      var s := t + [Digit(n % 10)];
      assert s[..|s| - 1] == t;
      s
  }

  /** `format!("{key}.{a_key}")`: the label under which a matched key recurses. */
  function MemberPath(path: string, key: string): (r: string)
    ensures |r| == |path| + 1 + |key|
    ensures r[..|path|] == path && r[|path|] == '.' && r[|path| + 1..] == key
  {
    path + "." + key
  }

  /** `format!("{key}[{i}]")`: the label under which an array element recurses. */
  function ElemPath(path: string, i: nat): string
  {
    path + "[" + NatToString(i) + "]"
  }

  /** Distinct keys under one parent get distinct labels. */
  lemma MemberPathInjective(path: string, k1: string, k2: string)
    requires MemberPath(path, k1) == MemberPath(path, k2)
    ensures k1 == k2
  {
    var n := |path| + 1;
    assert MemberPath(path, k1)[n..] == k1;
    assert MemberPath(path, k2)[n..] == k2;
  }

  /** Distinct indices under one parent get distinct labels. */
  lemma ElemPathInjective(path: string, i: nat, j: nat)
    requires ElemPath(path, i) == ElemPath(path, j)
    ensures i == j
  {
    var si, sj := NatToString(i), NatToString(j);
    var p := ElemPath(path, i);
    var n := |path| + 1;
    assert p == path + "[" + si + "]";
    assert ElemPath(path, j) == path + "[" + sj + "]";
    assert |si| == |sj|;
    assert p[n..n + |si|] == si;
    assert p[n..n + |sj|] == sj;
  }

  /** The merge walk over the two tables' entries, each sorted by key. */
  function TableSteps(a: Value, b: Value): seq<Step>
    requires a.Table? && b.Table?
  {
    MergeWalk(SortByKey(a.entries), SortByKey(b.entries))
  }

  /** `diff_rec(path, a, b)`. */
  function DiffOf(path: string, a: Value, b: Value): (r: seq<Change>)
    ensures forall c | c in r :: !c.Changed?
    ensures r == [] ==> KindOf(a) == KindOf(b) && !Scalar(a)
    decreases a, 1
  {
    if a.Table? && b.Table? then
      StepsOfTable(a, SortByKey(a.entries), 0, SortByKey(b.entries), 0);
      EmitSteps(path, a, TableSteps(a, b))
    else if a.Array? && b.Array? then
      ZipFrom(path, a, b, 0)
    else if a == b then
      [Same]
    else
      [Added(path, a), Deleted(path, b)]
  }

  /** What the merge loop appends for one step of the walk: a key only in
      `a` is `Added` and one only in `b` is `Deleted`, both under the bare
      key; a key in both recurses under the extended path. */
  function StepChanges(path: string, a: Value, s: Step): (r: seq<Change>)
    requires a.Table?
    requires s.Both? ==> (s.key, s.aVal) in a.entries
    ensures forall c | c in r :: !c.Changed?
    ensures !s.Both? ==> |r| == 1 && (r[0].Added? || r[0].Deleted?) && r[0].key == s.key
    decreases a, 0, 0
  {
    match s
    case OnlyA(k, v) => [Added(k, v)]
    case OnlyB(k, v) => [Deleted(k, v)]
    case Both(k, va, vb) => DiffOf(MemberPath(path, k), va, vb)
  }

  /** Every step that recurses does so on a value of table `a`. */
  predicate BothFrom(a: Value, steps: seq<Step>)
    requires a.Table?
  {
    forall s | s in steps && s.Both? :: (s.key, s.aVal) in a.entries
  }

  /** The changes of a run of merge steps over entries of table `a`. */
  function EmitSteps(path: string, a: Value, steps: seq<Step>): (r: seq<Change>)
    requires a.Table?
    requires BothFrom(a, steps)
    ensures forall c | c in r :: !c.Changed?
    ensures forall s | s in steps && s.OnlyA? :: Added(s.key, s.aVal) in r
    ensures forall s | s in steps && s.OnlyB? :: Deleted(s.key, s.bVal) in r
    decreases a, 0, |steps| + 1
  {
    if steps == [] then []
    else
      assert forall s | s in steps :: s == steps[0] || s in steps[1..];
      StepChanges(path, a, steps[0]) + EmitSteps(path, a, steps[1..])
  }

  /** The changes of the zipped array elements from index `i` on. */
  function ZipFrom(path: string, a: Value, b: Value, i: nat): (r: seq<Change>)
    requires a.Array? && b.Array?
    ensures forall c | c in r :: !c.Changed?
    decreases a, 0, |a.elems| - i
  {
    if i < |a.elems| && i < |b.elems| then
      DiffOf(ElemPath(path, i), a.elems[i], b.elems[i]) + ZipFrom(path, a, b, i + 1)
    else []
  }

  /** `a_it.map(|(key, val)| Added(key, val))`. */
  function AddedAll(es: seq<Entry>): (r: seq<Change>)
    ensures |r| == |es|
    ensures forall k | 0 <= k < |es| :: r[k] == Added(es[k].0, es[k].1)
  {
    if es == [] then [] else [Added(es[0].0, es[0].1)] + AddedAll(es[1..])
  }

  /** `b_it.map(|(key, val)| Deleted(key, val))`. */
  function DeletedAll(es: seq<Entry>): (r: seq<Change>)
    ensures |r| == |es|
    ensures forall k | 0 <= k < |es| :: r[k] == Deleted(es[k].0, es[k].1)
  {
    if es == [] then [] else [Deleted(es[0].0, es[0].1)] + DeletedAll(es[1..])
  }

  /** The `a` values of the walk over a permutation of `a`'s entries are
      entries of `a`. */
  lemma StepsOfTable(a: Value, xs: seq<Entry>, i: nat, ys: seq<Entry>, j: nat)
    requires a.Table? && multiset(xs) == multiset(a.entries)
    requires i <= |xs| && j <= |ys|
    ensures BothFrom(a, MergeWalk(xs[i..], ys[j..]))
  {
    StepEntriesFromInputs(xs[i..], ys[j..]);
    forall s | s in MergeWalk(xs[i..], ys[j..]) && s.Both? ensures (s.key, s.aVal) in a.entries {
      assert (s.key, s.aVal) in xs;
      assert (s.key, s.aVal) in multiset(xs);
    }
  }

  lemma EmitCons(path: string, a: Value, s: Step, rest: seq<Step>)
    requires a.Table?
    requires BothFrom(a, [s] + rest)
    ensures s.Both? ==> (s.key, s.aVal) in a.entries
    ensures BothFrom(a, rest)
    ensures EmitSteps(path, a, [s] + rest) == StepChanges(path, a, s) + EmitSteps(path, a, rest)
  {
    assert ([s] + rest)[1..] == rest;
  }

  /** One pass of the merge loop with both cursors in range: the step it
      takes, and the walk that remains. */
  lemma WalkAdvance(xs: seq<Entry>, i: nat, ys: seq<Entry>, j: nat)
    requires i < |xs| && j < |ys|
    ensures var steps := MergeWalk(xs[i..], ys[j..]);
      steps != [] &&
      (xs[i].0 == ys[j].0 ==>
        steps[0] == Both(xs[i].0, xs[i].1, ys[j].1) && steps[1..] == MergeWalk(xs[i + 1..], ys[j + 1..])) &&
      (xs[i].0 != ys[j].0 && KeyLess(xs[i].0, ys[j].0) ==>
        steps[0] == OnlyA(xs[i].0, xs[i].1) && steps[1..] == MergeWalk(xs[i + 1..], ys[j..])) &&
      (xs[i].0 != ys[j].0 && !KeyLess(xs[i].0, ys[j].0) ==>
        steps[0] == OnlyB(ys[j].0, ys[j].1) && steps[1..] == MergeWalk(xs[i..], ys[j + 1..]))
  {
    assert xs[i..][1..] == xs[i + 1..] && ys[j..][1..] == ys[j + 1..];
    WalkUnfold(xs[i..], ys[j..]);
  }

  lemma AppendAssoc(x: seq<Change>, y: seq<Change>, z: seq<Change>)
    ensures (x + y) + z == x + (y + z)
  {
  }

  /** Once one side is exhausted the walk's changes are the two `extend`
      calls after the loop. */
  lemma {:induction false} LeftoverChanges(path: string, a: Value, xs: seq<Entry>, ys: seq<Entry>)
    requires a.Table? && (xs == [] || ys == [])
    requires BothFrom(a, MergeWalk(xs, ys))
    ensures EmitSteps(path, a, MergeWalk(xs, ys)) == AddedAll(xs) + DeletedAll(ys)
    decreases |xs| + |ys|
  {
    if xs != [] {
      assert MergeWalk(xs, ys) == [OnlyA(xs[0].0, xs[0].1)] + MergeWalk(xs[1..], ys);
      EmitCons(path, a, OnlyA(xs[0].0, xs[0].1), MergeWalk(xs[1..], ys));
      LeftoverChanges(path, a, xs[1..], ys);
    } else if ys != [] {
      assert MergeWalk(xs, ys) == [OnlyB(ys[0].0, ys[0].1)] + MergeWalk(xs, ys[1..]);
      EmitCons(path, a, OnlyB(ys[0].0, ys[0].1), MergeWalk(xs, ys[1..]));
      LeftoverChanges(path, a, xs, ys[1..]);
    }
  }

  /** `diff_rec`: tables are merge-walked, arrays zipped by position, and
      any other pair is compared as a leaf. */
  method DiffRec(path: string, a: Value, b: Value) returns (changes: seq<Change>)
    ensures changes == DiffOf(path, a, b)
    decreases a, 1
  {
    if a.Table? && b.Table? {
      changes := DiffTables(path, a, b);
    } else if a.Array? && b.Array? {
      changes := DiffArrays(path, a, b);
    } else if a == b {
      changes := [Same];
    } else {
      changes := [Added(path, a), Deleted(path, b)];
    }
  }

  /** The table arm of `diff_rec`: collect both tables' entries, sort
      them by key, then merge-walk them. */
  method DiffTables(path: string, a: Value, b: Value) returns (changes: seq<Change>)
    requires a.Table? && b.Table?
    ensures changes == DiffOf(path, a, b)
    decreases a, 0
  {
    var aVec := SortByKey(a.entries);
    var bVec := SortByKey(b.entries);
    changes := MergeSorted(path, a, aVec, bVec);
  }

  /** The two-cursor loop over the sorted entries. Equal keys recurse and
      advance both cursors; otherwise the smaller key is missing from the
      other table and only its cursor moves. Whatever is left once one side
      runs out is added or deleted. */
  method MergeSorted(path: string, a: Value, aVec: seq<Entry>, bVec: seq<Entry>) returns (changes: seq<Change>)
    requires a.Table? && multiset(aVec) == multiset(a.entries)
    ensures BothFrom(a, MergeWalk(aVec, bVec))
    ensures changes == EmitSteps(path, a, MergeWalk(aVec, bVec))
    decreases a, 0, 0
  {
    var i, j := 0, 0;
    changes := [];
    StepsOfTable(a, aVec, 0, bVec, 0);
    assert aVec[0..] == aVec && bVec[0..] == bVec;
    ghost var rest := MergeWalk(aVec, bVec);
    ghost var total := EmitSteps(path, a, rest);
    while i < |aVec| && j < |bVec|
      invariant 0 <= i <= |aVec| && 0 <= j <= |bVec|
      invariant rest == MergeWalk(aVec[i..], bVec[j..])
      invariant BothFrom(a, rest)
      invariant changes + EmitSteps(path, a, rest) == total
      decreases |aVec| - i + |bVec| - j
    {
      var (aKey, aVal) := aVec[i];
      var (bKey, bVal) := bVec[j];
      WalkAdvance(aVec, i, bVec, j);
      EmitCons(path, a, rest[0], rest[1..]);
      assert [rest[0]] + rest[1..] == rest;
      var step: seq<Change>;
      if aKey == bKey {
        assert rest[0] in rest;
        step := DiffRec(MemberPath(path, aKey), aVal, bVal);
        i, j := i + 1, j + 1;
      } else if KeyLess(aKey, bKey) {
        step := [Added(aKey, aVal)];
        i := i + 1;
      } else {
        step := [Deleted(bKey, bVal)];
        j := j + 1;
      }
      assert step == StepChanges(path, a, rest[0]);
      AppendAssoc(changes, step, EmitSteps(path, a, rest[1..]));
      changes := changes + step;
      rest := rest[1..];
    }
    LeftoverChanges(path, a, aVec[i..], bVec[j..]);
    AppendAssoc(changes, AddedAll(aVec[i..]), DeletedAll(bVec[j..]));
    changes := changes + AddedAll(aVec[i..]);
    changes := changes + DeletedAll(bVec[j..]);
  }

  /** The array arm of `diff_rec`: `zip` stops at the shorter array. */
  method DiffArrays(path: string, a: Value, b: Value) returns (changes: seq<Change>)
    requires a.Array? && b.Array?
    ensures changes == DiffOf(path, a, b)
    decreases a, 0
  {
    changes := [];
    var n := if |a.elems| < |b.elems| then |a.elems| else |b.elems|;
    for i := 0 to n
      invariant changes + ZipFrom(path, a, b, i) == DiffOf(path, a, b)
    {
      var sub := DiffRec(ElemPath(path, i), a.elems[i], b.elems[i]);
      changes := changes + sub;
    }
  }

  /** `diff(a, b)`: the walk starts from the empty path. */
  method Diff(a: Value, b: Value) returns (d: TomlDiff)
    ensures d.changes == DiffOf("", a, b)
  {
    var changes := DiffRec("", a, b);
    d := TomlDiff(changes);
  }

  // ---------------------------------------------------------------------
  // Leaves

  /** Two values of different kinds, a table against an array included,
      are never compared member by member: `a` is reported added and `b`
      deleted, both whole and under the current path. */
  lemma LeafChanges(path: string, a: Value, b: Value)
    requires KindOf(a) != KindOf(b)
    ensures DiffOf(path, a, b) == [Added(path, a), Deleted(path, b)]
  {
  }

  /** A scalar compared with any value is reported as `Same` exactly when
      the two are equal; otherwise the pair is reported whole under the
      current path, first `a` as added, then `b` as deleted. */
  lemma ScalarChanges(path: string, a: Value, b: Value)
    requires Scalar(a)
    ensures DiffOf(path, a, b) == [Same] <==> a == b
    ensures a != b ==> DiffOf(path, a, b) == [Added(path, a), Deleted(path, b)]
  {
  }

  // ---------------------------------------------------------------------
  // Reflexivity

  predicate OnlySame(cs: seq<Change>)
  {
    forall c | c in cs :: c == Same
  }

  lemma OnlySameAppend(xs: seq<Change>, ys: seq<Change>)
    requires OnlySame(xs) && OnlySame(ys)
    ensures OnlySame(xs + ys)
  {
  }

  /** A value diffed against itself yields nothing but `Same`. */
  lemma {:induction false} DiffOfSelf(path: string, x: Value)
    ensures OnlySame(DiffOf(path, x, x))
    decreases x, 1
  {
    if x.Table? {
      var xs := SortByKey(x.entries);
      StepsOfTable(x, xs, 0, xs, 0);
      assert xs[0..] == xs;
      WalkOfSelf(xs);
      EmitOfSelf(path, x, MergeWalk(xs, xs));
    } else if x.Array? {
      ZipOfSelf(path, x, 0);
    }
  }

  lemma {:induction false} EmitOfSelf(path: string, x: Value, steps: seq<Step>)
    requires x.Table? && BothFrom(x, steps)
    requires forall s | s in steps :: s.Both? && s.aVal == s.bVal
    ensures OnlySame(EmitSteps(path, x, steps))
    decreases x, 0, |steps|
  {
    if steps != [] {
      assert steps[0] in steps;
      DiffOfSelf(MemberPath(path, steps[0].key), steps[0].aVal);
      EmitOfSelf(path, x, steps[1..]);
      OnlySameAppend(StepChanges(path, x, steps[0]), EmitSteps(path, x, steps[1..]));
    }
  }

  lemma {:induction false} ZipOfSelf(path: string, x: Value, i: nat)
    requires x.Array?
    ensures OnlySame(ZipFrom(path, x, x, i))
    decreases x, 0, |x.elems| - i
  {
    if i < |x.elems| {
      DiffOfSelf(ElemPath(path, i), x.elems[i]);
      ZipOfSelf(path, x, i + 1);
      OnlySameAppend(DiffOf(ElemPath(path, i), x.elems[i], x.elems[i]), ZipFrom(path, x, x, i + 1));
    }
  }

  // ---------------------------------------------------------------------
  // Where the reported values come from

  /** Every `Added` value sits inside `a`, every `Deleted` value inside
      `b`, and nothing is `Changed`. */
  ghost predicate DrawnFrom(cs: seq<Change>, a: Value, b: Value)
  {
    forall c | c in cs ::
      !c.Changed? && (c.Added? ==> SubValue(c.val, a)) && (c.Deleted? ==> SubValue(c.val, b))
  }

  lemma DrawnFromAppend(xs: seq<Change>, ys: seq<Change>, a: Value, b: Value)
    requires DrawnFrom(xs, a, b) && DrawnFrom(ys, a, b)
    ensures DrawnFrom(xs + ys, a, b)
  {
  }

  /** What is drawn from children of `a` and `b` is drawn from `a` and `b`. */
  lemma DrawnFromParents(cs: seq<Change>, a: Value, b: Value, a': Value, b': Value)
    requires DrawnFrom(cs, a', b')
    requires (a.Table? && exists i :: 0 <= i < |a.entries| && a.entries[i].1 == a')
          || (a.Array? && exists i :: 0 <= i < |a.elems| && a.elems[i] == a')
    requires (b.Table? && exists i :: 0 <= i < |b.entries| && b.entries[i].1 == b')
          || (b.Array? && exists i :: 0 <= i < |b.elems| && b.elems[i] == b')
    ensures DrawnFrom(cs, a, b)
  {
  }

  lemma EntryIsChild(t: Value, e: Entry)
    requires t.Table? && e in t.entries
    ensures exists i :: 0 <= i < |t.entries| && t.entries[i].1 == e.1
    ensures SubValue(e.1, t)
  {
    var i :| 0 <= i < |t.entries| && t.entries[i] == e;
    assert SubValue(e.1, t.entries[i].1);
  }

  /** The diff reports only values of its own inputs. */
  lemma {:induction false} DiffDrawsFromInputs(path: string, a: Value, b: Value)
    ensures DrawnFrom(DiffOf(path, a, b), a, b)
    decreases a, 1
  {
    if a.Table? && b.Table? {
      var xs, ys := SortByKey(a.entries), SortByKey(b.entries);
      StepsOfTable(a, xs, 0, ys, 0);
      assert xs[0..] == xs && ys[0..] == ys;
      StepEntriesFromInputs(xs, ys);
      forall s | s in MergeWalk(xs, ys) && !s.OnlyB? ensures (s.key, s.aVal) in a.entries {
        assert (s.key, s.aVal) in multiset(xs);
      }
      forall s | s in MergeWalk(xs, ys) && !s.OnlyA? ensures (s.key, s.bVal) in b.entries {
        assert (s.key, s.bVal) in multiset(ys);
      }
      EmitDrawsFromInputs(path, a, b, MergeWalk(xs, ys));
    } else if a.Array? && b.Array? {
      ZipDrawsFromInputs(path, a, b, 0);
    } else if a != b {
      assert SubValue(a, a) && SubValue(b, b);
    }
  }

  lemma {:induction false} EmitDrawsFromInputs(path: string, a: Value, b: Value, steps: seq<Step>)
    requires a.Table? && b.Table? && BothFrom(a, steps)
    requires forall s | s in steps && !s.OnlyB? :: (s.key, s.aVal) in a.entries
    requires forall s | s in steps && !s.OnlyA? :: (s.key, s.bVal) in b.entries
    ensures DrawnFrom(EmitSteps(path, a, steps), a, b)
    decreases a, 0, |steps|
  {
    if steps != [] {
      var s := steps[0];
      assert s in steps;
      match s {
        case OnlyA(k, v) => EntryIsChild(a, (k, v));
        case OnlyB(k, v) => EntryIsChild(b, (k, v));
        case Both(k, va, vb) =>
          EntryIsChild(a, (k, va));
          EntryIsChild(b, (k, vb));
          DiffDrawsFromInputs(MemberPath(path, k), va, vb);
          DrawnFromParents(DiffOf(MemberPath(path, k), va, vb), a, b, va, vb);
      }
      EmitDrawsFromInputs(path, a, b, steps[1..]);
      DrawnFromAppend(StepChanges(path, a, s), EmitSteps(path, a, steps[1..]), a, b);
    }
  }

  lemma {:induction false} ZipDrawsFromInputs(path: string, a: Value, b: Value, i: nat)
    requires a.Array? && b.Array?
    ensures DrawnFrom(ZipFrom(path, a, b, i), a, b)
    decreases a, 0, |a.elems| - i
  {
    if i < |a.elems| && i < |b.elems| {
      DiffDrawsFromInputs(ElemPath(path, i), a.elems[i], b.elems[i]);
      DrawnFromParents(DiffOf(ElemPath(path, i), a.elems[i], b.elems[i]), a, b, a.elems[i], b.elems[i]);
      ZipDrawsFromInputs(path, a, b, i + 1);
      DrawnFromAppend(DiffOf(ElemPath(path, i), a.elems[i], b.elems[i]), ZipFrom(path, a, b, i + 1), a, b);
    }
  }

  // ---------------------------------------------------------------------
  // Arrays: positional, up to the shorter length

  function Min(x: nat, y: nat): nat
  {
    if x < y then x else y
  }

  lemma {:induction false} ZipSamePrefix(path: string, a: Value, b: Value, a': Value, b': Value, i: nat)
    requires a.Array? && b.Array? && a'.Array? && b'.Array?
    requires Min(|a.elems|, |b.elems|) == Min(|a'.elems|, |b'.elems|)
    requires forall k | i <= k < Min(|a.elems|, |b.elems|) :: a.elems[k] == a'.elems[k] && b.elems[k] == b'.elems[k]
    ensures ZipFrom(path, a, b, i) == ZipFrom(path, a', b', i)
    decreases |a.elems| - i
  {
    if i < |a.elems| && i < |b.elems| {
      ZipSamePrefix(path, a, b, a', b', i + 1);
    }
  }

  /** Arrays are compared strictly by position: elements at or beyond the
      shorter array's length contribute no change at all. */
  lemma ArrayTailIgnored(path: string, xs: seq<Value>, ys: seq<Value>)
    ensures var m := Min(|xs|, |ys|);
      DiffOf(path, Array(xs), Array(ys)) == DiffOf(path, Array(xs[..m]), Array(ys[..m]))
  {
    var m := Min(|xs|, |ys|);
    ZipSamePrefix(path, Array(xs), Array(ys), Array(xs[..m]), Array(ys[..m]), 0);
  }

  // ---------------------------------------------------------------------
  // Tables: what one comparison decides per key, and in which order

  lemma SameMembers(xs: seq<Entry>, es: seq<Entry>)
    requires multiset(xs) == multiset(es)
    ensures forall e :: e in xs <==> e in es
  {
    forall e ensures e in xs <==> e in es {
      assert e in xs <==> e in multiset(xs);
    }
  }

  /** What the walk of two tables does with one key `k`: a key only in `a`
      gets an `OnlyA` step with its value (emitted as `Added` under the bare
      key), a key only in `b` an `OnlyB` step (emitted as `Deleted`), and a
      key in both a `Both` step carrying both values. */
  lemma TableWalkClassifies(a: Value, b: Value, k: string, v: Value, w: Value)
    requires a.Table? && b.Table? && DistinctKeys(a.entries) && DistinctKeys(b.entries)
    ensures OnlyA(k, v) in TableSteps(a, b) <==> (k, v) in a.entries && k !in Keys(b.entries)
    ensures OnlyB(k, w) in TableSteps(a, b) <==> (k, w) in b.entries && k !in Keys(a.entries)
    ensures Both(k, v, w) in TableSteps(a, b) <==> (k, v) in a.entries && (k, w) in b.entries
  {
    var xs, ys := SortByKey(a.entries), SortByKey(b.entries);
    SortByKeyOfTable(a.entries);
    SortByKeyOfTable(b.entries);
    SameMembers(xs, a.entries);
    SameMembers(ys, b.entries);
    WalkClassifies(xs, ys, k, v, w);
  }

  /** The walk of two tables (keys distinct within each) visits keys in
      strictly ascending order, so every key is handled at one place only. */
  lemma TableWalkAscending(a: Value, b: Value)
    requires a.Table? && b.Table? && DistinctKeys(a.entries) && DistinctKeys(b.entries)
    ensures KeysAscending(TableSteps(a, b))
  {
    SortByKeyOfTable(a.entries);
    SortByKeyOfTable(b.entries);
    StepKeysAscending(SortByKey(a.entries), SortByKey(b.entries));
  }

  lemma TableDiffEmits(path: string, a: Value, b: Value)
    requires a.Table? && b.Table?
    ensures BothFrom(a, TableSteps(a, b))
    ensures DiffOf(path, a, b) == EmitSteps(path, a, TableSteps(a, b))
  {
    StepsOfTable(a, SortByKey(a.entries), 0, SortByKey(b.entries), 0);
    assert SortByKey(a.entries)[0..] == SortByKey(a.entries);
    assert SortByKey(b.entries)[0..] == SortByKey(b.entries);
  }

  // ---------------------------------------------------------------------
  // Recursion labels

  /** `small` occurs as a contiguous run inside `big`. */
  ghost predicate IsInfix(small: seq<Change>, big: seq<Change>)
  {
    exists pre, post :: big == pre + small + post
  }

  lemma InfixOfAppend(small: seq<Change>, x: seq<Change>, y: seq<Change>)
    ensures IsInfix(small, x) ==> IsInfix(small, x + y)
    ensures IsInfix(small, y) ==> IsInfix(small, x + y)
  {
    if IsInfix(small, x) {
      var pre, post :| x == pre + small + post;
      assert x + y == pre + small + (post + y);
    }
    if IsInfix(small, y) {
      var pre, post :| y == pre + small + post;
      assert x + y == (x + pre) + small + post;
    }
  }

  lemma InfixAtFront(small: seq<Change>, rest: seq<Change>)
    ensures IsInfix(small, small + rest)
  {
    assert small + rest == [] + small + rest;
  }

  lemma SingletonInfix(c: Change, big: seq<Change>)
    requires IsInfix([c], big)
    ensures c in big
  {
    var pre, post :| big == pre + [c] + post;
    assert big[|pre|] == c;
  }

  lemma {:induction false} EmitHasStep(path: string, a: Value, steps: seq<Step>, n: nat)
    requires a.Table? && BothFrom(a, steps) && n < |steps|
    ensures steps[n] in steps
    ensures IsInfix(StepChanges(path, a, steps[n]), EmitSteps(path, a, steps))
    decreases n
  {
    var head := StepChanges(path, a, steps[0]);
    var tail := EmitSteps(path, a, steps[1..]);
    if n == 0 {
      InfixAtFront(head, tail);
    } else {
      EmitHasStep(path, a, steps[1..], n - 1);
      InfixOfAppend(StepChanges(path, a, steps[n]), head, tail);
    }
  }

  /** When both tables hold key `k`, the diff of its two values, walked
      under the path extended by `"." + k`, appears intact in the tables'
      diff. */
  lemma MatchedKeyRecursesUnderMemberPath(path: string, a: Value, b: Value, k: string, va: Value, vb: Value)
    requires a.Table? && b.Table? && DistinctKeys(a.entries) && DistinctKeys(b.entries)
    requires (k, va) in a.entries && (k, vb) in b.entries
    ensures IsInfix(DiffOf(MemberPath(path, k), va, vb), DiffOf(path, a, b))
  {
    TableWalkClassifies(a, b, k, va, vb);
    TableDiffEmits(path, a, b);
    var steps := TableSteps(a, b);
    var n :| 0 <= n < |steps| && steps[n] == Both(k, va, vb);
    EmitHasStep(path, a, steps, n);
  }

  /** A key only in `a` is reported as `Added` with its own value under the
      bare key. */
  lemma KeyOnlyInAIsAdded(path: string, a: Value, b: Value, k: string, v: Value)
    requires a.Table? && b.Table? && DistinctKeys(a.entries) && DistinctKeys(b.entries)
    requires (k, v) in a.entries && k !in Keys(b.entries)
    ensures Added(k, v) in DiffOf(path, a, b)
  {
    TableWalkClassifies(a, b, k, v, v);
    TableDiffEmits(path, a, b);
    var steps := TableSteps(a, b);
    var n :| 0 <= n < |steps| && steps[n] == OnlyA(k, v);
    EmitHasStep(path, a, steps, n);
    SingletonInfix(Added(k, v), DiffOf(path, a, b));
  }

  /** A key only in `b` is reported as `Deleted` with its own value under
      the bare key. */
  lemma KeyOnlyInBIsDeleted(path: string, a: Value, b: Value, k: string, w: Value)
    requires a.Table? && b.Table? && DistinctKeys(a.entries) && DistinctKeys(b.entries)
    requires (k, w) in b.entries && k !in Keys(a.entries)
    ensures Deleted(k, w) in DiffOf(path, a, b)
  {
    TableWalkClassifies(a, b, k, w, w);
    TableDiffEmits(path, a, b);
    var steps := TableSteps(a, b);
    var n :| 0 <= n < |steps| && steps[n] == OnlyB(k, w);
    EmitHasStep(path, a, steps, n);
    SingletonInfix(Deleted(k, w), DiffOf(path, a, b));
  }

  lemma {:induction false} ZipHasElement(path: string, a: Value, b: Value, i: nat, n: nat)
    requires a.Array? && b.Array? && i <= n < |a.elems| && n < |b.elems|
    ensures IsInfix(DiffOf(ElemPath(path, n), a.elems[n], b.elems[n]), ZipFrom(path, a, b, i))
    decreases n - i
  {
    var head := DiffOf(ElemPath(path, i), a.elems[i], b.elems[i]);
    var tail := ZipFrom(path, a, b, i + 1);
    assert ZipFrom(path, a, b, i) == head + tail;
    if i == n {
      InfixAtFront(head, tail);
    } else {
      ZipHasElement(path, a, b, i + 1, n);
      InfixOfAppend(DiffOf(ElemPath(path, n), a.elems[n], b.elems[n]), head, tail);
    }
  }

  /** Element `n` of two arrays that both have one is walked under the path
      extended by `"[n]"`, and its diff appears intact in the arrays' diff. */
  lemma ElementRecursesUnderIndexPath(path: string, xs: seq<Value>, ys: seq<Value>, n: nat)
    requires n < |xs| && n < |ys|
    ensures IsInfix(DiffOf(ElemPath(path, n), xs[n], ys[n]), DiffOf(path, Array(xs), Array(ys)))
  {
    ZipHasElement(path, Array(xs), Array(ys), 0, n);
  }
}
