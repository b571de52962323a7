/** The alignment that the table arm of `diff_rec` computes: a merge walk
    over the two key-sorted entry lists, one step per position of its two
    cursors. Equal keys advance both cursors; the smaller key advances only
    its own side; once one side is exhausted the other side's remainder is
    consumed in order. */
module Merge {
  import opened Toml

  /** What the walk decides for one entry or one matched pair: one loop
      pass while both cursors are in range, or one leftover entry once a
      side has run out (the loop's final pass takes all of those at once). */
  datatype Step =
    | OnlyA(key: string, aVal: Value)
    | OnlyB(key: string, bVal: Value)
    | Both(key: string, aVal: Value, bVal: Value)

  /** The entries of the `a` side that the steps consume, in order. */
  function ASide(steps: seq<Step>): seq<Entry>
  {
    if steps == [] then []
    else
      (match steps[0]
       case OnlyB(_, _) => []
       case OnlyA(k, v) => [(k, v)]
       case Both(k, v, _) => [(k, v)])
      + ASide(steps[1..])
  }

  /** The entries of the `b` side that the steps consume, in order. */
  function BSide(steps: seq<Step>): seq<Entry>
  {
    if steps == [] then []
    else
      (match steps[0]
       case OnlyA(_, _) => []
       case OnlyB(k, v) => [(k, v)]
       case Both(k, _, v) => [(k, v)])
      + BSide(steps[1..])
  }

  /** The merge walk over `xs` (from `a`) and `ys` (from `b`). */
  function MergeWalk(xs: seq<Entry>, ys: seq<Entry>): (r: seq<Step>)
    ensures |xs| <= |r| && |ys| <= |r| && |r| <= |xs| + |ys|
    decreases |xs| + |ys|
  {
    if |xs| > 0 && |ys| > 0 then
      if xs[0].0 == ys[0].0 then
        [Both(xs[0].0, xs[0].1, ys[0].1)] + MergeWalk(xs[1..], ys[1..])
      else if KeyLess(xs[0].0, ys[0].0) then
        [OnlyA(xs[0].0, xs[0].1)] + MergeWalk(xs[1..], ys)
      else
        [OnlyB(ys[0].0, ys[0].1)] + MergeWalk(xs, ys[1..])
    else if |xs| > 0 then
      [OnlyA(xs[0].0, xs[0].1)] + MergeWalk(xs[1..], ys)
    else if |ys| > 0 then
      [OnlyB(ys[0].0, ys[0].1)] + MergeWalk(xs, ys[1..])
    else
      []
  }

  /** Each entry of either list is consumed exactly once, in its list's
      order: the `a` entries the steps consume are `xs` and the `b` entries
      are `ys`. */
  lemma {:induction false} WalkConsumesEachEntryOnce(xs: seq<Entry>, ys: seq<Entry>)
    ensures ASide(MergeWalk(xs, ys)) == xs && BSide(MergeWalk(xs, ys)) == ys
    decreases |xs| + |ys|
  {
    WalkUnfold(xs, ys);
    var steps := MergeWalk(xs, ys);
    if |xs| > 0 && |ys| > 0 && xs[0].0 == ys[0].0 {
      WalkConsumesEachEntryOnce(xs[1..], ys[1..]);
      SidesOfCons(steps[0], steps[1..]);
      assert xs == [xs[0]] + xs[1..] && ys == [ys[0]] + ys[1..];
    } else if |xs| > 0 && (|ys| == 0 || KeyLess(xs[0].0, ys[0].0)) {
      WalkConsumesEachEntryOnce(xs[1..], ys);
      SidesOfCons(steps[0], steps[1..]);
      assert xs == [xs[0]] + xs[1..];
    } else if |ys| > 0 {
      WalkConsumesEachEntryOnce(xs, ys[1..]);
      SidesOfCons(steps[0], steps[1..]);
      assert ys == [ys[0]] + ys[1..];
    }
  }

  lemma SidesOfCons(s: Step, rest: seq<Step>)
    ensures ASide([s] + rest) == (if s.OnlyB? then [] else [(s.key, s.aVal)]) + ASide(rest)
    ensures BSide([s] + rest) == (if s.OnlyA? then [] else [(s.key, s.bVal)]) + BSide(rest)
  {
    assert ([s] + rest)[1..] == rest;
  }

  /** Every key a step carries is a key of one of the two lists. */
  lemma {:induction false} StepKeysFromInputs(xs: seq<Entry>, ys: seq<Entry>)
    ensures forall s | s in MergeWalk(xs, ys) :: s.key in Keys(xs) + Keys(ys)
    decreases |xs| + |ys|
  {
    var steps := MergeWalk(xs, ys);
    if |xs| > 0 && (|ys| == 0 || (xs[0].0 != ys[0].0 && KeyLess(xs[0].0, ys[0].0))) {
      StepKeysFromInputs(xs[1..], ys);
      KeysOfCons(xs[0], xs[1..]);
      assert xs == [xs[0]] + xs[1..];
    } else if |xs| > 0 && |ys| > 0 && xs[0].0 == ys[0].0 {
      StepKeysFromInputs(xs[1..], ys[1..]);
      KeysOfCons(xs[0], xs[1..]);
      KeysOfCons(ys[0], ys[1..]);
      assert xs == [xs[0]] + xs[1..] && ys == [ys[0]] + ys[1..];
    } else if |ys| > 0 {
      StepKeysFromInputs(xs, ys[1..]);
      KeysOfCons(ys[0], ys[1..]);
      assert ys == [ys[0]] + ys[1..];
    }
  }

  /** In a strictly sorted list the head key is below every other key. */
  lemma HeadKeyIsLeast(xs: seq<Entry>)
    requires StrictlySorted(xs) && xs != []
    ensures forall k | k in Keys(xs[1..]) :: KeyLess(xs[0].0, k)
  {
    forall k | k in Keys(xs[1..]) ensures KeyLess(xs[0].0, k) {
      var e :| e in xs[1..] && e.0 == k;
      var i :| 0 <= i < |xs[1..]| && xs[1..][i] == e;
      assert xs[i + 1] == e;
    }
  }

  /** A key below the head of a strictly sorted list is below all its keys. */
  lemma BelowAll(h: string, ys: seq<Entry>)
    requires StrictlySorted(ys) && ys != [] && KeyLess(h, ys[0].0)
    ensures forall k | k in Keys(ys) :: KeyLess(h, k)
  {
    HeadKeyIsLeast(ys);
    assert ys == [ys[0]] + ys[1..];
    KeysOfCons(ys[0], ys[1..]);
    forall k | k in Keys(ys[1..]) ensures KeyLess(h, k) {
      KeyLessTransitive(h, ys[0].0, k);
    }
  }

  predicate KeysAscending(steps: seq<Step>)
  {
    forall i, j | 0 <= i < j < |steps| :: KeyLess(steps[i].key, steps[j].key)
  }

  lemma ConsAscending(s: Step, rest: seq<Step>, keys: set<string>)
    requires KeysAscending(rest)
    requires forall t | t in rest :: t.key in keys
    requires forall k | k in keys :: KeyLess(s.key, k)
    ensures KeysAscending([s] + rest)
  {
    var steps := [s] + rest;
    forall i, j | 0 <= i < j < |steps| ensures KeyLess(steps[i].key, steps[j].key) {
      assert steps[j] == rest[j - 1];
      if i > 0 {
        assert steps[i] == rest[i - 1];
      } else {
        assert steps[j] in rest;
      }
    }
  }

  /** Over two strictly sorted lists the walk visits keys in strictly
      ascending order, so no key is visited twice. */
  lemma {:induction false} StepKeysAscending(xs: seq<Entry>, ys: seq<Entry>)
    requires StrictlySorted(xs) && StrictlySorted(ys)
    ensures KeysAscending(MergeWalk(xs, ys))
    decreases |xs| + |ys|
  {
    if |xs| > 0 && |ys| > 0 && xs[0].0 == ys[0].0 {
      StepKeysAscending(xs[1..], ys[1..]);
      StepKeysFromInputs(xs[1..], ys[1..]);
      HeadKeyIsLeast(xs);
      HeadKeyIsLeast(ys);
      ConsAscending(Both(xs[0].0, xs[0].1, ys[0].1), MergeWalk(xs[1..], ys[1..]), Keys(xs[1..]) + Keys(ys[1..]));
    } else if |xs| > 0 && (|ys| == 0 || KeyLess(xs[0].0, ys[0].0)) {
      StepKeysAscending(xs[1..], ys);
      StepKeysFromInputs(xs[1..], ys);
      HeadKeyIsLeast(xs);
      if |ys| > 0 { BelowAll(xs[0].0, ys); }
      ConsAscending(OnlyA(xs[0].0, xs[0].1), MergeWalk(xs[1..], ys), Keys(xs[1..]) + Keys(ys));
    } else if |ys| > 0 {
      StepKeysAscending(xs, ys[1..]);
      StepKeysFromInputs(xs, ys[1..]);
      HeadKeyIsLeast(ys);
      if |xs| > 0 {
        KeyLessTotal(xs[0].0, ys[0].0);
        BelowAll(ys[0].0, xs);
      }
      ConsAscending(OnlyB(ys[0].0, ys[0].1), MergeWalk(xs, ys[1..]), Keys(xs) + Keys(ys[1..]));
    }
  }

  /** A key below every key of a list is not one of its keys. */
  lemma NotAKey(h: string, ys: seq<Entry>)
    requires forall k | k in Keys(ys) :: KeyLess(h, k)
    ensures h !in Keys(ys)
  {
    KeyLessIrreflexive(h);
  }

  lemma SplitHead(xs: seq<Entry>)
    requires StrictlySorted(xs) && xs != []
    ensures xs == [xs[0]] + xs[1..]
    ensures StrictlySorted(xs[1..])
    ensures Keys(xs) == {xs[0].0} + Keys(xs[1..])
    ensures xs[0].0 !in Keys(xs[1..])
    ensures forall e | e in xs :: e == xs[0] || e in xs[1..]
  {
    assert xs == [xs[0]] + xs[1..];
    KeysOfCons(xs[0], xs[1..]);
    HeadKeyIsLeast(xs);
    NotAKey(xs[0].0, xs[1..]);
    assert StrictlySorted(xs[1..]) by {
      forall i, j | 0 <= i < j < |xs[1..]| ensures KeyLess(xs[1..][i].0, xs[1..][j].0) {
        assert xs[1..][i] == xs[i + 1] && xs[1..][j] == xs[j + 1];
      }
    }
  }

  /** What the walk decides for each key, over two strictly sorted lists:
      a key only in `a` gets one `OnlyA` step with its value, a key only in
      `b` one `OnlyB` step, a key in both one `Both` step with both values. */
  lemma {:induction false} WalkClassifies(xs: seq<Entry>, ys: seq<Entry>, k: string, v: Value, w: Value)
    requires StrictlySorted(xs) && StrictlySorted(ys)
    ensures OnlyA(k, v) in MergeWalk(xs, ys) <==> (k, v) in xs && k !in Keys(ys)
    ensures OnlyB(k, w) in MergeWalk(xs, ys) <==> (k, w) in ys && k !in Keys(xs)
    ensures Both(k, v, w) in MergeWalk(xs, ys) <==> (k, v) in xs && (k, w) in ys
    decreases |xs| + |ys|
  {
    if |xs| > 0 && |ys| > 0 && xs[0].0 == ys[0].0 {
      SplitHead(xs);
      SplitHead(ys);
      WalkClassifies(xs[1..], ys[1..], k, v, w);
      if (k, v) in xs[1..] { assert k in Keys(xs[1..]); }
      if (k, w) in ys[1..] { assert k in Keys(ys[1..]); }
    } else if |xs| > 0 && (|ys| == 0 || KeyLess(xs[0].0, ys[0].0)) {
      SplitHead(xs);
      WalkClassifies(xs[1..], ys, k, v, w);
      if |ys| > 0 {
        BelowAll(xs[0].0, ys);
        NotAKey(xs[0].0, ys);
      }
      if (k, v) in xs[1..] { assert k in Keys(xs[1..]); }
    } else if |ys| > 0 {
      SplitHead(ys);
      WalkClassifies(xs, ys[1..], k, v, w);
      if |xs| > 0 {
        KeyLessTotal(xs[0].0, ys[0].0);
        BelowAll(ys[0].0, xs);
        NotAKey(ys[0].0, xs);
      }
      if (k, w) in ys[1..] { assert k in Keys(ys[1..]); }
    }
  }

  /** One unfolding of the walk, case by case. */
  lemma WalkUnfold(xs: seq<Entry>, ys: seq<Entry>)
    ensures |xs| > 0 && |ys| > 0 && xs[0].0 == ys[0].0 ==>
      MergeWalk(xs, ys) == [Both(xs[0].0, xs[0].1, ys[0].1)] + MergeWalk(xs[1..], ys[1..])
    ensures |xs| > 0 && (|ys| == 0 || (xs[0].0 != ys[0].0 && KeyLess(xs[0].0, ys[0].0))) ==>
      MergeWalk(xs, ys) == [OnlyA(xs[0].0, xs[0].1)] + MergeWalk(xs[1..], ys)
    ensures |ys| > 0 && (|xs| == 0 || (xs[0].0 != ys[0].0 && !KeyLess(xs[0].0, ys[0].0))) ==>
      MergeWalk(xs, ys) == [OnlyB(ys[0].0, ys[0].1)] + MergeWalk(xs, ys[1..])
    ensures |xs| == 0 && |ys| == 0 ==> MergeWalk(xs, ys) == []
  {
  }

  /** A step that consumes an `a` entry consumes one of `xs`; likewise `b`. */
  lemma {:induction false} StepEntriesFromInputs(xs: seq<Entry>, ys: seq<Entry>)
    ensures forall s | s in MergeWalk(xs, ys) && !s.OnlyB? :: (s.key, s.aVal) in xs
    ensures forall s | s in MergeWalk(xs, ys) && !s.OnlyA? :: (s.key, s.bVal) in ys
    decreases |xs| + |ys|
  {
    WalkUnfold(xs, ys);
    if |xs| > 0 && |ys| > 0 && xs[0].0 == ys[0].0 {
      StepEntriesFromInputs(xs[1..], ys[1..]);
    } else if |xs| > 0 && (|ys| == 0 || KeyLess(xs[0].0, ys[0].0)) {
      StepEntriesFromInputs(xs[1..], ys);
    } else if |ys| > 0 {
      StepEntriesFromInputs(xs, ys[1..]);
    }
  }

  /** Walking a list against itself pairs every entry with itself. */
  lemma {:induction false} WalkOfSelf(xs: seq<Entry>)
    ensures forall s | s in MergeWalk(xs, xs) :: s.Both? && s.aVal == s.bVal
    decreases |xs|
  {
    WalkUnfold(xs, xs);
    if xs != [] {
      WalkOfSelf(xs[1..]);
    }
  }
}
