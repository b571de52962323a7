/** The table merge loop as the library writes it, where the branch for
    equal keys appends the nested diff but advances neither cursor. The
    cursor moves, the `break` and the leftover handling follow the code; the
    nested call is modelled by the corrected diff `DiffEngine.DiffOf`, which
    is exact when the two sub-values are scalars (as in the one-key witness
    below) and otherwise stands for a call that, as written, itself never
    returns once its two tables share a key. The model shows that such a
    loop never reaches its `break` once two equal keys meet;
    `DiffEngine.MergeSorted` is the corrected loop, which advances both
    cursors. */
module AsWritten {
  import opened Toml
  import opened Merge
  import opened DiffEngine

  /** The loop's state between passes: both cursors, the changes collected
      so far, and whether the `break` has been taken. */
  datatype LoopState = LoopState(i: nat, j: nat, changes: seq<Change>, done: bool)

  /** One pass of the loop body over the sorted entries `xs` and `ys`. */
  function Pass(path: string, xs: seq<Entry>, ys: seq<Entry>, s: LoopState): (r: LoopState)
    requires s.i <= |xs| && s.j <= |ys|
    ensures r.i <= |xs| && r.j <= |ys|
    ensures s.done ==> r == s
    ensures !s.done && !(s.i < |xs| && s.j < |ys|) ==> r.done
    ensures !s.done && s.i < |xs| && s.j < |ys| && xs[s.i].0 != ys[s.j].0 ==> r.i + r.j == s.i + s.j + 1
    ensures !s.done && s.i < |xs| && s.j < |ys| && KeyLess(xs[s.i].0, ys[s.j].0) ==>
      r.i == s.i + 1 && r.j == s.j && r.changes == s.changes + [Added(xs[s.i].0, xs[s.i].1)]
    ensures !s.done && s.i < |xs| && s.j < |ys| && xs[s.i].0 != ys[s.j].0 && !KeyLess(xs[s.i].0, ys[s.j].0) ==>
      r.i == s.i && r.j == s.j + 1 && r.changes == s.changes + [Deleted(ys[s.j].0, ys[s.j].1)]
  {
    if s.done then s
    else if s.i < |xs| && s.j < |ys| then
      var (ka, va) := xs[s.i];
      var (kb, vb) := ys[s.j];
      if ka == kb then
        LoopState(s.i, s.j, s.changes + DiffOf(MemberPath(path, ka), va, vb), false)
      else if KeyLess(ka, kb) then
        LoopState(s.i + 1, s.j, s.changes + [Added(ka, va)], false)
      else
        LoopState(s.i, s.j + 1, s.changes + [Deleted(kb, vb)], false)
    else
      LoopState(s.i, s.j, s.changes + AddedAll(xs[s.i..]) + DeletedAll(ys[s.j..]), true)
  }

  /** The state after `n` passes. */
  function Run(path: string, xs: seq<Entry>, ys: seq<Entry>, s: LoopState, n: nat): (r: LoopState)
    requires s.i <= |xs| && s.j <= |ys|
    ensures r.i <= |xs| && r.j <= |ys|
    decreases n
  {
    if n == 0 then s else Run(path, xs, ys, Pass(path, xs, ys, s), n - 1)
  }

  /** `n` copies of `cs` back to back. */
  function Repeat(cs: seq<Change>, n: nat): (r: seq<Change>)
    ensures |r| == n * |cs|
  {
    if n == 0 then [] else cs + Repeat(cs, n - 1)
  }

  /** The equal-keys branch: the corrected nested diff is appended, nothing
      moves. */
  lemma PassOnEqualKeys(path: string, xs: seq<Entry>, ys: seq<Entry>, s: LoopState)
    requires s.i < |xs| && s.j < |ys| && xs[s.i].0 == ys[s.j].0 && !s.done
    ensures Pass(path, xs, ys, s)
      == LoopState(s.i, s.j, s.changes + DiffOf(MemberPath(path, xs[s.i].0), xs[s.i].1, ys[s.j].1), false)
  {
  }

  lemma RepeatCons(pre: seq<Change>, cs: seq<Change>, n: nat)
    requires n > 0
    ensures pre + cs + Repeat(cs, n - 1) == pre + Repeat(cs, n)
  {
  }

  /** Once the cursors rest on two equal keys, no number of passes moves
      them or takes the `break`; each pass only appends the same nested
      diff again. */
  lemma {:induction false} EqualKeysNeverAdvance(path: string, xs: seq<Entry>, ys: seq<Entry>, s: LoopState, n: nat)
    requires s.i < |xs| && s.j < |ys| && xs[s.i].0 == ys[s.j].0 && !s.done
    decreases n
    ensures var r := Run(path, xs, ys, s, n);
      r.i == s.i && r.j == s.j && !r.done
      && r.changes == s.changes + Repeat(DiffOf(MemberPath(path, xs[s.i].0), xs[s.i].1, ys[s.j].1), n)
  {
    if n > 0 {
      var d := DiffOf(MemberPath(path, xs[s.i].0), xs[s.i].1, ys[s.j].1);
      var next := LoopState(s.i, s.j, s.changes + d, false);
      PassOnEqualKeys(path, xs, ys, s);
      assert Run(path, xs, ys, s, n) == Run(path, xs, ys, next, n - 1);
      EqualKeysNeverAdvance(path, xs, ys, next, n - 1);
      RepeatCons(s.changes, d, n);
    }
  }

  /** The smallest input that shows it: comparing `{k = 1}` with itself.
      As written, after any number of passes the loop is still running with
      both cursors at the start and `n` copies of `Same` collected; the
      corrected diff of the same tables is a single `Same`. */
  lemma SameSingleKeyTableNeverFinishes(n: nat)
    ensures var xs := [("k", Integer(1))];
      var r := Run("", xs, xs, LoopState(0, 0, [], false), n);
      !r.done && r.i == 0 && r.j == 0 && r.changes == Repeat([Same], n)
    ensures DiffOf("", Table([("k", Integer(1))]), Table([("k", Integer(1))])) == [Same]
  {
    var xs := [("k", Integer(1))];
    EqualKeysNeverAdvance("", xs, xs, LoopState(0, 0, [], false), n);
    assert DiffOf(MemberPath("", "k"), Integer(1), Integer(1)) == [Same];
    assert [] + Repeat([Same], n) == Repeat([Same], n);
    var t := Table(xs);
    SortByKeyOfSorted(xs);
    TableDiffEmits("", t, t);
    assert TableSteps(t, t) == [Both("k", Integer(1), Integer(1))];
  }
}
