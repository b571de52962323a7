/** The documents of the library's test scenarios and the reports its tests
    expect. The values the expected reports do not show are left as
    parameters. */
module Examples {
  import opened Toml
  import opened Merge
  import opened DiffEngine
  import opened Display

  // ---------------------------------------------------------------------
  // Walking lists written out entry by entry

  lemma WalkBoth(x: Entry, xs: seq<Entry>, y: Entry, ys: seq<Entry>)
    requires x.0 == y.0
    ensures MergeWalk([x] + xs, [y] + ys) == [Both(x.0, x.1, y.1)] + MergeWalk(xs, ys)
  {
    assert ([x] + xs)[1..] == xs && ([y] + ys)[1..] == ys;
    WalkUnfold([x] + xs, [y] + ys);
  }

  lemma WalkOnlyA(x: Entry, xs: seq<Entry>, ys: seq<Entry>)
    requires ys == [] || (x.0 != ys[0].0 && KeyLess(x.0, ys[0].0))
    ensures MergeWalk([x] + xs, ys) == [OnlyA(x.0, x.1)] + MergeWalk(xs, ys)
  {
    assert ([x] + xs)[1..] == xs;
    WalkUnfold([x] + xs, ys);
  }

  lemma WalkOnlyB(xs: seq<Entry>, y: Entry, ys: seq<Entry>)
    requires xs == [] || (xs[0].0 != y.0 && !KeyLess(xs[0].0, y.0))
    ensures MergeWalk(xs, [y] + ys) == [OnlyB(y.0, y.1)] + MergeWalk(xs, ys)
  {
    assert ([y] + ys)[1..] == ys;
    WalkUnfold(xs, [y] + ys);
  }

  /** Builds `Sorted` of a list from its last entry forwards. */
  lemma {:induction false} SortedFromBack(es: seq<Entry>)
    requires forall k | 0 <= k < |es| - 1 :: KeyLeq(es[k].0, es[k + 1].0)
    ensures Sorted(es)
    decreases |es|
  {
    if es != [] {
      SortedFromBack(es[1..]);
      assert es == [es[0]] + es[1..];
      InsertFrontSorted(es[0], es[1..]);
    }
  }

  /** A diff of two tables listed in key order walks the lists as given. */
  lemma SortedTableDiff(path: string, a: Value, b: Value)
    requires a.Table? && b.Table? && Sorted(a.entries) && Sorted(b.entries)
    ensures BothFrom(a, MergeWalk(a.entries, b.entries))
    ensures DiffOf(path, a, b) == EmitSteps(path, a, MergeWalk(a.entries, b.entries))
  {
    SortByKeyOfSorted(a.entries);
    SortByKeyOfSorted(b.entries);
    TableDiffEmits(path, a, b);
  }

  /** The change a step yields when matched keys hold equal scalars. */
  function FlatChange(s: Step): Change
  {
    match s
    case OnlyA(k, v) => Added(k, v)
    case OnlyB(k, w) => Deleted(k, w)
    case Both(_, _, _) => Same
  }

  /** When every matched key holds the same scalar on both sides, each step
      of the walk yields exactly one change. */
  lemma {:induction false} EmitEqualScalars(path: string, a: Value, s: Step, rest: seq<Step>)
    requires a.Table? && BothFrom(a, [s] + rest)
    requires s.Both? ==> s.aVal == s.bVal && !s.aVal.Table? && !s.aVal.Array?
    ensures BothFrom(a, rest)
    ensures EmitSteps(path, a, [s] + rest) == [FlatChange(s)] + EmitSteps(path, a, rest)
  {
    EmitCons(path, a, s, rest);
    if s.Both? {
      ScalarChanges(MemberPath(path, s.key), s.aVal, s.bVal);
    }
  }

  lemma Nested6(c0: Change, c1: Change, c2: Change, c3: Change, c4: Change, c5: Change)
    ensures [c0] + ([c1] + ([c2] + ([c3] + ([c4] + ([c5] + []))))) == [c0, c1, c2, c3, c4, c5]
  {
  }

  // ---------------------------------------------------------------------
  // Scalars (the scenario of test.rs lines 6-14)

  /** The newer document: keys `a`, `b`, `d`, `e`, `f`. */
  function ScalarsNew(va: Value, vb: Value, vd: Value, ve: Value, vf: Value): Value
  {
    Table([("a", va), ("b", vb), ("d", vd), ("e", ve), ("f", vf)])
  }

  /** The older document: keys `a`, `c`, `d`. */
  function ScalarsOld(va: Value, vc: Value, vd: Value): Value
  {
    Table([("a", va), ("c", vc), ("d", vd)])
  }

  lemma ScalarsSorted(va: Value, vb: Value, vc: Value, vd: Value, ve: Value, vf: Value)
    ensures Sorted(ScalarsNew(va, vb, vd, ve, vf).entries) && Sorted(ScalarsOld(va, vc, vd).entries)
  {
    assert KeyLess("a", "b") && KeyLess("b", "d") && KeyLess("d", "e") && KeyLess("e", "f");
    assert KeyLess("a", "c") && KeyLess("c", "d");
    SortedFromBack(ScalarsNew(va, vb, vd, ve, vf).entries);
    SortedFromBack(ScalarsOld(va, vc, vd).entries);
  }

  lemma ScalarsWalk(va: Value, vb: Value, vc: Value, vd: Value, ve: Value, vf: Value)
    ensures MergeWalk(ScalarsNew(va, vb, vd, ve, vf).entries, ScalarsOld(va, vc, vd).entries)
      == [Both("a", va, va)] + ([OnlyA("b", vb)] + ([OnlyB("c", vc)] + ([Both("d", vd, vd)] + ([OnlyA("e", ve)] + [OnlyA("f", vf)]))))
  {
    var x4 := [("f", vf)];
    var x3 := [("e", ve)] + x4;
    var x2 := [("d", vd)] + x3;
    var x1 := [("b", vb)] + x2;
    var x0 := [("a", va)] + x1;
    var y2 := [("d", vd)];
    var y1 := [("c", vc)] + y2;
    var y0 := [("a", va)] + y1;
    assert x0 == ScalarsNew(va, vb, vd, ve, vf).entries;
    assert y0 == ScalarsOld(va, vc, vd).entries;
    assert KeyLess("b", "c") && !KeyLess("d", "c");
    WalkOnlyA(("f", vf), [], []);
    WalkOnlyA(("e", ve), x4, []);
    WalkBoth(("d", vd), x3, ("d", vd), []);
    WalkOnlyB(x2, ("c", vc), y2);
    WalkOnlyA(("b", vb), x2, y1);
    WalkBoth(("a", va), x1, ("a", va), y1);
    assert MergeWalk([], []) == [];
  }

  lemma ScalarsDiffIsWalk(va: Value, vb: Value, vc: Value, vd: Value, ve: Value, vf: Value)
    ensures var steps :=
        [Both("a", va, va)] + ([OnlyA("b", vb)] + ([OnlyB("c", vc)] + ([Both("d", vd, vd)] + ([OnlyA("e", ve)] + [OnlyA("f", vf)]))));
      BothFrom(ScalarsNew(va, vb, vd, ve, vf), steps)
      && DiffOf("", ScalarsNew(va, vb, vd, ve, vf), ScalarsOld(va, vc, vd)) == EmitSteps("", ScalarsNew(va, vb, vd, ve, vf), steps)
  {
    ScalarsSorted(va, vb, vc, vd, ve, vf);
    SortedTableDiff("", ScalarsNew(va, vb, vd, ve, vf), ScalarsOld(va, vc, vd));
    ScalarsWalk(va, vb, vc, vd, ve, vf);
  }

  /** The last four steps of the scalars walk, one change each. */
  lemma ScalarsTailChanges(a: Value, vc: Value, vd: Value, ve: Value, vf: Value)
    requires a.Table? && !vd.Table? && !vd.Array?
    requires BothFrom(a, [OnlyB("c", vc)] + ([Both("d", vd, vd)] + ([OnlyA("e", ve)] + [OnlyA("f", vf)])))
    ensures EmitSteps("", a, [OnlyB("c", vc)] + ([Both("d", vd, vd)] + ([OnlyA("e", ve)] + [OnlyA("f", vf)])))
      == [Deleted("c", vc)] + ([Same] + ([Added("e", ve)] + ([Added("f", vf)] + [])))
  {
    var s5 := [OnlyA("f", vf)];
    var s4 := [OnlyA("e", ve)] + s5;
    var s3 := [Both("d", vd, vd)] + s4;
    EmitEqualScalars("", a, OnlyB("c", vc), s3);
    EmitEqualScalars("", a, Both("d", vd, vd), s4);
    EmitEqualScalars("", a, OnlyA("e", ve), s5);
    EmitEqualScalars("", a, OnlyA("f", vf), []);
    assert EmitSteps("", a, []) == [];
  }

  /** The whole scalars walk, one change per step, over any table `a`. */
  lemma ScalarsStepChanges(a: Value, va: Value, vb: Value, vc: Value, vd: Value, ve: Value, vf: Value)
    requires a.Table? && !va.Table? && !va.Array? && !vd.Table? && !vd.Array?
    requires BothFrom(a, [Both("a", va, va)] + ([OnlyA("b", vb)] + ([OnlyB("c", vc)] + ([Both("d", vd, vd)] + ([OnlyA("e", ve)] + [OnlyA("f", vf)])))))
    ensures EmitSteps("", a, [Both("a", va, va)] + ([OnlyA("b", vb)] + ([OnlyB("c", vc)] + ([Both("d", vd, vd)] + ([OnlyA("e", ve)] + [OnlyA("f", vf)])))))
      == [Same, Added("b", vb), Deleted("c", vc), Same, Added("e", ve), Added("f", vf)]
  {
    var s2 := [OnlyB("c", vc)] + ([Both("d", vd, vd)] + ([OnlyA("e", ve)] + [OnlyA("f", vf)]));
    var s1 := [OnlyA("b", vb)] + s2;
    EmitEqualScalars("", a, Both("a", va, va), s1);
    EmitEqualScalars("", a, OnlyA("b", vb), s2);
    ScalarsTailChanges(a, vc, vd, ve, vf);
    Nested6(Same, Added("b", vb), Deleted("c", vc), Same, Added("e", ve), Added("f", vf));
  }

  /** Keys on both sides holding equal scalars give `Same`; the others are
      reported in ascending key order, interleaved across the two
      documents. */
  lemma ScalarsChanges(va: Value, vb: Value, vc: Value, vd: Value, ve: Value, vf: Value)
    requires !va.Table? && !va.Array? && !vd.Table? && !vd.Array?
    ensures DiffOf("", ScalarsNew(va, vb, vd, ve, vf), ScalarsOld(va, vc, vd))
      == [Same, Added("b", vb), Deleted("c", vc), Same, Added("e", ve), Added("f", vf)]
  {
    ScalarsDiffIsWalk(va, vb, vc, vd, ve, vf);
    ScalarsStepChanges(ScalarsNew(va, vb, vd, ve, vf), va, vb, vc, vd, ve, vf);
  }

  // ---------------------------------------------------------------------
  // Reports written out change by change

  lemma RenderCons(c: Change, rest: seq<Change>, ser: Value -> string)
    requires !c.Changed? && NoChanged(rest)
    ensures NoChanged([c] + rest)
    ensures Render(TomlDiff([c] + rest), ser) == Text(Lines([c], ser)) + Render(TomlDiff(rest), ser)
  {
    assert NoChanged([c]);
    RenderConcat([c], rest, ser);
  }

  /** The one line of an added or deleted string. */
  lemma StringChangeText(c: Change, ser: Value -> string)
    requires (c.Added? || c.Deleted?) && c.val.String?
    ensures Text(Lines([c], ser)) == (if c.Added? then "+ " else "- ") + c.key + " = \"" + c.val.str + "\"\n"
  {
    LinesOfOne(c, ser);
  }

  lemma JoinSix(t0: string, t1: string, t2: string, t3: string, t4: string, t5: string)
    requires t0 == "" && t3 == ""
    ensures t0 + (t1 + (t2 + (t3 + (t4 + (t5 + ""))))) == t1 + t2 + t4 + t5
  {
  }

  lemma StringsLineB(ser: Value -> string)
    ensures Text(Lines([Added("b", String("def"))], ser)) == "+ b = \"def\"\n"
  {
    StringChangeText(Added("b", String("def")), ser);
  }

  lemma StringsLineC(ser: Value -> string)
    ensures Text(Lines([Deleted("c", String("ghi"))], ser)) == "- c = \"ghi\"\n"
  {
    StringChangeText(Deleted("c", String("ghi")), ser);
  }

  lemma StringsLineE(ser: Value -> string)
    ensures Text(Lines([Added("e", String("mno"))], ser)) == "+ e = \"mno\"\n"
  {
    StringChangeText(Added("e", String("mno")), ser);
  }

  lemma StringsLineF(ser: Value -> string)
    ensures Text(Lines([Added("f", String("pqr"))], ser)) == "+ f = \"pqr\"\n"
  {
    StringChangeText(Added("f", String("pqr")), ser);
  }

  lemma JoinPairs(a: string, b: string, c: string, d: string, ab: string, cd: string)
    requires a + b == ab && c + d == cd
    ensures a + b + c + d == ab + cd
  {
  }

  lemma StringsJoinFront()
    ensures "+ b = \"def\"\n" + "- c = \"ghi\"\n" == "+ b = \"def\"\n- c = \"ghi\"\n"
  {
  }

  lemma StringsJoinBack()
    ensures "+ e = \"mno\"\n" + "+ f = \"pqr\"\n" == "+ e = \"mno\"\n+ f = \"pqr\"\n"
  {
  }

  lemma StringsJoinHalves()
    ensures "+ b = \"def\"\n- c = \"ghi\"\n" + "+ e = \"mno\"\n+ f = \"pqr\"\n" == "+ b = \"def\"\n- c = \"ghi\"\n+ e = \"mno\"\n+ f = \"pqr\"\n"
  {
  }

  lemma StringsJoin()
    ensures "+ b = \"def\"\n" + "- c = \"ghi\"\n" + "+ e = \"mno\"\n" + "+ f = \"pqr\"\n"
      == "+ b = \"def\"\n- c = \"ghi\"\n+ e = \"mno\"\n+ f = \"pqr\"\n"
  {
    StringsJoinFront();
    StringsJoinBack();
    StringsJoinHalves();
    JoinPairs("+ b = \"def\"\n", "- c = \"ghi\"\n", "+ e = \"mno\"\n", "+ f = \"pqr\"\n", "+ b = \"def\"\n- c = \"ghi\"\n", "+ e = \"mno\"\n+ f = \"pqr\"\n");
  }

  lemma StringsText(ser: Value -> string)
    ensures NoChanged([Same, Added("b", String("def")), Deleted("c", String("ghi")), Same, Added("e", String("mno")), Added("f", String("pqr"))])
    ensures Render(TomlDiff([Same, Added("b", String("def")), Deleted("c", String("ghi")), Same, Added("e", String("mno")), Added("f", String("pqr"))]), ser)
      == "+ b = \"def\"\n- c = \"ghi\"\n+ e = \"mno\"\n+ f = \"pqr\"\n"
  {
    var cb, cc, ce, cf := Added("b", String("def")), Deleted("c", String("ghi")), Added("e", String("mno")), Added("f", String("pqr"));
    Nested6(Same, cb, cc, Same, ce, cf);
    var r5 := [cf] + [];
    var r4 := [ce] + r5;
    var r3 := [Same] + r4;
    var r2 := [cc] + r3;
    var r1 := [cb] + r2;
    assert Render(TomlDiff([]), ser) == "";
    LinesOfOne(Same, ser);
    RenderCons(cf, [], ser);
    RenderCons(ce, r5, ser);
    RenderCons(Same, r4, ser);
    RenderCons(cc, r3, ser);
    RenderCons(cb, r2, ser);
    RenderCons(Same, r1, ser);
    StringsLineB(ser);
    StringsLineC(ser);
    StringsLineE(ser);
    StringsLineF(ser);
    JoinSix(Text(Lines([Same], ser)), "+ b = \"def\"\n", "- c = \"ghi\"\n", Text(Lines([Same], ser)),
      "+ e = \"mno\"\n", "+ f = \"pqr\"\n");
    StringsJoin();
  }

  /** The report the scalar scenario's test expects. */
  lemma StringsReport(ser: Value -> string)
    ensures var d := DiffOf("", ScalarsNew(String("abc"), String("def"), String("jkl"), String("mno"), String("pqr")),
                                ScalarsOld(String("abc"), String("ghi"), String("jkl")));
      NoChanged(d) && Render(TomlDiff(d), ser) == "+ b = \"def\"\n- c = \"ghi\"\n+ e = \"mno\"\n+ f = \"pqr\"\n"
  {
    ScalarsChanges(String("abc"), String("def"), String("ghi"), String("jkl"), String("mno"), String("pqr"));
    StringsText(ser);
  }

  // ---------------------------------------------------------------------
  // Arrays (the scenario of test.rs lines 16-25)

  /** The newer document: key `a` only. */
  function ArraysNew(va: Value): Value
  {
    Table([("a", va)])
  }

  /** The older document: keys `c`, `e`, `f`. */
  function ArraysOld(vc: Value, ve: Value, vf: Value): Value
  {
    Table([("c", vc), ("e", ve), ("f", vf)])
  }

  lemma Nested4(c0: Change, c1: Change, c2: Change, c3: Change)
    ensures [c0] + ([c1] + ([c2] + ([c3] + []))) == [c0, c1, c2, c3]
  {
  }

  lemma ArraysSorted(va: Value, vc: Value, ve: Value, vf: Value)
    ensures Sorted(ArraysNew(va).entries) && Sorted(ArraysOld(vc, ve, vf).entries)
  {
    assert KeyLess("c", "e") && KeyLess("e", "f");
    SortedFromBack(ArraysNew(va).entries);
    SortedFromBack(ArraysOld(vc, ve, vf).entries);
  }

  lemma ArraysDiffIsWalk(va: Value, vc: Value, ve: Value, vf: Value)
    ensures var steps := [OnlyA("a", va)] + ([OnlyB("c", vc)] + ([OnlyB("e", ve)] + [OnlyB("f", vf)]));
      BothFrom(ArraysNew(va), steps)
      && DiffOf("", ArraysNew(va), ArraysOld(vc, ve, vf)) == EmitSteps("", ArraysNew(va), steps)
  {
    ArraysSorted(va, vc, ve, vf);
    SortedTableDiff("", ArraysNew(va), ArraysOld(vc, ve, vf));
    ArraysWalk(va, vc, ve, vf);
  }

  lemma ArraysWalk(va: Value, vc: Value, ve: Value, vf: Value)
    ensures MergeWalk(ArraysNew(va).entries, ArraysOld(vc, ve, vf).entries)
      == [OnlyA("a", va)] + ([OnlyB("c", vc)] + ([OnlyB("e", ve)] + [OnlyB("f", vf)]))
  {
    var xs, ys := ArraysNew(va).entries, ArraysOld(vc, ve, vf).entries;
    assert KeyLess("a", "c");
    var y2 := [("f", vf)];
    var y1 := [("e", ve)] + y2;
    var y0 := [("c", vc)] + y1;
    assert ys == y0;
    assert xs == [("a", va)] + [];
    WalkOnlyB([], ("f", vf), []);
    WalkOnlyB([], ("e", ve), y2);
    WalkOnlyB([], ("c", vc), y1);
    WalkOnlyA(("a", va), [], y0);
    assert MergeWalk([], []) == [];
  }

  /** The arrays walk, one change per step, over any table `a`. */
  lemma ArraysStepChanges(a: Value, va: Value, vc: Value, ve: Value, vf: Value)
    requires a.Table? && BothFrom(a, [OnlyA("a", va)] + ([OnlyB("c", vc)] + ([OnlyB("e", ve)] + [OnlyB("f", vf)])))
    ensures EmitSteps("", a, [OnlyA("a", va)] + ([OnlyB("c", vc)] + ([OnlyB("e", ve)] + [OnlyB("f", vf)])))
      == [Added("a", va), Deleted("c", vc), Deleted("e", ve), Deleted("f", vf)]
  {
    var s3 := [OnlyB("f", vf)];
    var s2 := [OnlyB("e", ve)] + s3;
    var s1 := [OnlyB("c", vc)] + s2;
    EmitEqualScalars("", a, OnlyA("a", va), s1);
    EmitEqualScalars("", a, OnlyB("c", vc), s2);
    EmitEqualScalars("", a, OnlyB("e", ve), s3);
    EmitEqualScalars("", a, OnlyB("f", vf), []);
    assert EmitSteps("", a, []) == [];
    Nested4(Added("a", va), Deleted("c", vc), Deleted("e", ve), Deleted("f", vf));
  }

  lemma ArraysChanges(va: Value, vc: Value, ve: Value, vf: Value)
    ensures DiffOf("", ArraysNew(va), ArraysOld(vc, ve, vf))
      == [Added("a", va), Deleted("c", vc), Deleted("e", ve), Deleted("f", vf)]
  {
    ArraysDiffIsWalk(va, vc, ve, vf);
    ArraysStepChanges(ArraysNew(va), va, vc, ve, vf);
  }

  /** The one line of an added or deleted value that is neither a string
      nor a table: the serializer's text after the key. */
  lemma ValueChangeText(c: Change, ser: Value -> string)
    requires (c.Added? || c.Deleted?) && !c.val.String? && !c.val.Table?
    ensures Text(Lines([c], ser)) == (if c.Added? then "+ " else "- ") + c.key + " = " + ser(c.val) + "\n"
  {
    LinesOfOne(c, ser);
  }

  function Ints(x: int, y: int, z: int): Value
  {
    Array([Integer(x), Integer(y), Integer(z)])
  }

  lemma ArraysLineA(ser: Value -> string)
    requires ser(Ints(1, 2, 3)) == "[1, 2, 3]"
    ensures Text(Lines([Added("a", Ints(1, 2, 3))], ser)) == "+ a = [1, 2, 3]\n"
  {
    ValueChangeText(Added("a", Ints(1, 2, 3)), ser);
  }

  lemma ArraysLineC(ser: Value -> string)
    requires ser(Ints(3, 4, 5)) == "[3, 4, 5]"
    ensures Text(Lines([Deleted("c", Ints(3, 4, 5))], ser)) == "- c = [3, 4, 5]\n"
  {
    ValueChangeText(Deleted("c", Ints(3, 4, 5)), ser);
  }

  lemma ArraysLineE(ser: Value -> string)
    requires ser(Ints(5, 6, 7)) == "[5, 6, 7]"
    ensures Text(Lines([Deleted("e", Ints(5, 6, 7))], ser)) == "- e = [5, 6, 7]\n"
  {
    ValueChangeText(Deleted("e", Ints(5, 6, 7)), ser);
  }

  lemma ArraysLineF(ser: Value -> string)
    requires ser(Ints(6, 7, 8)) == "[6, 7, 8]"
    ensures Text(Lines([Deleted("f", Ints(6, 7, 8))], ser)) == "- f = [6, 7, 8]\n"
  {
    ValueChangeText(Deleted("f", Ints(6, 7, 8)), ser);
  }

  lemma JoinFour(t0: string, t1: string, t2: string, t3: string)
    ensures t0 + (t1 + (t2 + (t3 + ""))) == t0 + t1 + t2 + t3
  {
  }

  lemma ArraysJoinFront()
    ensures "+ a = [1, 2, 3]\n" + "- c = [3, 4, 5]\n" == "+ a = [1, 2, 3]\n- c = [3, 4, 5]\n"
  {
  }

  lemma ArraysJoinBack()
    ensures "- e = [5, 6, 7]\n" + "- f = [6, 7, 8]\n" == "- e = [5, 6, 7]\n- f = [6, 7, 8]\n"
  {
  }

  lemma ArraysJoinHalves()
    ensures "+ a = [1, 2, 3]\n- c = [3, 4, 5]\n" + "- e = [5, 6, 7]\n- f = [6, 7, 8]\n" == "+ a = [1, 2, 3]\n- c = [3, 4, 5]\n- e = [5, 6, 7]\n- f = [6, 7, 8]\n"
  {
  }

  lemma ArraysJoin()
    ensures "+ a = [1, 2, 3]\n" + "- c = [3, 4, 5]\n" + "- e = [5, 6, 7]\n" + "- f = [6, 7, 8]\n"
      == "+ a = [1, 2, 3]\n- c = [3, 4, 5]\n- e = [5, 6, 7]\n- f = [6, 7, 8]\n"
  {
    ArraysJoinFront();
    ArraysJoinBack();
    ArraysJoinHalves();
    JoinPairs("+ a = [1, 2, 3]\n", "- c = [3, 4, 5]\n", "- e = [5, 6, 7]\n", "- f = [6, 7, 8]\n", "+ a = [1, 2, 3]\n- c = [3, 4, 5]\n", "- e = [5, 6, 7]\n- f = [6, 7, 8]\n");
  }

  /** The report the array scenario's test expects, for any serializer
      that writes these arrays as TOML does. */
  lemma ArraysReport(ser: Value -> string)
    requires ser(Ints(1, 2, 3)) == "[1, 2, 3]" && ser(Ints(3, 4, 5)) == "[3, 4, 5]"
    requires ser(Ints(5, 6, 7)) == "[5, 6, 7]" && ser(Ints(6, 7, 8)) == "[6, 7, 8]"
    ensures var d := DiffOf("", ArraysNew(Ints(1, 2, 3)), ArraysOld(Ints(3, 4, 5), Ints(5, 6, 7), Ints(6, 7, 8)));
      NoChanged(d) && Render(TomlDiff(d), ser) == "+ a = [1, 2, 3]\n- c = [3, 4, 5]\n- e = [5, 6, 7]\n- f = [6, 7, 8]\n"
  {
    var ca, cc, ce, cf := Added("a", Ints(1, 2, 3)), Deleted("c", Ints(3, 4, 5)), Deleted("e", Ints(5, 6, 7)), Deleted("f", Ints(6, 7, 8));
    ArraysChanges(Ints(1, 2, 3), Ints(3, 4, 5), Ints(5, 6, 7), Ints(6, 7, 8));
    Nested4(ca, cc, ce, cf);
    var r3 := [cf] + [];
    var r2 := [ce] + r3;
    var r1 := [cc] + r2;
    assert Render(TomlDiff([]), ser) == "";
    RenderCons(cf, [], ser);
    RenderCons(ce, r3, ser);
    RenderCons(cc, r2, ser);
    RenderCons(ca, r1, ser);
    ArraysLineA(ser);
    ArraysLineC(ser);
    ArraysLineE(ser);
    ArraysLineF(ser);
    JoinFour("+ a = [1, 2, 3]\n", "- c = [3, 4, 5]\n", "- e = [5, 6, 7]\n", "- f = [6, 7, 8]\n");
    ArraysJoin();
  }

  // ---------------------------------------------------------------------
  // Tables (the scenario of test.rs lines 27-38)

  /** The newer document: key `b` only. */
  function TablesNew(vb: Value): Value
  {
    Table([("b", vb)])
  }

  /** The older document: key `c` only. */
  function TablesOld(vc: Value): Value
  {
    Table([("c", vc)])
  }

  lemma TablesChanges(vb: Value, vc: Value)
    ensures DiffOf("", TablesNew(vb), TablesOld(vc)) == [Added("b", vb), Deleted("c", vc)]
  {
    var a, b := TablesNew(vb), TablesOld(vc);
    SortedFromBack(a.entries);
    SortedFromBack(b.entries);
    SortedTableDiff("", a, b);
    assert KeyLess("b", "c");
    assert a.entries == [("b", vb)] + [] && b.entries == [("c", vc)] + [];
    WalkOnlyB([], ("c", vc), []);
    WalkOnlyA(("b", vb), [], [("c", vc)]);
    assert MergeWalk([], []) == [];
    EmitEqualScalars("", a, OnlyA("b", vb), [OnlyB("c", vc)]);
    EmitEqualScalars("", a, OnlyB("c", vc), []);
    assert EmitSteps("", a, []) == [];
  }

  /** A table of two string entries is written as its header line and one
      line per entry, all under the change's sign. */
  lemma TwoStringTableText(c: Change, k1: string, s1: string, k2: string, s2: string, ser: Value -> string)
    requires (c.Added? || c.Deleted?) && c.val == Table([(k1, String(s1)), (k2, String(s2))])
    ensures var sign := if c.Added? then '+' else '-';
      Text(Lines([c], ser))
      == HeaderLine(sign, c.key) + "\n" + StringLine(sign, k1, s1) + "\n" + StringLine(sign, k2, s2) + "\n"
  {
    var sign := if c.Added? then '+' else '-';
    var t := c.val;
    LinesOfOne(c, ser);
    assert t.entries[0] == (k1, String(s1)) && t.entries[1] == (k2, String(s2));
    assert EntriesLines(sign, t, 2, ser) == [];
    assert EntriesLines(sign, t, 1, ser) == [StringLine(sign, k2, s2)];
    assert EntriesLines(sign, t, 0, ser) == [StringLine(sign, k1, s1)] + [StringLine(sign, k2, s2)];
    var tail2 := [StringLine(sign, k2, s2)];
    var tail1 := [StringLine(sign, k1, s1)] + tail2;
    var lines := [HeaderLine(sign, c.key)] + tail1;
    assert ChangeLines(sign, c.key, t, ser) == lines;
    assert tail2[1..] == [] && tail1[1..] == tail2 && lines[1..] == tail1;
    assert Text(tail2) == StringLine(sign, k2, s2) + "\n" + "";
    assert Text(tail1) == StringLine(sign, k1, s1) + "\n" + Text(tail2);
    assert Text(lines) == HeaderLine(sign, c.key) + "\n" + Text(tail1);
  }

  function TableB(): Value
  {
    Table([("c", String("ghi")), ("d", String("jkl"))])
  }

  function TableC(): Value
  {
    Table([("e", String("nmo")), ("f", String("pqr"))])
  }

  lemma JoinLines(x: string, y: string, z: string, lx: string, ly: string, lz: string)
    requires x + "\n" == lx && y + "\n" == ly && z + "\n" == lz
    ensures x + "\n" + y + "\n" + z + "\n" == lx + ly + lz
  {
  }

  lemma TableBJoin()
    ensures "+ [b]\n" + "+ c = \"ghi\"\n" + "+ d = \"jkl\"\n" == "+ [b]\n+ c = \"ghi\"\n+ d = \"jkl\"\n"
  {
  }

  lemma TableBLines()
    ensures HeaderLine('+', "b") + "\n" == "+ [b]\n"
    ensures StringLine('+', "c", "ghi") + "\n" == "+ c = \"ghi\"\n"
    ensures StringLine('+', "d", "jkl") + "\n" == "+ d = \"jkl\"\n"
  {
  }

  lemma TableCJoin()
    ensures "- [c]\n" + "- e = \"nmo\"\n" + "- f = \"pqr\"\n" == "- [c]\n- e = \"nmo\"\n- f = \"pqr\"\n"
  {
  }

  lemma TableCLines()
    ensures HeaderLine('-', "c") + "\n" == "- [c]\n"
    ensures StringLine('-', "e", "nmo") + "\n" == "- e = \"nmo\"\n"
    ensures StringLine('-', "f", "pqr") + "\n" == "- f = \"pqr\"\n"
  {
  }

  lemma TablesTextB(ser: Value -> string)
    ensures Text(Lines([Added("b", TableB())], ser)) == "+ [b]\n+ c = \"ghi\"\n+ d = \"jkl\"\n"
  {
    TwoStringTableText(Added("b", TableB()), "c", "ghi", "d", "jkl", ser);
    TableBLines();
    TableBJoin();
    JoinLines(HeaderLine('+', "b"), StringLine('+', "c", "ghi"), StringLine('+', "d", "jkl"),
      "+ [b]\n", "+ c = \"ghi\"\n", "+ d = \"jkl\"\n");
  }

  lemma TablesTextC(ser: Value -> string)
    ensures Text(Lines([Deleted("c", TableC())], ser)) == "- [c]\n- e = \"nmo\"\n- f = \"pqr\"\n"
  {
    TwoStringTableText(Deleted("c", TableC()), "e", "nmo", "f", "pqr", ser);
    TableCLines();
    TableCJoin();
    JoinLines(HeaderLine('-', "c"), StringLine('-', "e", "nmo"), StringLine('-', "f", "pqr"),
      "- [c]\n", "- e = \"nmo\"\n", "- f = \"pqr\"\n");
  }

  lemma TablesJoin()
    ensures "+ [b]\n+ c = \"ghi\"\n+ d = \"jkl\"\n" + "- [c]\n- e = \"nmo\"\n- f = \"pqr\"\n"
      == "+ [b]\n+ c = \"ghi\"\n+ d = \"jkl\"\n- [c]\n- e = \"nmo\"\n- f = \"pqr\"\n"
  {
  }

  /** The report the table scenario's test expects. */
  lemma TablesReport(ser: Value -> string)
    ensures var d := DiffOf("", TablesNew(TableB()), TablesOld(TableC()));
      NoChanged(d) && Render(TomlDiff(d), ser) == "+ [b]\n+ c = \"ghi\"\n+ d = \"jkl\"\n- [c]\n- e = \"nmo\"\n- f = \"pqr\"\n"
  {
    var cb, cc := Added("b", TableB()), Deleted("c", TableC());
    TablesChanges(TableB(), TableC());
    assert [cb, cc] == [cb] + ([cc] + []);
    assert Render(TomlDiff([]), ser) == "";
    RenderCons(cc, [], ser);
    RenderCons(cb, [cc] + [], ser);
    TablesTextB(ser);
    TablesTextC(ser);
    TablesJoin();
  }

  // ---------------------------------------------------------------------
  // Nested tables (the scenario of test.rs lines 40-49)

  function Outer(inner: Value): Value
  {
    Table([("outer", inner)])
  }

  lemma InnerKeyOrder()
    ensures "inner_b" != "inner_c" && KeyLess("inner_b", "inner_c") && !KeyLess("inner_c", "inner_b")
  {
    assert "inner_b"[6] != "inner_c"[6];
    assert KeyLess("inner_b", "inner_c");
    KeyLessAsymmetric("inner_b", "inner_c");
  }

  lemma InnerWalk(vb: Value, vc: Value)
    ensures MergeWalk([("inner_c", vc)], [("inner_b", vb)]) == [OnlyB("inner_b", vb)] + [OnlyA("inner_c", vc)]
  {
    InnerKeyOrder();
    assert [("inner_c", vc)] == [("inner_c", vc)] + [] && [("inner_b", vb)] == [("inner_b", vb)] + [];
    WalkOnlyA(("inner_c", vc), [], []);
    WalkOnlyB([("inner_c", vc)] + [], ("inner_b", vb), []);
    assert MergeWalk([], []) == [];
  }

  lemma InnerEmit(path: string, a: Value, vb: Value, vc: Value)
    requires a.Table? && BothFrom(a, [OnlyB("inner_b", vb)] + [OnlyA("inner_c", vc)])
    ensures EmitSteps(path, a, [OnlyB("inner_b", vb)] + [OnlyA("inner_c", vc)])
      == [Deleted("inner_b", vb), Added("inner_c", vc)]
  {
    EmitEqualScalars(path, a, OnlyB("inner_b", vb), [OnlyA("inner_c", vc)]);
    EmitEqualScalars(path, a, OnlyA("inner_c", vc), []);
    assert EmitSteps(path, a, []) == [];
  }

  lemma InnerChanges(vb: Value, vc: Value)
    ensures DiffOf(".outer", Table([("inner_c", vc)]), Table([("inner_b", vb)]))
      == [Deleted("inner_b", vb), Added("inner_c", vc)]
  {
    var a, b := Table([("inner_c", vc)]), Table([("inner_b", vb)]);
    SortedFromBack(a.entries);
    SortedFromBack(b.entries);
    SortedTableDiff(".outer", a, b);
    InnerWalk(vb, vc);
    InnerEmit(".outer", a, vb, vc);
  }

  /** A document with one table under `outer` on each side diffs as the
      two inner values under the path `.outer`. */
  lemma OuterDiff(ia: Value, ib: Value)
    ensures DiffOf("", Outer(ia), Outer(ib)) == DiffOf(".outer", ia, ib)
  {
    var a, b := Outer(ia), Outer(ib);
    SortedFromBack(a.entries);
    SortedFromBack(b.entries);
    SortedTableDiff("", a, b);
    assert a.entries == [("outer", ia)] + [] && b.entries == [("outer", ib)] + [];
    WalkBoth(("outer", ia), [], ("outer", ib), []);
    assert MergeWalk([], []) == [];
    EmitCons("", a, Both("outer", ia, ib), []);
    assert MemberPath("", "outer") == ".outer";
    assert EmitSteps("", a, []) == [];
  }

  /** Entries missing inside a matched table are labelled with their bare
      key: the walk passes the matched key's path down, but `Added` and
      `Deleted` carry only the entry's own key, so the report heads them
      `[inner_b]` and `[inner_c]` rather than with the `outer.` prefix the
      test expects. */
  lemma NestedTablesUseBareKeys(vb: Value, vc: Value)
    ensures DiffOf("", Outer(Table([("inner_c", vc)])), Outer(Table([("inner_b", vb)])))
      == [Deleted("inner_b", vb), Added("inner_c", vc)]
  {
    OuterDiff(Table([("inner_c", vc)]), Table([("inner_b", vb)]));
    InnerChanges(vb, vc);
  }

  /** The inner tables of the nested scenario's documents. */
  function InnerB(): Value
  {
    Table([("b", Integer(2))])
  }

  function InnerC(): Value
  {
    Table([("c", Integer(3))])
  }

  /** A table of one serialized value renders as its header and that one
      line. */
  lemma OneValueTableText(c: Change, k: string, v: Value, ser: Value -> string)
    requires (c.Added? || c.Deleted?) && c.val == Table([(k, v)]) && !v.String? && !v.Table?
    ensures var sign := if c.Added? then '+' else '-';
      Text(Lines([c], ser)) == HeaderLine(sign, c.key) + "\n" + ValueLine(sign, k, ser(v)) + "\n"
  {
    var sign := if c.Added? then '+' else '-';
    var t := c.val;
    LinesOfOne(c, ser);
    assert t.entries[0] == (k, v);
    assert EntriesLines(sign, t, 1, ser) == [];
    assert EntriesLines(sign, t, 0, ser) == [ValueLine(sign, k, ser(v))];
    var tail := [ValueLine(sign, k, ser(v))];
    var lines := [HeaderLine(sign, c.key)] + tail;
    assert ChangeLines(sign, c.key, t, ser) == lines;
    assert tail[1..] == [] && lines[1..] == tail;
    assert Text(tail) == ValueLine(sign, k, ser(v)) + "\n" + "";
    assert Text(lines) == HeaderLine(sign, c.key) + "\n" + Text(tail);
  }

  lemma NestedLinesB()
    ensures HeaderLine('-', "inner_b") + "\n" == "- [inner_b]\n"
    ensures ValueLine('-', "b", "2") + "\n" == "- b = 2\n"
  {
  }

  lemma NestedLinesC()
    ensures HeaderLine('+', "inner_c") + "\n" == "+ [inner_c]\n"
    ensures ValueLine('+', "c", "3") + "\n" == "+ c = 3\n"
  {
  }

  lemma NestedJoin()
    ensures "- [inner_b]\n" + "- b = 2\n" + ("+ [inner_c]\n" + "+ c = 3\n" + "")
      == "- [inner_b]\n- b = 2\n+ [inner_c]\n+ c = 3\n"
  {
  }

  lemma NestedTextB(ser: Value -> string)
    requires ser(Integer(2)) == "2"
    ensures Text(Lines([Deleted("inner_b", InnerB())], ser)) == "- [inner_b]\n" + "- b = 2\n"
  {
    OneValueTableText(Deleted("inner_b", InnerB()), "b", Integer(2), ser);
    NestedLinesB();
  }

  lemma NestedTextC(ser: Value -> string)
    requires ser(Integer(3)) == "3"
    ensures Text(Lines([Added("inner_c", InnerC())], ser)) == "+ [inner_c]\n" + "+ c = 3\n"
  {
    OneValueTableText(Added("inner_c", InnerC()), "c", Integer(3), ser);
    NestedLinesC();
  }

  lemma NestedText(ser: Value -> string)
    requires ser(Integer(2)) == "2" && ser(Integer(3)) == "3"
    ensures var d := [Deleted("inner_b", InnerB()), Added("inner_c", InnerC())];
      NoChanged(d) && Render(TomlDiff(d), ser) == "- [inner_b]\n- b = 2\n+ [inner_c]\n+ c = 3\n"
  {
    var cb, cc := Deleted("inner_b", InnerB()), Added("inner_c", InnerC());
    assert [cb, cc] == [cb] + ([cc] + []);
    assert Render(TomlDiff([]), ser) == "";
    RenderCons(cc, [], ser);
    RenderCons(cb, [cc] + [], ser);
    NestedTextB(ser);
    NestedTextC(ser);
    NestedJoin();
  }

  /** The report of the nested scenario: the inner tables are headed by
      their bare keys, `[inner_b]` and `[inner_c]`, not by the
      `[outer.inner_b]` and `[outer.inner_c]` the test expects. */
  lemma NestedReport(ser: Value -> string)
    requires ser(Integer(2)) == "2" && ser(Integer(3)) == "3"
    ensures var d := DiffOf("", Outer(Table([("inner_c", InnerC())])), Outer(Table([("inner_b", InnerB())])));
      NoChanged(d) && Render(TomlDiff(d), ser) == "- [inner_b]\n- b = 2\n+ [inner_c]\n+ c = 3\n"
  {
    NestedTablesUseBareKeys(InnerB(), InnerC());
    NestedText(ser);
  }

  // ---------------------------------------------------------------------
  // A string holding a newline

  /** A string value is written between quotes without escaping, so a
      newline inside it splits the `writeln!` line in two, and the second
      physical line carries no sign. */
  lemma EmbeddedNewlineLeavesUnsignedLine(ser: Value -> string)
    ensures Render(TomlDiff([Added("k", String("x\ny"))]), ser) == "+ k = \"x\ny\"\n"
  {
    var c := Added("k", String("x\ny"));
    var line := StringLine('+', "k", "x\ny");
    RenderCons(c, [], ser);
    assert [c] + [] == [c];
    assert Render(TomlDiff([]), ser) == "";
    LinesOfOne(c, ser);
    assert ChangeLines('+', "k", String("x\ny"), ser) == [line];
    assert Text([line]) == line + "\n" + "";
    EmbeddedNewlineLine();
  }

  lemma EmbeddedNewlineLine()
    ensures StringLine('+', "k", "x\ny") + "\n" + "" == "+ k = \"x\ny\"\n"
  {
  }
}
