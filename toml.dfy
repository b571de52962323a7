/** The TOML value tree that the diff engine walks, the byte-wise order on
    table keys, and the sort of a table's entries by key.

    The tree comes from a parsing library; the engine only reads it. A
    float is modelled by a token naming its class under the library's
    float equality, so `0.0` and `-0.0` share one token; a datetime by the
    canonical text of its parsed date, time and offset fields, so two
    spellings of the same fields (`T` or a space between date and time)
    share one token. Comparing tokens is then the library's equality on
    these values, except for NaN, which is unequal to itself there. */
module Toml {

  /** One `key = value` pair of a table. */
  type Entry = (string, Value)

  datatype Value =
    | String(str: string)
    | Integer(num: int)
    | Float(token: nat)
    | Boolean(flag: bool)
    | Datetime(canonical: string)
    | Array(elems: seq<Value>)
    | Table(entries: seq<Entry>)

  /** Which of the seven TOML types a value is. */
  datatype Kind = StringKind | IntegerKind | FloatKind | BooleanKind | DatetimeKind | ArrayKind | TableKind

  function KindOf(v: Value): (k: Kind)
    ensures k == TableKind <==> v.Table?
    ensures k == ArrayKind <==> v.Array?
  {
    match v
    case String(_) => StringKind
    case Integer(_) => IntegerKind
    case Float(_) => FloatKind
    case Boolean(_) => BooleanKind
    case Datetime(_) => DatetimeKind
    case Array(_) => ArrayKind
    case Table(_) => TableKind
  }

  /** A value that is neither an array nor a table. */
  predicate Scalar(v: Value)
  {
    !v.Array? && !v.Table?
  }

  /** Rust's `Ord` on `str`: lexicographic on the UTF-8 bytes, which is the
      same as lexicographic on code points, with a proper prefix first. */
  predicate KeyLess(a: string, b: string): (r: bool)
    ensures r ==> a != b
  {
    if |a| == 0 then |b| > 0
    else |b| > 0 && (if a[0] == b[0] then KeyLess(a[1..], b[1..]) else a[0] < b[0])
  }

  predicate KeyLeq(a: string, b: string)
  {
    a == b || KeyLess(a, b)
  }

  lemma {:induction false} KeyLessIrreflexive(a: string)
    ensures !KeyLess(a, a)
  {
    if |a| > 0 {
      KeyLessIrreflexive(a[1..]);
    }
  }

  lemma {:induction false} KeyLessTransitive(a: string, b: string, c: string)
    requires KeyLess(a, b) && KeyLess(b, c)
    ensures KeyLess(a, c)
  {
    if |a| > 0 && a[0] == b[0] && b[0] == c[0] {
      KeyLessTransitive(a[1..], b[1..], c[1..]);
    }
  }

  lemma {:induction false} KeyLessTotal(a: string, b: string)
    ensures a == b || KeyLess(a, b) || KeyLess(b, a)
  {
    if |a| > 0 && |b| > 0 && a[0] == b[0] {
      KeyLessTotal(a[1..], b[1..]);
      if a[1..] == b[1..] {
        assert a == [a[0]] + a[1..] && b == [b[0]] + b[1..];
      }
    }
  }

  lemma KeyLessAsymmetric(a: string, b: string)
    requires KeyLess(a, b)
    ensures !KeyLess(b, a)
  {
    if KeyLess(b, a) {
      KeyLessTransitive(a, b, a);
      KeyLessIrreflexive(a);
    }
  }

  lemma KeyLeqTransitive(a: string, b: string, c: string)
    requires KeyLeq(a, b) && KeyLeq(b, c)
    ensures KeyLeq(a, c)
  {
    if a != b && b != c {
      KeyLessTransitive(a, b, c);
    }
  }

  /** The set of keys of a list of entries. */
  function Keys(es: seq<Entry>): set<string>
  {
    set e | e in es :: e.0
  }

  /** No key occurs twice: what a TOML table (a map) guarantees. */
  predicate DistinctKeys(es: seq<Entry>)
  {
    forall i, j :: 0 <= i < j < |es| ==> es[i].0 != es[j].0
  }

  predicate Sorted(es: seq<Entry>)
  {
    forall i, j :: 0 <= i < j < |es| ==> KeyLeq(es[i].0, es[j].0)
  }

  predicate StrictlySorted(es: seq<Entry>)
  {
    forall i, j :: 0 <= i < j < |es| ==> KeyLess(es[i].0, es[j].0)
  }

  /** Places `e` in front of the first entry whose key is not smaller. */
  function Insert(e: Entry, es: seq<Entry>): (r: seq<Entry>)
    requires Sorted(es)
    ensures Sorted(r)
    ensures multiset(r) == multiset(es) + multiset{e}
  {
    if es == [] || KeyLeq(e.0, es[0].0) then
      InsertFrontSorted(e, es);
      [e] + es
    else
      var rest := Insert(e, es[1..]);
      assert es == [es[0]] + es[1..];
      KeyLessTotal(e.0, es[0].0);
      InsertBehindSorted(e, es, rest);
      [es[0]] + rest
  }

  lemma InsertFrontSorted(e: Entry, es: seq<Entry>)
    requires Sorted(es)
    requires es == [] || KeyLeq(e.0, es[0].0)
    ensures Sorted([e] + es)
  {
    forall k | 0 <= k < |es| ensures KeyLeq(e.0, es[k].0) {
      if k > 0 { KeyLeqTransitive(e.0, es[0].0, es[k].0); }
    }
  }

  lemma InsertBehindSorted(e: Entry, es: seq<Entry>, rest: seq<Entry>)
    requires Sorted(es) && es != [] && KeyLess(es[0].0, e.0)
    requires Sorted(rest) && multiset(rest) == multiset(es[1..]) + multiset{e}
    ensures Sorted([es[0]] + rest)
  {
    forall k | 0 <= k < |rest| ensures KeyLeq(es[0].0, rest[k].0) {
      assert rest[k] in multiset(rest);
      if rest[k] != e {
        assert rest[k] in es[1..];
      }
    }
  }

  /** Entries with equal multisets have equal key sets. */
  lemma KeysOfPermutation(r: seq<Entry>, s: seq<Entry>)
    requires multiset(r) == multiset(s)
    ensures Keys(r) == Keys(s)
  {
    forall x | x in r ensures x in s { assert x in multiset(r); }
    forall x | x in s ensures x in r { assert x in multiset(s); }
  }

  lemma KeysOfCons(e: Entry, es: seq<Entry>)
    ensures Keys([e] + es) == {e.0} + Keys(es)
  {
    assert forall x | x in [e] + es :: x == e || x in es;
  }

  lemma HeadKeyNotInTail(es: seq<Entry>)
    requires DistinctKeys(es) && es != []
    ensures es[0].0 !in Keys(es[1..]) && DistinctKeys(es[1..])
  {
    forall x | x in es[1..] ensures x.0 != es[0].0 {
      var k :| 0 <= k < |es[1..]| && es[1..][k] == x;
      assert es[k + 1] == x;
    }
  }

  lemma DistinctCons(e: Entry, es: seq<Entry>)
    requires DistinctKeys(es) && e.0 !in Keys(es)
    ensures DistinctKeys([e] + es)
  {
    var r := [e] + es;
    forall i, j | 0 <= i < j < |r| ensures r[i].0 != r[j].0 {
      if i == 0 {
        assert r[j] in es;
      } else {
        assert r[i] == es[i - 1] && r[j] == es[j - 1];
      }
    }
  }

  lemma {:induction false} InsertKeepsDistinct(e: Entry, es: seq<Entry>)
    requires Sorted(es) && DistinctKeys(es) && e.0 !in Keys(es)
    ensures DistinctKeys(Insert(e, es))
  {
    if es == [] || KeyLeq(e.0, es[0].0) {
      DistinctCons(e, es);
    } else {
      assert es == [es[0]] + es[1..];
      KeysOfCons(es[0], es[1..]);
      HeadKeyNotInTail(es);
      InsertKeepsDistinct(e, es[1..]);
      var rest := Insert(e, es[1..]);
      KeysOfPermutation(rest, [e] + es[1..]);
      KeysOfCons(e, es[1..]);
      DistinctCons(es[0], rest);
    }
  }

  /** The `sort_by_key(|e| e.0)` of a table's collected entries: insertion
      sort, stable like the library's. */
  function SortByKey(es: seq<Entry>): (r: seq<Entry>)
    ensures Sorted(r)
    ensures multiset(r) == multiset(es)
  {
    if es == [] then []
    else
      assert es == [es[0]] + es[1..];
      Insert(es[0], SortByKey(es[1..]))
  }

  /** On a table, whose keys are distinct, the sorted entries are in strictly
      ascending key order and have the table's key set. */
  lemma {:induction false} SortByKeyOfTable(es: seq<Entry>)
    requires DistinctKeys(es)
    ensures Keys(SortByKey(es)) == Keys(es)
    ensures StrictlySorted(SortByKey(es))
  {
    var r := SortByKey(es);
    KeysOfPermutation(r, es);
    if es != [] {
      assert es == [es[0]] + es[1..];
      SortByKeyOfTable(es[1..]);
      var rest := SortByKey(es[1..]);
      KeysOfPermutation(rest, es[1..]);
      HeadKeyNotInTail(es);
      assert DistinctKeys(rest) by {
        forall i, j | 0 <= i < j < |rest| ensures rest[i].0 != rest[j].0 {
          assert KeyLess(rest[i].0, rest[j].0);
          KeyLessIrreflexive(rest[i].0);
        }
      }
      InsertKeepsDistinct(es[0], rest);
      forall i, j | 0 <= i < j < |r| ensures KeyLess(r[i].0, r[j].0) {
        assert r[i].0 != r[j].0;
      }
    }
  }

  /** Sorting a list that is already in key order changes nothing. */
  lemma {:induction false} SortByKeyOfSorted(es: seq<Entry>)
    requires Sorted(es)
    ensures SortByKey(es) == es
  {
    if es != [] {
      SortByKeyOfSorted(es[1..]);
      assert es == [es[0]] + es[1..];
    }
  }

  /** `v` is `w` itself or sits somewhere inside it. */
  ghost predicate SubValue(v: Value, w: Value)
    decreases w
  {
    v == w
    || (w.Array? && exists i :: 0 <= i < |w.elems| && SubValue(v, w.elems[i]))
    || (w.Table? && exists i :: 0 <= i < |w.entries| && SubValue(v, w.entries[i].1))
  }
}
