/** The text report: every `Added` change becomes lines prefixed with `+`,
    every `Deleted` change lines prefixed with `-`, and `Same` nothing. A
    string is written in double quotes, a table as a `[key]` header followed
    by its entries, and any other value through the value serializer, which
    belongs to the parsing library and is a parameter here. */
module Display {
  import opened Toml
  import opened DiffEngine

  /** A line written under `prefix` starts with the prefix and a space. */
  predicate Prefixed(line: string, prefix: char)
  {
    |line| >= 2 && line[0] == prefix && line[1] == ' '
  }

  /** `<prefix> <key> = "<s>"`: one physical line unless the key or the
      string itself holds a newline, which is written unescaped. */
  function StringLine(prefix: char, key: string, s: string): (r: string)
    ensures Prefixed(r, prefix)
    ensures '\n' in r <==> prefix == '\n' || '\n' in key || '\n' in s
  {
    [prefix] + " " + key + " = \"" + s + "\""
  }

  /** `<prefix> [<key>]` */
  function HeaderLine(prefix: char, key: string): (r: string)
    ensures Prefixed(r, prefix)
    ensures '\n' in r <==> prefix == '\n' || '\n' in key
  {
    [prefix] + " [" + key + "]"
  }

  /** `<prefix> <key> = <serialized>`: one physical line unless the key or
      the serializer's text holds a newline. */
  function ValueLine(prefix: char, key: string, serialized: string): (r: string)
    ensures Prefixed(r, prefix)
    ensures '\n' in r <==> prefix == '\n' || '\n' in key || '\n' in serialized
  {
    [prefix] + " " + key + " = " + serialized
  }

  /** The lines `format_change` writes for `key = v`, without their
      newlines. */
  function ChangeLines(prefix: char, key: string, v: Value, ser: Value -> string): (r: seq<string>)
    ensures |r| > 0
    ensures forall line | line in r :: Prefixed(line, prefix)
    decreases v, 1
  {
    match v
    case String(s) => [StringLine(prefix, key, s)]
    case Table(_) =>
      var rest := EntriesLines(prefix, v, 0, ser);
      assert forall k | 0 <= k < |rest| :: ([HeaderLine(prefix, key)] + rest)[k + 1] == rest[k];
      [HeaderLine(prefix, key)] + rest
    case _ => [ValueLine(prefix, key, ser(v))]
  }

  /** The lines of the entries of table `t` from the `i`-th on, each under
      its own key. */
  function EntriesLines(prefix: char, t: Value, i: nat, ser: Value -> string): (r: seq<string>)
    requires t.Table?
    ensures forall line | line in r :: Prefixed(line, prefix)
    decreases t, 0, |t.entries| - i
  {
    if i < |t.entries| then
      var e := t.entries[i];
      assert e in t.entries;
      ChangeLines(prefix, e.0, e.1, ser) + EntriesLines(prefix, t, i + 1, ser)
    else []
  }

  /** No change is a `Changed`: rendering one is not implemented. */
  predicate NoChanged(cs: seq<Change>)
  {
    forall c | c in cs :: !c.Changed?
  }

  /** The lines `fmt` writes for a list of changes. */
  function Lines(cs: seq<Change>, ser: Value -> string): seq<string>
    requires NoChanged(cs)
  {
    if cs == [] then []
    else
      var head :=
        match cs[0]
        case Added(k, v) => ChangeLines('+', k, v, ser)
        case Deleted(k, v) => ChangeLines('-', k, v, ser)
        case _ => [];
      head + Lines(cs[1..], ser)
  }

  /** Each line followed by a newline, as `writeln!` writes it. */
  function Text(lines: seq<string>): (r: string)
    ensures |r| >= |lines|
    ensures r == "" <==> lines == []
    ensures lines != [] ==> r[|r| - 1] == '\n'
  {
    if lines == [] then "" else lines[0] + "\n" + Text(lines[1..])
  }

  /** The whole report for a diff. */
  function Render(d: TomlDiff, ser: Value -> string): (r: string)
    requires NoChanged(d.changes)
    ensures r != "" ==> r[|r| - 1] == '\n'
  {
    Text(Lines(d.changes, ser))
  }

  // ---------------------------------------------------------------------
  // The formatter the report is written to

  /** The sink `writeln!` appends to. */
  class Formatter {
    var out: string

    constructor ()
      ensures out == ""
    {
      out := "";
    }

    method WriteLine(line: string)
      modifies this
      ensures out == old(out) + line + "\n"
    {
      out := out + line + "\n";
    }
  }

  lemma {:induction false} TextConcat(xs: seq<string>, ys: seq<string>)
    ensures Text(xs + ys) == Text(xs) + Text(ys)
  {
    if xs == [] {
      assert xs + ys == ys;
    } else {
      assert (xs + ys)[1..] == xs[1..] + ys;
      assert (xs + ys)[0] == xs[0];
      TextConcat(xs[1..], ys);
    }
  }

  /** Splitting the text of a table's remaining entries at the `i`-th. */
  lemma EntriesTextStep(prefix: char, t: Value, i: nat, ser: Value -> string)
    requires t.Table? && i < |t.entries|
    ensures Text(EntriesLines(prefix, t, i, ser))
         == Text(ChangeLines(prefix, t.entries[i].0, t.entries[i].1, ser)) + Text(EntriesLines(prefix, t, i + 1, ser))
  {
    TextConcat(ChangeLines(prefix, t.entries[i].0, t.entries[i].1, ser), EntriesLines(prefix, t, i + 1, ser));
  }

  lemma StringAssoc(x: string, y: string, z: string)
    ensures x + y + z == x + (y + z)
  {
  }

  /** `format_change`: writes `key = v` under `prefix`, a table as its
      header and then each of its entries. */
  method FormatChange(f: Formatter, prefix: char, key: string, v: Value, ser: Value -> string)
    modifies f
    ensures f.out == old(f.out) + Text(ChangeLines(prefix, key, v, ser))
    decreases v, 1
  {
    if v.String? {
      f.WriteLine(StringLine(prefix, key, v.str));
    } else if v.Table? {
      f.WriteLine(HeaderLine(prefix, key));
      FormatEntries(f, prefix, v, ser);
      TextConcat([HeaderLine(prefix, key)], EntriesLines(prefix, v, 0, ser));
    } else {
      f.WriteLine(ValueLine(prefix, key, ser(v)));
    }
  }

  /** The `for (key, val) in table` loop of `format_change`. */
  method FormatEntries(f: Formatter, prefix: char, t: Value, ser: Value -> string)
    requires t.Table?
    modifies f
    ensures f.out == old(f.out) + Text(EntriesLines(prefix, t, 0, ser))
    decreases t, 0
  {
    for i := 0 to |t.entries|
      invariant f.out + Text(EntriesLines(prefix, t, i, ser)) == old(f.out) + Text(EntriesLines(prefix, t, 0, ser))
    {
      var (k, w) := t.entries[i];
      assert t.entries[i] in t.entries;
      ghost var before := f.out;
      FormatChange(f, prefix, k, w, ser);
      EntriesTextStep(prefix, t, i, ser);
      StringAssoc(before, Text(ChangeLines(prefix, k, w, ser)), Text(EntriesLines(prefix, t, i + 1, ser)));
    }
  }

  lemma {:induction false} LinesConcat(xs: seq<Change>, ys: seq<Change>, ser: Value -> string)
    requires NoChanged(xs) && NoChanged(ys)
    ensures NoChanged(xs + ys)
    ensures Lines(xs + ys, ser) == Lines(xs, ser) + Lines(ys, ser)
  {
    if xs == [] {
      assert xs + ys == ys;
    } else {
      assert (xs + ys)[1..] == xs[1..] + ys;
      assert (xs + ys)[0] == xs[0];
      LinesConcat(xs[1..], ys, ser);
    }
  }

  lemma LinesOfOne(c: Change, ser: Value -> string)
    requires !c.Changed?
    ensures c.Same? ==> Lines([c], ser) == []
    ensures c.Added? ==> Lines([c], ser) == ChangeLines('+', c.key, c.val, ser)
    ensures c.Deleted? ==> Lines([c], ser) == ChangeLines('-', c.key, c.val, ser)
  {
    assert [c][1..] == [];
  }

  /** One arm of the `match` in `fmt`. */
  method FormatOne(f: Formatter, c: Change, ser: Value -> string)
    requires !c.Changed?
    modifies f
    ensures f.out == old(f.out) + Text(Lines([c], ser))
  {
    LinesOfOne(c, ser);
    if c.Added? {
      FormatChange(f, '+', c.key, c.val, ser);
    } else if c.Deleted? {
      FormatChange(f, '-', c.key, c.val, ser);
    }
  }

  lemma TextOfPrefixStep(base: string, cs: seq<Change>, i: nat, ser: Value -> string)
    requires i < |cs| && NoChanged(cs)
    ensures NoChanged(cs[..i]) && NoChanged(cs[..i + 1]) && !cs[i].Changed?
    ensures base + Text(Lines(cs[..i], ser)) + Text(Lines([cs[i]], ser)) == base + Text(Lines(cs[..i + 1], ser))
  {
    assert cs[i] in cs;
    assert cs[..i + 1] == cs[..i] + [cs[i]];
    LinesConcat(cs[..i], [cs[i]], ser);
    TextConcat(Lines(cs[..i], ser), Lines([cs[i]], ser));
  }

  /** `fmt`: writes every change of the diff in order. */
  method Fmt(d: TomlDiff, f: Formatter, ser: Value -> string)
    requires NoChanged(d.changes)
    modifies f
    ensures f.out == old(f.out) + Render(d, ser)
  {
    var cs := d.changes;
    for i := 0 to |cs|
      invariant f.out == old(f.out) + Text(Lines(cs[..i], ser))
    {
      TextOfPrefixStep(old(f.out), cs, i, ser);
      FormatOne(f, cs[i], ser);
    }
    assert cs[..|cs|] == cs;
  }

  /** `to_string` of a diff: the report written to an empty formatter. */
  method ToText(d: TomlDiff, ser: Value -> string) returns (s: string)
    requires NoChanged(d.changes)
    ensures s == Render(d, ser)
  {
    var f := new Formatter();
    Fmt(d, f, ser);
    s := f.out;
  }

  // ---------------------------------------------------------------------
  // Properties of the report

  /** The report of a concatenation is the concatenation of the reports. */
  lemma RenderConcat(xs: seq<Change>, ys: seq<Change>, ser: Value -> string)
    requires NoChanged(xs) && NoChanged(ys)
    ensures NoChanged(xs + ys)
    ensures Render(TomlDiff(xs + ys), ser) == Render(TomlDiff(xs), ser) + Render(TomlDiff(ys), ser)
  {
    LinesConcat(xs, ys, ser);
    TextConcat(Lines(xs, ser), Lines(ys, ser));
  }

  /** Every line of the report starts with `+ ` or `- `; the lines of an
      `Added` change with `+ `, those of a `Deleted` change with `- `. */
  lemma {:induction false} LinesSigned(cs: seq<Change>, ser: Value -> string)
    requires NoChanged(cs)
    ensures forall line | line in Lines(cs, ser) :: Prefixed(line, '+') || Prefixed(line, '-')
    ensures (forall c | c in cs :: c.Same? || c.Added?) ==> forall line | line in Lines(cs, ser) :: Prefixed(line, '+')
    ensures (forall c | c in cs :: c.Same? || c.Deleted?) ==> forall line | line in Lines(cs, ser) :: Prefixed(line, '-')
  {
    if cs != [] {
      assert cs[0] in cs;
      LinesSigned(cs[1..], ser);
    }
  }

  /** A change list renders to nothing exactly when all of it is `Same`. */
  lemma {:induction false} EmptyReportIffOnlySame(cs: seq<Change>, ser: Value -> string)
    requires NoChanged(cs)
    ensures Render(TomlDiff(cs), ser) == "" <==> OnlySame(cs)
  {
    if cs != [] {
      assert cs[0] in cs;
      EmptyReportIffOnlySame(cs[1..], ser);
      if cs[0].Same? {
        assert Lines(cs, ser) == Lines(cs[1..], ser);
        assert forall c | c in cs :: c == cs[0] || c in cs[1..];
        assert forall c | c in cs[1..] :: c in cs;
      } else {
        assert Lines(cs, ser) != [];
      }
    }
  }

  /** The number of lines `format_change` writes for a value: one, plus for
      a table the lines of each of its entries. */
  function LineCount(v: Value): nat
    decreases v, 1
  {
    if v.Table? then 1 + EntriesLineCount(v, 0) else 1
  }

  function EntriesLineCount(t: Value, i: nat): nat
    requires t.Table?
    decreases t, 0, |t.entries| - i
  {
    if i < |t.entries| then
      assert t.entries[i] in t.entries;
      LineCount(t.entries[i].1) + EntriesLineCount(t, i + 1)
    else 0
  }

  /** How many lines a value takes depends on its shape only, not on the
      prefix, the key or the serializer. */
  lemma {:induction false} ChangeLinesCount(prefix: char, key: string, v: Value, ser: Value -> string)
    ensures |ChangeLines(prefix, key, v, ser)| == LineCount(v)
    decreases v, 1
  {
    if v.Table? {
      EntriesLinesCount(prefix, v, 0, ser);
    }
  }

  lemma {:induction false} EntriesLinesCount(prefix: char, t: Value, i: nat, ser: Value -> string)
    requires t.Table?
    ensures |EntriesLines(prefix, t, i, ser)| == EntriesLineCount(t, i)
    decreases t, 0, |t.entries| - i
  {
    if i < |t.entries| {
      assert t.entries[i] in t.entries;
      ChangeLinesCount(prefix, t.entries[i].0, t.entries[i].1, ser);
      EntriesLinesCount(prefix, t, i + 1, ser);
    }
  }

  /** The diff never produces a `Changed`, so every diff can be rendered. */
  lemma DiffIsRenderable(path: string, a: Value, b: Value)
    ensures NoChanged(DiffOf(path, a, b))
  {
    DiffDrawsFromInputs(path, a, b);
  }

  /** Comparing a document with itself yields an empty report. */
  lemma IdenticalDocumentsRenderEmpty(x: Value, ser: Value -> string)
    ensures NoChanged(DiffOf("", x, x))
    ensures Render(TomlDiff(DiffOf("", x, x)), ser) == ""
  {
    DiffOfSelf("", x);
    EmptyReportIffOnlySame(DiffOf("", x, x), ser);
  }
}
