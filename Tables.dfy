/** The two converters between a nested dict `{row name: {column name:
    value}}` and a 2-D table whose first row is a header and whose first
    column holds the row names (interface.py:72-208). */
module Tables {
  import opened Outcomes
  import opened Keys

  /** A table cell or dict value: Python's `None`, a string or a number. */
  datatype Cell = Null | Text(s: string) | Num(x: real)

  /** A row of the table handed to `table_to_dict`: a list of cells, or
      some other value that is not a list. */
  datatype Line = Row(cells: seq<Cell>) | Other(v: Cell)

  /** A nested dict: its outer keys in insertion order and its contents.
      The inner dicts' order plays no part in either converter. */
  datatype Nested<K(==)> = Nested(order: seq<K>, rows: map<K, map<K, Cell>>)

  // ---------------------------------------------------------------------
  // Python's ordering of strings, and `sorted` over a set of them

  /** `a < b` on Python strings: lexicographic by code point, a proper
      prefix first. */
  predicate Before(a: string, b: string)
    decreases |a|
  {
    |b| > 0 && (|a| == 0 || a[0] < b[0] || (a[0] == b[0] && Before(a[1..], b[1..])))
  }

  lemma {:induction false} BeforeIrreflexive(a: string)
    ensures !Before(a, a)
    decreases |a|
  {
    if |a| > 0 {
      BeforeIrreflexive(a[1..]);
    }
  }

  lemma {:induction false} BeforeTransitive(a: string, b: string, c: string)
    requires Before(a, b) && Before(b, c)
    ensures Before(a, c)
    decreases |a|
  {
    if |a| > 0 && a[0] == b[0] && b[0] == c[0] {
      BeforeTransitive(a[1..], b[1..], c[1..]);
    }
  }

  lemma {:induction false} BeforeTotal(a: string, b: string)
    ensures a == b || Before(a, b) || Before(b, a)
    decreases |a|
  {
    if |a| > 0 && |b| > 0 && a[0] == b[0] {
      BeforeTotal(a[1..], b[1..]);
      if a[1..] == b[1..] {
        assert a == [a[0]] + a[1..] && b == [b[0]] + b[1..];
      }
    }
  }

  /** Two distinct strings are always ordered one way or the other. */
  lemma BeforeTotalAll()
    ensures forall a, b :: a == b || Before(a, b) || Before(b, a)
  {
    forall a, b
      ensures a == b || Before(a, b) || Before(b, a)
    {
      BeforeTotal(a, b);
    }
  }

  /** `s` is strictly increasing. */
  predicate Ascending(s: seq<string>)
  {
    forall p, q :: 0 <= p < q < |s| ==> Before(s[p], s[q])
  }

  predicate IsLeast(m: string, s: set<string>)
  {
    m in s && forall x :: x in s ==> !Before(x, m)
  }

  lemma {:induction false} LeastExists(s: set<string>)
    requires s != {}
    ensures exists m :: IsLeast(m, s)
    decreases s
  {
    var x :| x in s;
    if s - {x} == {} {
      assert s == {x};
      BeforeIrreflexive(x);
      assert IsLeast(x, s);
    } else {
      LeastExists(s - {x});
      var m :| IsLeast(m, s - {x});
      if Before(x, m) {
        forall y | y in s
          ensures !Before(y, x)
        {
          if y != x && Before(y, x) {
            BeforeTransitive(y, x, m);
          }
          BeforeIrreflexive(x);
        }
        assert IsLeast(x, s);
      } else {
        assert IsLeast(m, s);
      }
    }
  }

  /** `sorted(s)` for a set of strings: its members in ascending order,
      each once. */
  function SortedSet(s: set<string>): (r: seq<string>)
    ensures Ascending(r) && |r| == |s|
    ensures forall x :: x in r <==> x in s
    decreases s
  {
    if s == {} then []
    else
      LeastExists(s);
      BeforeTotalAll();
      var m :| IsLeast(m, s);
      var rest := SortedSet(s - {m});
      assert forall q :: 0 <= q < |rest| ==> Before(m, rest[q]) by {
        forall q | 0 <= q < |rest|
          ensures Before(m, rest[q])
        {
          assert rest[q] in s - {m};
        }
      }
      [m] + rest
  }

  /** An ascending sequence has no duplicates. */
  lemma AscendingNoDuplicates(s: seq<string>)
    requires Ascending(s)
    ensures NoDuplicates(s)
  {
    forall p, q | 0 <= p < q < |s|
      ensures s[p] != s[q]
    {
      BeforeIrreflexive(s[p]);
    }
  }

  // ---------------------------------------------------------------------
  // `dict_to_table`

  function Texts(s: seq<string>): (r: seq<Cell>)
    ensures |r| == |s| && forall i :: 0 <= i < |s| ==> r[i] == Text(s[i])
  {
    seq(|s|, i requires 0 <= i < |s| => Text(s[i]))
  }

  /** `row_dict.get(col, "")`. */
  function Lookup(inner: map<string, Cell>, col: string): Cell
  {
    if col in inner then inner[col] else Text("")
  }

  /** A table row: the row name, then the row's value under each column,
      `""` where it has none. */
  function RowOf(name: string, cols: seq<string>, inner: map<string, Cell>): seq<Cell>
  {
    [Text(name)] + seq(|cols|, j requires 0 <= j < |cols| => Lookup(inner, cols[j]))
  }

  /** The header row `[""] + cols`, then one row per name. */
  function Grid(names: seq<string>, cols: seq<string>, rows: map<string, map<string, Cell>>): seq<seq<Cell>>
    requires forall n :: n in names ==> n in rows
  {
    [[Text("")] + Texts(cols)] + seq(|names|, i requires 0 <= i < |names| => RowOf(names[i], cols, rows[names[i]]))
  }

  /** Every inner key of the dict. */
  function HeaderSet(rows: map<string, map<string, Cell>>): set<string>
  {
    set n, h | n in rows && h in rows[n] :: h
  }

  /** The table `dict_to_table` builds: nothing for an empty dict; in the
      symmetric layout the outer keys, in order, both down the side and
      across the top; in the standard layout the outer keys sorted down
      the side and the sorted inner keys across the top. */
  function Layout(d: Nested<string>, symmetric: bool): seq<seq<Cell>>
    requires Lists(d.order, d.rows.Keys)
  {
    if d.order == [] then []
    else if symmetric then Grid(d.order, d.order, d.rows)
    else Grid(SortedSet(d.rows.Keys), SortedSet(HeaderSet(d.rows)), d.rows)
  }

  /** Builds one row, column by column. */
  method FillRow(name: string, cols: seq<string>, inner: map<string, Cell>) returns (row: seq<Cell>)
    ensures row == RowOf(name, cols, inner)
  {
    row := [Text(name)];
    var j := 0;
    while j < |cols|
      invariant 0 <= j <= |cols|
      invariant row == [Text(name)] + seq(j, c requires 0 <= c < j => Lookup(inner, cols[c]))
    {
      var value := if cols[j] in inner then inner[cols[j]] else Text("");
      row := row + [value];
      j := j + 1;
    }
  }

  /** Appends one row per name under the header. */
  method FillGrid(names: seq<string>, cols: seq<string>, rows: map<string, map<string, Cell>>) returns (t: seq<seq<Cell>>)
    requires forall n :: n in names ==> n in rows
    ensures t == Grid(names, cols, rows)
  {
    t := [[Text("")] + Texts(cols)];
    var i := 0;
    while i < |names|
      invariant 0 <= i <= |names|
      invariant t == [[Text("")] + Texts(cols)] + seq(i, k requires 0 <= k < i => RowOf(names[k], cols, rows[names[k]]))
    {
      var row := FillRow(names[i], cols, rows[names[i]]);
      t := t + [row];
      i := i + 1;
    }
  }

  /** `dict_to_table`. */
  method DictToTable(d: Nested<string>, symmetric: bool) returns (t: seq<seq<Cell>>)
    requires Lists(d.order, d.rows.Keys)
    ensures t == Layout(d, symmetric)
  {
    if d.order == [] {
      return [];
    }
    if symmetric {
      t := FillGrid(d.order, d.order, d.rows);
    } else {
      var allHeaders := CollectHeaders(d);
      t := FillGrid(SortedSet(d.rows.Keys), SortedSet(allHeaders), d.rows);
    }
  }

  /** The header loop of the standard layout: the union of the inner
      dicts' keys, row by row. */
  method CollectHeaders(d: Nested<string>) returns (allHeaders: set<string>)
    requires Lists(d.order, d.rows.Keys)
    ensures allHeaders == HeaderSet(d.rows)
  {
    allHeaders := {};
    var i := 0;
    while i < |d.order|
      invariant 0 <= i <= |d.order|
      invariant allHeaders == set k, h | 0 <= k < i && h in d.rows[d.order[k]] :: h
    {
      allHeaders := allHeaders + d.rows[d.order[i]].Keys;
      i := i + 1;
    }
    forall h | h in HeaderSet(d.rows)
      ensures h in allHeaders
    {
      var n :| n in d.rows && h in d.rows[n];
      var k :| 0 <= k < |d.order| && d.order[k] == n;
    }
  }

  /** An empty dict, and only an empty dict, becomes an empty table. */
  lemma EmptyLayout(d: Nested<string>, symmetric: bool)
    requires Lists(d.order, d.rows.Keys)
    ensures Layout(d, symmetric) == [] <==> d.rows == map[]
  {
    if d.rows != map[] {
      var k :| k in d.rows;
      assert k in d.order;
    }
    if d.order != [] {
      assert d.order[0] in d.rows;
    }
  }

  /** A grid has a header row of `[""]` and the columns, then one row per
      name of the columns' length plus one, holding the name and then the
      row's value under each column, `""` where it has none. */
  lemma GridShape(names: seq<string>, cols: seq<string>, rows: map<string, map<string, Cell>>)
    requires forall n :: n in names ==> n in rows
    ensures var t := Grid(names, cols, rows);
      |t| == |names| + 1 && t[0] == [Text("")] + Texts(cols) &&
      (forall i :: 1 <= i < |t| ==> |t[i]| == |cols| + 1 && t[i][0] == Text(names[i - 1])) &&
      (forall i, j :: 1 <= i < |t| && 1 <= j <= |cols| ==>
        var inner := rows[names[i - 1]];
        t[i][j] == if cols[j - 1] in inner then inner[cols[j - 1]] else Text(""))
  {
  }

  /** The symmetric layout of `n` keys is an (n+1)×(n+1) grid: `[""]` and
      the keys across the top, the keys down the first column, and in row
      `i`, column `j` the value of key `i` under key `j`, `""` if it has
      none. */
  lemma SymmetricShape(d: Nested<string>)
    requires Lists(d.order, d.rows.Keys) && d.order != []
    ensures var t, n := Layout(d, true), |d.order|;
      |t| == n + 1 && (forall i :: 0 <= i <= n ==> |t[i]| == n + 1) &&
      t[0][0] == Text("") && (forall j :: 1 <= j <= n ==> t[0][j] == Text(d.order[j - 1])) &&
      (forall i :: 1 <= i <= n ==> t[i][0] == Text(d.order[i - 1])) &&
      (forall i, j :: 1 <= i <= n && 1 <= j <= n ==>
        var inner := d.rows[d.order[i - 1]];
        t[i][j] == if d.order[j - 1] in inner then inner[d.order[j - 1]] else Text(""))
  {
    GridShape(d.order, d.order, d.rows);
  }

  /** The standard layout: `[""]` then every inner key once, ascending,
      across the top; every outer key once, ascending, down the side; and
      each row's value under each column, `""` where it has none. */
  lemma StandardShape(d: Nested<string>)
    requires Lists(d.order, d.rows.Keys) && d.order != []
    ensures var t := Layout(d, false);
      var cols, names := SortedSet(HeaderSet(d.rows)), SortedSet(d.rows.Keys);
      Ascending(cols) && (forall h :: h in cols <==> exists n :: n in d.rows && h in d.rows[n]) &&
      Ascending(names) && (forall n :: n in names <==> n in d.rows) &&
      t[0] == [Text("")] + Texts(cols) &&
      |t| == |names| + 1 &&
      (forall i :: 1 <= i < |t| ==> |t[i]| == |cols| + 1 && t[i][0] == Text(names[i - 1])) &&
      (forall i, j :: 1 <= i < |t| && 1 <= j <= |cols| ==>
        var inner := d.rows[names[i - 1]];
        t[i][j] == if cols[j - 1] in inner then inner[cols[j - 1]] else Text(""))
  {
    var cols := SortedSet(HeaderSet(d.rows));
    GridShape(SortedSet(d.rows.Keys), cols, d.rows);
    forall h
      ensures h in cols <==> exists n :: n in d.rows && h in d.rows[n]
    {
      if h in cols {
        assert h in HeaderSet(d.rows);
      }
    }
  }

  // ---------------------------------------------------------------------
  // `table_to_dict`

  /** `float(cell)`: a number stays a number; a string becomes the number
      `parse` reads from it, or stays as it is when `parse` reads none.
      `parse` stands for Python's float parser. */
  function Float(c: Cell, parse: string -> Option<real>): Cell
  {
    match c
    case Text(s) => if parse(s).Some? then Num(parse(s).value) else c
    case _ => c
  }

  /** A cell `table_to_dict` skips: `None` or `""`. */
  predicate Blank(c: Cell)
  {
    c == Null || c == Text("")
  }

  function Min(a: int, b: int): int
  {
    if a < b then a else b
  }

  /** The dict read from columns `1 .. k-1` of a row, later columns
      overwriting earlier ones under the same header. */
  function ReadCells(header: seq<Cell>, cells: seq<Cell>, k: int, parse: string -> Option<real>): map<Cell, Cell>
    requires k <= |header| && k <= |cells|
    decreases k
  {
    if k <= 1 then map[]
    else
      var m := ReadCells(header, cells, k - 1, parse);
      if Blank(cells[k - 1]) then m else m[header[k - 1] := Float(cells[k - 1], parse)]
  }

  /** The dict read from one row: columns up to the shorter of the header
      and the row. */
  function ReadRow(header: seq<Cell>, cells: seq<Cell>, parse: string -> Option<real>): map<Cell, Cell>
  {
    ReadCells(header, cells, Min(|header|, |cells|), parse)
  }

  /** The dict read from data rows, in order: rows that are not lists or
      are empty are skipped, each other row is keyed by its first cell, and
      a later row replaces an earlier one of the same name in place. */
  function Gather(header: seq<Cell>, lines: seq<Line>, parse: string -> Option<real>): Nested<Cell>
  {
    if lines == [] then Nested([], map[])
    else
      var acc := Gather(header, lines[..|lines| - 1], parse);
      var line := lines[|lines| - 1];
      if !line.Row? || line.cells == [] then acc
      else
        var name := line.cells[0];
        Nested(if name in acc.rows then acc.order else acc.order + [name],
               acc.rows[name := ReadRow(header, line.cells, parse)])
  }

  /** `table_to_dict`: indexing an empty table raises `IndexError`; a
      header that is not a list gives `{}`. */
  function TableDict(t: seq<Line>, parse: string -> Option<real>): Result<Nested<Cell>>
  {
    if t == [] then Err(IndexError)
    else if !t[0].Row? then Ok(Nested([], map[]))
    else Ok(Gather(t[0].cells, t[1..], parse))
  }

  /** Reads one row, column by column. */
  method ReadRowOf(header: seq<Cell>, cells: seq<Cell>, parse: string -> Option<real>) returns (data: map<Cell, Cell>)
    ensures data == ReadRow(header, cells, parse)
  {
    data := map[];
    var bound := if |header| < |cells| then |header| else |cells|;
    var col := 1;
    while col < bound
      invariant 1 <= col && (bound <= 1 || col <= bound)
      invariant data == ReadCells(header, cells, if bound <= 1 then bound else col, parse)
    {
      var cell := cells[col];
      if cell != Null && cell != Text("") {
        data := data[header[col] := Float(cell, parse)];
      }
      col := col + 1;
    }
  }

  /** `table_to_dict`. */
  method TableToDict(t: seq<Line>, parse: string -> Option<real>) returns (r: Result<Nested<Cell>>)
    ensures r == TableDict(t, parse)
  {
    if |t| == 0 {
      return Err(IndexError);
    }
    if !t[0].Row? {
      return Ok(Nested([], map[]));
    }
    var header := t[0].cells;
    var lines := t[1..];
    var order: seq<Cell> := [];
    var rows: map<Cell, map<Cell, Cell>> := map[];
    var i := 0;
    while i < |lines|
      invariant 0 <= i <= |lines|
      invariant Nested(order, rows) == Gather(header, lines[..i], parse)
    {
      assert lines[..i + 1][..i] == lines[..i];
      var line := lines[i];
      if line.Row? && |line.cells| > 0 {
        var name := line.cells[0];
        var data := ReadRowOf(header, line.cells, parse);
        if name !in rows {
          order := order + [name];
        }
        rows := rows[name := data];
      }
      i := i + 1;
    }
    assert lines[..|lines|] == lines;
    return Ok(Nested(order, rows));
  }

  // ---------------------------------------------------------------------
  // What `table_to_dict` reads, and the round trip

  /** Column `j` holds the last non-blank value, among columns `1 .. k-1`,
      under its header. */
  predicate LastFilled(header: seq<Cell>, cells: seq<Cell>, j: int, k: int)
    requires k <= |header| && k <= |cells|
  {
    1 <= j < k && !Blank(cells[j]) &&
    forall j' :: j < j' < k && header[j'] == header[j] ==> Blank(cells[j'])
  }

  /** The headers read from columns `1 .. k-1` are those of the non-blank
      columns. */
  lemma {:induction false} ReadCellsKeys(header: seq<Cell>, cells: seq<Cell>, k: int, parse: string -> Option<real>)
    requires k <= |header| && k <= |cells|
    ensures forall j :: 1 <= j < k && !Blank(cells[j]) ==> header[j] in ReadCells(header, cells, k, parse)
    ensures forall c :: c in ReadCells(header, cells, k, parse) ==>
      exists j :: 1 <= j < k && !Blank(cells[j]) && header[j] == c
    decreases k
  {
    if k > 1 {
      ReadCellsKeys(header, cells, k - 1, parse);
    }
  }

  /** Under a header the row keeps the value of its last non-blank column. */
  lemma {:induction false} ReadCellsLast(header: seq<Cell>, cells: seq<Cell>, k: int, parse: string -> Option<real>, j: int)
    requires k <= |header| && k <= |cells| && LastFilled(header, cells, j, k)
    ensures header[j] in ReadCells(header, cells, k, parse)
    ensures ReadCells(header, cells, k, parse)[header[j]] == Float(cells[j], parse)
    decreases k
  {
    if j < k - 1 {
      assert LastFilled(header, cells, j, k - 1);
      ReadCellsLast(header, cells, k - 1, parse, j);
      if !Blank(cells[k - 1]) {
        assert header[k - 1] != header[j];
      }
    }
  }

  /** A data row counts when it is a non-empty list. */
  predicate Named(lines: seq<Line>, i: int)
    requires 0 <= i < |lines|
  {
    lines[i].Row? && lines[i].cells != []
  }

  /** Row `i` is the last counted row of its name. */
  predicate LastNamed(lines: seq<Line>, i: int)
  {
    0 <= i < |lines| && Named(lines, i) &&
    forall i' :: i < i' < |lines| && Named(lines, i') ==> lines[i'].cells[0] != lines[i].cells[0]
  }

  /** The keys read from data rows are the first cells of the counted
      rows, listed once each in the key order. */
  lemma {:induction false} GatherKeys(header: seq<Cell>, lines: seq<Line>, parse: string -> Option<real>)
    ensures var g := Gather(header, lines, parse);
      (forall i :: 0 <= i < |lines| && Named(lines, i) ==> lines[i].cells[0] in g.rows) &&
      (forall c :: c in g.rows ==> exists i :: 0 <= i < |lines| && Named(lines, i) && lines[i].cells[0] == c) &&
      (forall c :: c in g.rows <==> c in g.order) &&
      (forall p, q :: 0 <= p < q < |g.order| ==> g.order[p] != g.order[q])
  {
    GatherIndex(header, lines, parse);
    GatherCovers(header, lines, parse);
    GatherWitness(header, lines, parse);
  }

  /** The key order lists the dict's keys, once each. */
  ghost predicate Indexed(g: Nested<Cell>)
  {
    (forall c :: c in g.rows <==> c in g.order) &&
    (forall p, q :: 0 <= p < q < |g.order| ==> g.order[p] != g.order[q])
  }

  lemma {:induction false} GatherIndex(header: seq<Cell>, lines: seq<Line>, parse: string -> Option<real>)
    ensures Indexed(Gather(header, lines, parse))
  {
    if lines != [] {
      var init := lines[..|lines| - 1];
      GatherIndex(header, init, parse);
      var acc, line := Gather(header, init, parse), lines[|lines| - 1];
      if line.Row? && line.cells != [] && line.cells[0] !in acc.rows {
        var g := Gather(header, lines, parse);
        assert g.order == acc.order + [line.cells[0]];
        forall p, q | 0 <= p < q < |g.order|
          ensures g.order[p] != g.order[q]
        {
          if q == |acc.order| {
            assert g.order[p] in acc.order;
          }
        }
      }
    }
  }

  /** Every counted row's name is a key. */
  lemma {:induction false} GatherCovers(header: seq<Cell>, lines: seq<Line>, parse: string -> Option<real>)
    ensures forall i :: 0 <= i < |lines| && Named(lines, i) ==> lines[i].cells[0] in Gather(header, lines, parse).rows
  {
    if lines != [] {
      var init := lines[..|lines| - 1];
      GatherCovers(header, init, parse);
      assert forall i :: 0 <= i < |init| ==> init[i] == lines[i];
    }
  }

  /** Every key is the name of a counted row. */
  lemma {:induction false} GatherWitness(header: seq<Cell>, lines: seq<Line>, parse: string -> Option<real>)
    ensures forall c :: c in Gather(header, lines, parse).rows ==>
      exists i :: 0 <= i < |lines| && Named(lines, i) && lines[i].cells[0] == c
  {
    if lines != [] {
      var n := |lines| - 1;
      var init := lines[..n];
      GatherWitness(header, init, parse);
      forall c | c in Gather(header, lines, parse).rows
        ensures exists i :: 0 <= i < |lines| && Named(lines, i) && lines[i].cells[0] == c
      {
        if c in Gather(header, init, parse).rows {
          var i :| 0 <= i < |init| && Named(init, i) && init[i].cells[0] == c;
          assert lines[i] == init[i];
        } else {
          assert Named(lines, n) && lines[n].cells[0] == c;
        }
      }
    }
  }

  /** Under each key the dict holds the row read from the last counted row
      of that name: a later row replaces an earlier one. */
  lemma {:induction false} GatherLast(header: seq<Cell>, lines: seq<Line>, parse: string -> Option<real>, i: int)
    requires LastNamed(lines, i)
    ensures lines[i].cells[0] in Gather(header, lines, parse).rows
    ensures Gather(header, lines, parse).rows[lines[i].cells[0]] == ReadRow(header, lines[i].cells, parse)
  {
    var n := |lines| - 1;
    if i < n {
      var init := lines[..n];
      assert forall k :: 0 <= k < n ==> init[k] == lines[k];
      assert LastNamed(init, i);
      GatherLast(header, init, parse, i);
      if Named(lines, n) {
        assert lines[n].cells[0] != lines[i].cells[0];
      }
    }
  }

  /** When every data row counts and their names differ, the keys come out
      in row order. */
  lemma {:induction false} GatherOrder(header: seq<Cell>, lines: seq<Line>, parse: string -> Option<real>)
    requires forall i :: 0 <= i < |lines| ==> lines[i].Row? && lines[i].cells != []
    requires forall p, q :: 0 <= p < q < |lines| ==> lines[p].cells[0] != lines[q].cells[0]
    ensures Gather(header, lines, parse).order == seq(|lines|, i requires 0 <= i < |lines| => lines[i].cells[0])
  {
    if lines != [] {
      var n := |lines| - 1;
      var init := lines[..n];
      assert forall k :: 0 <= k < n ==> init[k] == lines[k];
      GatherOrder(header, init, parse);
      GatherWitness(header, init, parse);
      var acc := Gather(header, init, parse);
      assert lines[n].cells[0] !in acc.rows;
      assert Gather(header, lines, parse).order == acc.order + [lines[n].cells[0]];
      FirstCellsSnoc(lines);
    }
  }

  /** The first cells of the rows are those of all rows but the last,
      then the last row's. */
  lemma FirstCellsSnoc(lines: seq<Line>)
    requires lines != [] && forall i :: 0 <= i < |lines| ==> lines[i].Row? && lines[i].cells != []
    ensures var n := |lines| - 1;
      seq(|lines|, i requires 0 <= i < |lines| => lines[i].cells[0]) ==
      seq(n, i requires 0 <= i < n => lines[..n][i].cells[0]) + [lines[n].cells[0]]
  {
  }

  /** A dict all of whose values are numbers. */
  predicate AllNumbers(rows: map<string, map<string, Cell>>)
  {
    forall n, h :: n in rows && h in rows[n] ==> rows[n][h].Num?
  }

  /** A dict with its string keys turned into cells, as `table_to_dict`
      returns them. */
  function KeyedInner(inner: map<string, Cell>): (r: map<Cell, Cell>)
    ensures forall h :: h in inner ==> Text(h) in r && r[Text(h)] == inner[h]
    ensures forall c :: c in r ==> c.Text? && c.s in inner
  {
    map h | h in inner :: Text(h) := inner[h]
  }

  function Keyed(rows: map<string, map<string, Cell>>): map<Cell, map<Cell, Cell>>
  {
    map n | n in rows :: Text(n) := KeyedInner(rows[n])
  }

  /** A table as the list of lists `table_to_dict` receives. */
  function AsLines(t: seq<seq<Cell>>): (r: seq<Line>)
    ensures |r| == |t| && forall i :: 0 <= i < |t| ==> r[i] == Row(t[i])
  {
    seq(|t|, i requires 0 <= i < |t| => Row(t[i]))
  }

  /** Column `j` of a built row sits under column name `j - 1` and holds
      the row's value there. */
  lemma RowColumn(name: string, cols: seq<string>, inner: map<string, Cell>, j: int)
    requires 1 <= j <= |cols|
    ensures ([Text("")] + Texts(cols))[j] == Text(cols[j - 1])
    ensures RowOf(name, cols, inner)[j] == Lookup(inner, cols[j - 1])
  {
  }

  /** Every header read back from a built row of numbers names one of the
      row's keys. */
  lemma ReadBackKey(name: string, cols: seq<string>, inner: map<string, Cell>, parse: string -> Option<real>, c: Cell)
    requires c in ReadCells([Text("")] + Texts(cols), RowOf(name, cols, inner), |cols| + 1, parse)
    ensures c.Text? && c.s in inner
  {
    var header, cells := [Text("")] + Texts(cols), RowOf(name, cols, inner);
    ReadCellsKeys(header, cells, |cols| + 1, parse);
    var j :| 1 <= j < |cols| + 1 && !Blank(cells[j]) && header[j] == c;
    RowColumn(name, cols, inner, j);
  }

  /** A number in a built row, in its last filled column under its name,
      is read back with its value. */
  lemma ReadBackValue(name: string, cols: seq<string>, inner: map<string, Cell>, parse: string -> Option<real>, p: int)
    requires 0 <= p < |cols| && cols[p] in inner && inner[cols[p]].Num?
    requires LastFilled([Text("")] + Texts(cols), RowOf(name, cols, inner), p + 1, |cols| + 1)
    ensures var m := ReadCells([Text("")] + Texts(cols), RowOf(name, cols, inner), |cols| + 1, parse);
      Text(cols[p]) in m && m[Text(cols[p])] == inner[cols[p]]
  {
    var header, cells := [Text("")] + Texts(cols), RowOf(name, cols, inner);
    RowColumn(name, cols, inner, p + 1);
    ReadCellsLast(header, cells, |cols| + 1, parse, p + 1);
    assert header[p + 1] == Text(cols[p]) && cells[p + 1] == inner[cols[p]];
  }

  /** In a built row the column of a number is its last filled column
      under that name, when the column names differ. */
  lemma LastFilledColumn(name: string, cols: seq<string>, inner: map<string, Cell>, p: int)
    requires NoDuplicates(cols) && 0 <= p < |cols| && cols[p] in inner && inner[cols[p]].Num?
    ensures LastFilled([Text("")] + Texts(cols), RowOf(name, cols, inner), p + 1, |cols| + 1)
  {
    var header := [Text("")] + Texts(cols);
    RowColumn(name, cols, inner, p + 1);
    forall j' | p + 1 < j' < |cols| + 1
      ensures header[j'] != header[p + 1]
    {
      RowColumn(name, cols, inner, j');
    }
  }

  /** Reading back a built row of numbers whose distinct columns cover its
      keys gives the row's dict. */
  lemma ReadBack(name: string, cols: seq<string>, inner: map<string, Cell>, parse: string -> Option<real>)
    requires NoDuplicates(cols)
    requires forall h :: h in inner ==> inner[h].Num? && h in cols
    ensures ReadRow([Text("")] + Texts(cols), RowOf(name, cols, inner), parse) == KeyedInner(inner)
  {
    var m := ReadCells([Text("")] + Texts(cols), RowOf(name, cols, inner), |cols| + 1, parse);
    var want := KeyedInner(inner);
    forall c | c in m
      ensures c in want
    {
      ReadBackKey(name, cols, inner, parse, c);
    }
    forall c | c in want
      ensures c in m && m[c] == want[c]
    {
      var p :| 0 <= p < |cols| && cols[p] == c.s;
      LastFilledColumn(name, cols, inner, p);
      ReadBackValue(name, cols, inner, parse, p);
    }
    SameMaps(m, want);
  }

  /** Data row `i` of a grid is the row built for name `i`. */
  lemma GridLine(names: seq<string>, cols: seq<string>, rows: map<string, map<string, Cell>>, i: int)
    requires forall n :: n in names ==> n in rows
    requires 0 <= i < |names|
    ensures |AsLines(Grid(names, cols, rows))[1..]| == |names|
    ensures AsLines(Grid(names, cols, rows))[1..][i] == Row(RowOf(names[i], cols, rows[names[i]]))
  {
  }

  /** The rows built for `names`, one per name, as `table_to_dict` sees
      them. */
  predicate BuiltLines(lines: seq<Line>, names: seq<string>, cols: seq<string>, rows: map<string, map<string, Cell>>)
  {
    |lines| == |names| &&
    forall i :: 0 <= i < |lines| ==> names[i] in rows && lines[i] == Row(RowOf(names[i], cols, rows[names[i]]))
  }

  /** Every name read back from built rows is one of the dict's keys. */
  lemma GatherBackKey(header: seq<Cell>, lines: seq<Line>, names: seq<string>, cols: seq<string>,
                      rows: map<string, map<string, Cell>>, parse: string -> Option<real>, c: Cell)
    requires BuiltLines(lines, names, cols, rows)
    requires c in Gather(header, lines, parse).rows
    ensures c.Text? && c.s in rows
  {
    GatherKeys(header, lines, parse);
    var i :| 0 <= i < |lines| && Named(lines, i) && lines[i].cells[0] == c;
  }

  /** Each key of the dict is read back, from its one built row, with its
      inner dict. */
  lemma GatherBackValue(lines: seq<Line>, names: seq<string>, cols: seq<string>,
                        rows: map<string, map<string, Cell>>, parse: string -> Option<real>, n: string)
    requires BuiltLines(lines, names, cols, rows)
    requires Lists(names, rows.Keys) && NoDuplicates(cols) && AllNumbers(rows)
    requires n in rows && forall h :: h in rows[n] ==> h in cols
    ensures var g := Gather([Text("")] + Texts(cols), lines, parse);
      Text(n) in g.rows && g.rows[Text(n)] == KeyedInner(rows[n])
  {
    var i :| 0 <= i < |names| && names[i] == n;
    assert LastNamed(lines, i);
    GatherLast([Text("")] + Texts(cols), lines, parse, i);
    ReadBack(n, cols, rows[n], parse);
  }

  /** Reading back the data rows of a grid of numbers, whose rows list the
      dict's keys and whose distinct columns cover every value, gives the
      dict keyed by cells, in the grid's row order. */
  lemma GatherBack(names: seq<string>, cols: seq<string>, rows: map<string, map<string, Cell>>, parse: string -> Option<real>)
    requires Lists(names, rows.Keys) && NoDuplicates(cols) && AllNumbers(rows)
    requires forall n, h :: n in rows && h in rows[n] ==> h in cols
    ensures Gather([Text("")] + Texts(cols), AsLines(Grid(names, cols, rows))[1..], parse) ==
      Nested(Texts(names), Keyed(rows))
  {
    var lines := AsLines(Grid(names, cols, rows))[1..];
    GridBuilt(names, cols, rows);
    GatherBuilt(lines, names, cols, rows, parse);
  }

  /** The data rows of a grid are the rows built for its names. */
  lemma GridBuilt(names: seq<string>, cols: seq<string>, rows: map<string, map<string, Cell>>)
    requires forall n :: n in names ==> n in rows
    ensures BuiltLines(AsLines(Grid(names, cols, rows))[1..], names, cols, rows)
  {
    var lines := AsLines(Grid(names, cols, rows))[1..];
    forall i | 0 <= i < |names|
      ensures lines[i] == Row(RowOf(names[i], cols, rows[names[i]]))
    {
      GridLine(names, cols, rows, i);
    }
  }

  /** Reading back rows built for the dict's keys gives the dict. */
  lemma GatherBuilt(lines: seq<Line>, names: seq<string>, cols: seq<string>, rows: map<string, map<string, Cell>>,
                    parse: string -> Option<real>)
    requires BuiltLines(lines, names, cols, rows)
    requires Lists(names, rows.Keys) && NoDuplicates(cols) && AllNumbers(rows)
    requires forall n, h :: n in rows && h in rows[n] ==> h in cols
    ensures Gather([Text("")] + Texts(cols), lines, parse) == Nested(Texts(names), Keyed(rows))
  {
    var header := [Text("")] + Texts(cols);
    var g := Gather(header, lines, parse);
    var want := Keyed(rows);
    GatherOrder(header, lines, parse);
    forall c | c in g.rows
      ensures c in want
    {
      GatherBackKey(header, lines, names, cols, rows, parse, c);
    }
    forall c | c in want
      ensures c in g.rows && g.rows[c] == want[c]
    {
      GatherBackValue(lines, names, cols, rows, parse, c.s);
    }
    SameMaps(g.rows, want);
  }

  /** `table_to_dict(dict_to_table(d))` gives back `d`, its keys as cells,
      for a non-empty dict of numbers; in the symmetric layout the inner
      keys must be among the outer ones, the only columns it has.  The
      symmetric table keeps the dict's key order, the standard one sorts
      it. */
  lemma RoundTrip(d: Nested<string>, symmetric: bool, parse: string -> Option<real>)
    requires Lists(d.order, d.rows.Keys) && d.order != [] && AllNumbers(d.rows)
    requires symmetric ==> HeaderSet(d.rows) <= d.rows.Keys
    ensures TableDict(AsLines(Layout(d, symmetric)), parse) ==
      Ok(Nested(Texts(if symmetric then d.order else SortedSet(d.rows.Keys)), Keyed(d.rows)))
  {
    var names := if symmetric then d.order else SortedSet(d.rows.Keys);
    var cols := if symmetric then d.order else SortedSet(HeaderSet(d.rows));
    assert Layout(d, symmetric) == Grid(names, cols, d.rows);
    if !symmetric {
      AscendingNoDuplicates(names);
      AscendingNoDuplicates(cols);
    }
    forall n, h | n in d.rows && h in d.rows[n]
      ensures h in cols
    {
      assert h in HeaderSet(d.rows);
    }
    GatherBack(names, cols, d.rows, parse);
  }

  /** The empty dict does not come back: its table is `[]`, and reading
      the header of `[]` raises `IndexError`. */
  lemma EmptyNoRoundTrip(symmetric: bool, parse: string -> Option<real>)
    ensures TableDict(AsLines(Layout(Nested([], map[]), symmetric)), parse) == Err(IndexError)
  {
  }
}
