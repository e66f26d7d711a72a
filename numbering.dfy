/**
 * The numbering scan of `display_threat_actors_by_*`: a table with one
 * column per bucket is filled row by row, left to right; a bucket with an
 * actor in that row gets a cell `"<index>. <name>"` and the name is appended
 * to `actor_list`, a bucket without one gets a blank cell. Only the names of
 * the actors matter here, so each bucket is given as its column of names.
 */
module Numbering {
  import opened Wrappers
  import opened Paging

  /** A bucket's names, in bucket order. */
  type Column = seq<string>

  // ---------------------------------------------------------------- table size

  /** `max(len(actors) for actors in groups.values())`; there is no maximum of no buckets. */
  function MaxLen(cols: seq<Column>): (r: nat)
    requires |cols| > 0
    ensures forall b :: 0 <= b < |cols| ==> |cols[b]| <= r
    ensures exists b :: 0 <= b < |cols| && |cols[b]| == r
  {
    if |cols| == 1 then |cols[0]|
    else
      var rest := MaxLen(cols[1..]);
      assert forall b :: 1 <= b < |cols| ==> cols[b] == cols[1..][b - 1];
      if |cols[0]| >= rest then |cols[0]| else rest
  }

  /** `min(6, width // 15)`; a width below 15 would make it 0 and the next division fail. */
  function NumColumns(width: nat): (r: nat)
    requires width >= 15
    ensures r == 6 || r == width / 15
    ensures 1 <= r <= 6 && r <= width / 15
    ensures width >= 30 ==> r >= 2
  {
    if width / 15 < 6 then width / 15 else 6
  }

  /** `math.ceil(m / c)` */
  function CeilDiv(m: nat, c: nat): nat
    requires c >= 1
  {
    (m + c - 1) / c
  }

  /** `CeilDiv` is the least number of rows of width `c` that hold `m` cells. */
  lemma CeilDivIsCeiling(m: nat, c: nat)
    requires c >= 1
    ensures CeilDiv(m, c) * c >= m
    ensures CeilDiv(m, c) > 0 ==> (CeilDiv(m, c) - 1) * c < m
    ensures m > 0 ==> CeilDiv(m, c) > 0
  {
    var r := CeilDiv(m, c);
    var q := m + c - 1;
    assert q == r * c + q % c;
  }

  /** With two or more table columns, fewer rows than the longest bucket are made. */
  lemma CeilDivShrinks(m: nat, c: nat)
    requires c >= 2 && m >= 2
    ensures CeilDiv(m, c) < m
  {
    var r := CeilDiv(m, c);
    assert r * c <= m + c - 1;
    assert m * c == (m - 1) * (c - 1) + m + c - 1;
    assert (m - 1) * (c - 1) >= 1;
    assert r * c < m * c;
  }

  // ---------------------------------------------------------------- the scan

  /** A table cell: blank, or `f"{index}. {name}"`. */
  datatype Cell = Blank | Numbered(number: nat, name: string)

  /** The names row `r` lists, left to right. */
  function RowNames(cols: seq<Column>, r: nat): (names: seq<string>)
    ensures |names| <= |cols|
  {
    if cols == [] then []
    else
      var last := cols[|cols| - 1];
      RowNames(cols[..|cols| - 1], r) + (if r < |last| then [last[r]] else [])
  }

  /**
   * The cells of row `r`, the first non-blank one numbered `start`: one cell
   * per bucket, blank exactly when the bucket has no actor in that row, and
   * otherwise showing that actor.
   */
  function RowCells(cols: seq<Column>, r: nat, start: nat): (cells: seq<Cell>)
    ensures |cells| == |cols|
    ensures forall b :: 0 <= b < |cols| ==> (cells[b] == Blank <==> r >= |cols[b]|)
    ensures forall b :: 0 <= b < |cols| && r < |cols[b]| ==> cells[b].name == cols[b][r]
  {
    if cols == [] then []
    else
      var init := cols[..|cols| - 1];
      var last := cols[|cols| - 1];
      var cells := RowCells(init, r, start)
        + [if r < |last| then Numbered(start + |RowNames(init, r)|, last[r]) else Blank];
      assert forall b :: 0 <= b < |init| ==> cols[b] == init[b];
      cells
  }

  /** The row's cells and names for one more bucket: what one pass of the inner loop adds. */
  lemma RowStep(cols: seq<Column>, b: nat, r: nat, start: nat)
    requires b < |cols|
    ensures RowNames(cols[..b + 1], r) == RowNames(cols[..b], r) + (if r < |cols[b]| then [cols[b][r]] else [])
    ensures RowCells(cols[..b + 1], r, start) == RowCells(cols[..b], r, start)
              + [if r < |cols[b]| then Numbered(start + |RowNames(cols[..b], r)|, cols[b][r]) else Blank]
  {
    assert cols[..b + 1][..b] == cols[..b] && cols[..b + 1][b] == cols[b];
  }

  /** `actor_list` after the first `n` rows. */
  function Listed(cols: seq<Column>, n: nat): seq<string> {
    if n == 0 then [] else Listed(cols, n - 1) + RowNames(cols, n - 1)
  }

  /** The table after the first `n` rows; row `r` is numbered on from the names listed before it. */
  function Table(cols: seq<Column>, n: nat): (rows: seq<seq<Cell>>)
    ensures |rows| == n
  {
    if n == 0 then [] else Table(cols, n - 1) + [RowCells(cols, n - 1, |Listed(cols, n - 1)| + 1)]
  }

  /**
   * One pass of the inner loop of `display_threat_actors_by_*`: the cells of
   * row `row`, numbered on from `index`, and the names appended to
   * `actor_list` meanwhile.
   */
  method FillRow(cols: seq<Column>, row: nat, index: nat) returns (rowData: seq<Cell>, rowNames: seq<string>)
    ensures rowData == RowCells(cols, row, index)
    ensures rowNames == RowNames(cols, row)
  {
    rowData := [];
    rowNames := [];
    for b := 0 to |cols|
      invariant rowData == RowCells(cols[..b], row, index)
      invariant rowNames == RowNames(cols[..b], row)
    {
      RowStep(cols, b, row, index);
      if row < |cols[b]| {
        rowData := rowData + [Numbered(index + |rowNames|, cols[b][row])];
        rowNames := rowNames + [cols[b][row]];
      } else {
        rowData := rowData + [Blank];
      }
    }
    assert cols[..|cols|] == cols;
  }

  /** The nested loops of `display_threat_actors_by_*`: fill the table and `actor_list`, counting with `index`. */
  method NumberCells(cols: seq<Column>, numRows: nat) returns (rows: seq<seq<Cell>>, actorList: seq<string>)
    ensures rows == Table(cols, numRows)
    ensures actorList == Listed(cols, numRows)
  {
    rows := [];
    actorList := [];
    var index := 1;
    for row := 0 to numRows
      invariant rows == Table(cols, row)
      invariant actorList == Listed(cols, row)
      invariant index == |actorList| + 1
    {
      var rowData, rowNames := FillRow(cols, row, index);
      actorList := actorList + rowNames;
      index := index + |rowNames|;
      rows := rows + [rowData];
    }
  }

  // ---------------------------------------------------------------- what the numbers mean

  /** The table's cells, row after row. */
  function Flatten(rows: seq<seq<Cell>>): seq<Cell> {
    if rows == [] then [] else Flatten(rows[..|rows| - 1]) + rows[|rows| - 1]
  }

  /** The numbered cells among `cells`, in order. */
  function NumberedCells(cells: seq<Cell>): seq<Cell> {
    if cells == [] then []
    else NumberedCells(cells[..|cells| - 1]) + (if cells[|cells| - 1].Numbered? then [cells[|cells| - 1]] else [])
  }

  /** The cells a listing of `names` numbered consecutively from `start` shows. */
  function Enumerate(names: seq<string>, start: nat): (r: seq<Cell>)
    ensures |r| == |names|
  {
    seq(|names|, k requires 0 <= k < |names| => Numbered(start + k, names[k]))
  }

  lemma {:induction false} NumberedCellsConcat(a: seq<Cell>, b: seq<Cell>)
    ensures NumberedCells(a + b) == NumberedCells(a) + NumberedCells(b)
    decreases |b|
  {
    if b == [] {
      assert a + b == a;
    } else {
      assert (a + b)[..|a + b| - 1] == a + b[..|b| - 1];
      NumberedCellsConcat(a, b[..|b| - 1]);
    }
  }

  lemma EnumerateConcat(a: seq<string>, b: seq<string>, start: nat)
    ensures Enumerate(a + b, start) == Enumerate(a, start) + Enumerate(b, start + |a|)
  {
  }

  /** Within a row, the numbered cells carry consecutive numbers from `start` and show the row's names. */
  lemma {:induction false} RowCellsNumbering(cols: seq<Column>, r: nat, start: nat)
    ensures NumberedCells(RowCells(cols, r, start)) == Enumerate(RowNames(cols, r), start)
    decreases |cols|
  {
    if cols != [] {
      var init := cols[..|cols| - 1];
      var last := cols[|cols| - 1];
      RowCellsNumbering(init, r, start);
      var c := if r < |last| then Numbered(start + |RowNames(init, r)|, last[r]) else Blank;
      NumberedCellsConcat(RowCells(init, r, start), [c]);
      assert NumberedCells([c]) == if c.Numbered? then [c] else [] by {
        assert [c][..0] == [];
      }
      EnumerateConcat(RowNames(init, r), if r < |last| then [last[r]] else [], start);
    }
  }

  /**
   * Entry k of `actor_list` is the name in the cell labelled k + 1: reading
   * the table row by row and left to right, the numbered cells are labelled
   * 1, 2, 3, ... and show the names of `actor_list` in order; blank cells
   * take no number.
   */
  lemma {:induction false} TableNumbering(cols: seq<Column>, n: nat)
    ensures NumberedCells(Flatten(Table(cols, n))) == Enumerate(Listed(cols, n), 1)
  {
    if n > 0 {
      var m := n - 1;
      TableNumbering(cols, m);
      var start := |Listed(cols, m)| + 1;
      FlattenTableStep(cols, m);
      NumberedCellsConcat(Flatten(Table(cols, m)), RowCells(cols, m, start));
      RowCellsNumbering(cols, m, start);
      EnumerateConcat(Listed(cols, m), RowNames(cols, m), 1);
      assert m + 1 == n;
    }
  }

  /** Adding row `m` appends its cells to the flattened table. */
  lemma FlattenTableStep(cols: seq<Column>, m: nat)
    ensures Flatten(Table(cols, m + 1)) == Flatten(Table(cols, m)) + RowCells(cols, m, |Listed(cols, m)| + 1)
  {
    var t := Table(cols, m + 1);
    assert t[..|t| - 1] == Table(cols, m);
  }

  /** The name stored at `actor_list[k]` is the one the table shows beside the number k + 1. */
  lemma ListedEntryIsShown(cols: seq<Column>, n: nat, k: nat)
    requires k < |Listed(cols, n)|
    ensures Numbered(k + 1, Listed(cols, n)[k]) in Flatten(Table(cols, n))
  {
    TableNumbering(cols, n);
    NumberedCellsSubset(Flatten(Table(cols, n)));
    assert Enumerate(Listed(cols, n), 1)[k] == Numbered(k + 1, Listed(cols, n)[k]);
  }

  lemma {:induction false} NumberedCellsSubset(cells: seq<Cell>)
    ensures forall c :: c in NumberedCells(cells) ==> c in cells
    decreases |cells|
  {
    if cells != [] {
      NumberedCellsSubset(cells[..|cells| - 1]);
    }
  }

  // ---------------------------------------------------------------- what gets listed

  /** A bucket's first `n` names, or all of them when it has fewer. */
  function Cut(names: Column, n: nat): (r: Column)
    ensures |r| == if |names| < n then |names| else n
  {
    names[..if |names| < n then |names| else n]
  }

  /** The names bucket by bucket, each bucket cut to its first `n`. */
  function Shown(cols: seq<Column>, n: nat): multiset<string> {
    if cols == [] then multiset{}
    else Shown(cols[..|cols| - 1], n) + multiset(Cut(cols[|cols| - 1], n))
  }

  /** `Σ min(len(bucket), n)` */
  function ShownCount(cols: seq<Column>, n: nat): nat {
    if cols == [] then 0
    else ShownCount(cols[..|cols| - 1], n) + |Cut(cols[|cols| - 1], n)|
  }

  /** Every name of every bucket. */
  function AllNames(cols: seq<Column>): multiset<string> {
    if cols == [] then multiset{} else AllNames(cols[..|cols| - 1]) + multiset(cols[|cols| - 1])
  }

  /** One more row adds, from each bucket long enough, its name in that row. */
  lemma {:induction false} ShownStep(cols: seq<Column>, n: nat)
    ensures Shown(cols, n + 1) == Shown(cols, n) + multiset(RowNames(cols, n))
    ensures ShownCount(cols, n + 1) == ShownCount(cols, n) + |RowNames(cols, n)|
    decreases |cols|
  {
    if cols != [] {
      var init := cols[..|cols| - 1];
      var last := cols[|cols| - 1];
      ShownStep(init, n);
      CutStep(last, n);
      assert RowNames(cols, n) == RowNames(init, n) + (if n < |last| then [last[n]] else []);
    }
  }

  /** One more row takes one more name from a bucket long enough. */
  lemma CutStep(names: Column, n: nat)
    ensures Cut(names, n + 1) == Cut(names, n) + (if n < |names| then [names[n]] else [])
  {
  }

  lemma {:induction false} ShownEmpty(cols: seq<Column>)
    ensures Shown(cols, 0) == multiset{} && ShownCount(cols, 0) == 0
    decreases |cols|
  {
    if cols != [] {
      ShownEmpty(cols[..|cols| - 1]);
      assert Cut(cols[|cols| - 1], 0) == [];
    }
  }

  /**
   * Each bucket contributes exactly its first `min(len(bucket), n)` names to
   * `actor_list`; the actors in rows `n` and below are never listed.
   */
  lemma {:induction false} ListedContents(cols: seq<Column>, n: nat)
    ensures multiset(Listed(cols, n)) == Shown(cols, n)
  {
    if n == 0 {
      ListedNone(cols);
    } else {
      var m := n - 1;
      ListedContents(cols, m);
      ListedStep(cols, m);
      assert m + 1 == n;
    }
  }

  /** `actor_list` holds `Σ min(len(bucket), n)` names after `n` rows. */
  lemma {:induction false} ListedCount(cols: seq<Column>, n: nat)
    ensures |Listed(cols, n)| == ShownCount(cols, n)
  {
    if n == 0 {
      ListedNone(cols);
    } else {
      ListedCount(cols, n - 1);
      ListedCountStep(cols, n - 1);
    }
  }

  lemma ListedNone(cols: seq<Column>)
    ensures multiset(Listed(cols, 0)) == Shown(cols, 0)
    ensures |Listed(cols, 0)| == ShownCount(cols, 0)
  {
    ShownEmpty(cols);
  }

  /** One more row lists exactly the names it adds to the buckets' shown prefixes. */
  lemma ListedStep(cols: seq<Column>, n: nat)
    requires multiset(Listed(cols, n)) == Shown(cols, n)
    ensures multiset(Listed(cols, n + 1)) == Shown(cols, n + 1)
  {
    ShownStep(cols, n);
    assert Listed(cols, n + 1) == Listed(cols, n) + RowNames(cols, n);
  }

  lemma ListedCountStep(cols: seq<Column>, n: nat)
    requires |Listed(cols, n)| == ShownCount(cols, n)
    ensures |Listed(cols, n + 1)| == ShownCount(cols, n + 1)
  {
    ShownStep(cols, n);
  }

  /** Rows enough for the longest bucket list every name of every bucket. */
  lemma {:induction false} ShownAll(cols: seq<Column>, n: nat)
    requires forall b :: 0 <= b < |cols| ==> |cols[b]| <= n
    ensures Shown(cols, n) == AllNames(cols)
    decreases |cols|
  {
    if cols != [] {
      ShownAll(cols[..|cols| - 1], n);
      assert Cut(cols[|cols| - 1], n) == cols[|cols| - 1];
    }
  }

  lemma {:induction false} ShownCountAtMost(cols: seq<Column>, n: nat)
    ensures ShownCount(cols, n) <= |AllNames(cols)|
    decreases |cols|
  {
    if cols != [] {
      ShownCountAtMost(cols[..|cols| - 1], n);
    }
  }

  /** A bucket longer than `n` loses names: fewer are listed than the buckets hold. */
  lemma {:induction false} ShownCountDrops(cols: seq<Column>, n: nat, b: nat)
    requires b < |cols| && |cols[b]| > n
    ensures ShownCount(cols, n) < |AllNames(cols)|
    decreases |cols|
  {
    var init := cols[..|cols| - 1];
    if b < |init| {
      assert init[b] == cols[b];
      ShownCountDrops(init, n, b);
    } else {
      ShownCountAtMost(init, n);
    }
  }

  /** Appending a name to one bucket adds it once to all the names. */
  lemma {:induction false} AllNamesUpdate(cols: seq<Column>, b: nat, name: string)
    requires b < |cols|
    ensures AllNames(cols[b := cols[b] + [name]]) == AllNames(cols) + multiset{name}
    decreases |cols|
  {
    var cols' := cols[b := cols[b] + [name]];
    var init := cols[..|cols| - 1];
    if b == |cols| - 1 {
      assert cols'[..|cols'| - 1] == init;
    } else {
      assert cols'[..|cols'| - 1] == init[b := init[b] + [name]];
      AllNamesUpdate(init, b, name);
    }
  }

  /** A listing numbered from 1 shows `name` under `k` exactly when `name` is entry `k` of the list. */
  lemma EnumerateMember(names: seq<string>, k: nat, name: string)
    ensures Numbered(k, name) in Enumerate(names, 1) <==> 1 <= k <= |names| && names[k - 1] == name
  {
    var e := Enumerate(names, 1);
    if 1 <= k <= |names| && names[k - 1] == name {
      assert e[k - 1] == Numbered(k, name);
    }
  }

  /**
   * Typing the number of a numbered cell selects the name in that cell, and
   * typing a number selects a name only when a cell shows that name under it.
   */
  lemma SelectionMatchesCell(cols: seq<Column>, n: nat, k: nat, name: string)
    ensures (Numbered(k, name) in NumberedCells(Flatten(Table(cols, n)))) == (Select(Listed(cols, n), Some(k)) == Some(name))
  {
    var listed := Listed(cols, n);
    TableNumbering(cols, n);
    EnumerateMember(listed, k, name);
    SelectIs(listed, k, name);
  }

  /** Only names of the buckets are listed. */
  lemma {:induction false} ShownWithin(cols: seq<Column>, n: nat)
    ensures Shown(cols, n) <= AllNames(cols)
    decreases |cols|
  {
    if cols != [] {
      var last := cols[|cols| - 1];
      ShownWithin(cols[..|cols| - 1], n);
      assert last == Cut(last, n) + last[|Cut(last, n)|..];
    }
  }
}
