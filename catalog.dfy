/** The catalog of information sources: one entry per row of the sources
    table, and the loading step that checks the five required columns and
    replaces missing cells with the empty string (`load_sources`). */
module Catalog {
  import opened StrOrder

  /** A cell of the table as it comes out of the CSV reader: a string, or a
      missing value (pandas' NaN). */
  datatype Cell = Missing | Text(text: string)

  /** One source record. After `load_sources` every field is a `Text`; a
      table read without it (an uploaded CSV, app.py:141-143) can still hold
      missing cells. */
  datatype Entry = Entry(category: Cell, siteName: Cell, url: Cell, shortDesc: Cell, tags: Cell)

  /** Outcome of loading: success, or the error raised for absent columns,
      carrying the sorted list of the missing names. */
  datatype LoadResult = Loaded | MissingColumnsError(missing: seq<string>)

  /** The required column names, as a set (app.py:41). */
  const Required: set<string> := {"category", "site_name", "url", "short_desc", "tags"}

  /** The order in which the columns are filled (app.py:46). */
  const FillOrder: seq<string> := ["category", "site_name", "url", "short_desc", "tags"]

  /** The required names in ascending order. */
  const RequiredSorted: seq<string> := ["category", "short_desc", "site_name", "tags", "url"]

  lemma RequiredSortedFacts()
    ensures StrictlySorted(RequiredSorted)
    ensures forall x :: x in RequiredSorted <==> x in Required
  {
  }

  lemma FillOrderFacts()
    ensures forall i, j :: 0 <= i < j < |FillOrder| ==> FillOrder[i] != FillOrder[j]
    ensures forall x :: x in FillOrder <==> x in Required
  {
  }

  /** The names of `names` that are not in `present`, in the order of `names`. */
  function Absent(names: seq<string>, present: set<string>): (r: seq<string>)
    ensures forall x :: x in r <==> x in names && x !in present
    ensures StrictlySorted(names) ==> StrictlySorted(r)
  {
    if names == [] then []
    else
      var rest := Absent(names[1..], present);
      assert StrictlySorted(names) ==> StrictlySorted(names[1..]) && forall x :: x in rest ==> Less(names[0], x) by {
        if StrictlySorted(names) {
          forall x | x in rest ensures Less(names[0], x) {
            var j :| 0 <= j < |names[1..]| && names[1..][j] == x;
            assert names[j + 1] == x;
          }
        }
      }
      (if names[0] in present then [] else [names[0]]) + rest
  }

  /** `sorted(need_cols - set(columns))`: the required columns the table lacks,
      in ascending order, each once (app.py:41-44). */
  function MissingColumns(columns: seq<string>): (r: seq<string>)
    ensures forall x :: x in r <==> x in Required && x !in columns
    ensures StrictlySorted(r)
    ensures r == [] <==> Required <= set c | c in columns
  {
    RequiredSortedFacts();
    var r := Absent(RequiredSorted, set c | c in columns);
    assert r == [] <==> Required <= set c | c in columns by {
      if r != [] {
        assert r[0] in Required && r[0] !in set c | c in columns;
      }
    }
    r
  }

  /** The cells after the columns named in `done` have had their missing
      values replaced. */
  ghost function FillColumns(cells: map<string, seq<Cell>>, done: seq<string>): map<string, seq<Cell>> {
    map c | c in cells :: if c in done then FillNa(cells[c]) else cells[c]
  }

  /** Filling keeps every column's name and length, and leaves only strings
      in the filled columns. */
  lemma FillColumnsShape(cells: map<string, seq<Cell>>, done: seq<string>)
    ensures FillColumns(cells, done).Keys == cells.Keys
    ensures forall c :: c in cells ==> |FillColumns(cells, done)[c]| == |cells[c]|
    ensures forall c, i :: c in done && c in cells && 0 <= i < |cells[c]| ==> FillColumns(cells, done)[c][i].Text?
  {
  }

  /** Filling one more column, not filled before, extends `done` by it. */
  lemma FillColumnsStep(cells: map<string, seq<Cell>>, done: seq<string>, c: string)
    requires c in cells && c !in done
    ensures c in FillColumns(cells, done)
    ensures FillColumns(cells, done)[c := FillNa(FillColumns(cells, done)[c])] == FillColumns(cells, done + [c])
  {
    var lhs, rhs := FillColumns(cells, done)[c := FillNa(cells[c])], FillColumns(cells, done + [c]);
    assert lhs.Keys == rhs.Keys;
    forall d | d in lhs ensures lhs[d] == rhs[d] {
    }
  }

  /** The `k`-th column to fill is a required one not among those before it. */
  lemma FillOrderAt(k: int)
    requires 0 <= k < |FillOrder|
    ensures FillOrder[k] in Required && FillOrder[k] !in FillOrder[..k]
    ensures FillOrder[..k + 1] == FillOrder[..k] + [FillOrder[k]]
  {
  }

  /** `fillna("")` on one column. */
  function FillNa(col: seq<Cell>): (r: seq<Cell>)
    ensures |r| == |col|
    ensures forall i :: 0 <= i < |col| ==> r[i].Text? && (col[i].Text? ==> r[i] == col[i])
    ensures forall i :: 0 <= i < |col| ==> col[i].Missing? ==> r[i] == Text("")
  {
    seq(|col|, i requires 0 <= i < |col| => if col[i].Missing? then Text("") else col[i])
  }

  /** The table read from the CSV file: its column names, one column of
      cells per name, and the number of rows. */
  class Frame {
    var columns: seq<string>
    var cells: map<string, seq<Cell>>
    var height: nat

    ghost predicate Valid()
      reads this
    {
      && (forall c :: c in cells <==> c in columns)
      && (forall c :: c in cells ==> |cells[c]| == height)
    }

    /** Every required column is there and holds only strings. */
    ghost predicate Filled()
      reads this
    {
      && Valid()
      && (forall c :: c in Required ==> c in cells)
      && (forall c, i :: c in Required && c in cells && 0 <= i < |cells[c]| ==> cells[c][i].Text?)
    }

    constructor (columns: seq<string>, cells: map<string, seq<Cell>>, height: nat)
      requires forall c :: c in cells <==> c in columns
      requires forall c :: c in cells ==> |cells[c]| == height
      ensures Valid()
      ensures this.columns == columns && this.cells == cells && this.height == height
    {
      this.columns := columns;
      this.cells := cells;
      this.height := height;
    }

    /** The column check and fill step of `load_sources` (app.py:41-48): fails,
        leaving the table as it was, when a required column is absent; otherwise
        overwrites each required column with its `fillna("")` and leaves every
        other column alone. */
    method LoadSources() returns (r: LoadResult)
      requires Valid()
      modifies this
      ensures Valid() && columns == old(columns) && height == old(height)
      ensures r == if MissingColumns(columns) == [] then Loaded else MissingColumnsError(MissingColumns(columns))
      ensures r.MissingColumnsError? ==> cells == old(cells)
      ensures r.Loaded? ==> cells == FillColumns(old(cells), FillOrder)
      ensures r.Loaded? ==> Filled()
    {
      var miss := MissingColumns(columns);
      if miss != [] {
        return MissingColumnsError(miss);
      }
      assert Required <= cells.Keys;
      FillRequired();
      FillOrderFacts();
      r := Loaded;
    }

    /** The fill loop of `load_sources` (app.py:46-47): each required column,
        in turn, is replaced by its `fillna("")`. */
    method FillRequired()
      requires Valid() && Required <= cells.Keys
      modifies this
      ensures Valid() && columns == old(columns) && height == old(height)
      ensures cells == FillColumns(old(cells), FillOrder)
    {
      ghost var start := cells;
      assert cells == FillColumns(start, []);
      for k := 0 to |FillOrder|
        invariant height == old(height) && columns == old(columns)
        invariant cells == FillColumns(start, FillOrder[..k])
      {
        var c := FillOrder[k];
        FillOrderAt(k);
        FillColumnsStep(start, FillOrder[..k], c);
        var col := cells[c];
        cells := cells[c := FillNa(col)];
      }
      assert FillOrder[..|FillOrder|] == FillOrder;
      FillColumnsShape(start, FillOrder);
    }

    /** The rows as entries, in table order; once the table is `Filled()`,
        no field of any entry is missing. */
    function Entries(): (r: seq<Entry>)
      reads this
      requires Valid() && Required <= cells.Keys
      ensures |r| == height
      ensures forall i :: 0 <= i < height ==>
        && r[i].category == cells["category"][i] && r[i].siteName == cells["site_name"][i]
        && r[i].url == cells["url"][i] && r[i].shortDesc == cells["short_desc"][i] && r[i].tags == cells["tags"][i]
      ensures Filled() ==> forall i :: 0 <= i < height ==>
        r[i].category.Text? && r[i].siteName.Text? && r[i].url.Text? && r[i].shortDesc.Text? && r[i].tags.Text?
    {
      var n, cat, name, url, desc, tags := height, cells["category"], cells["site_name"], cells["url"], cells["short_desc"], cells["tags"];
      seq(n, i requires 0 <= i < n => Entry(cat[i], name[i], url[i], desc[i], tags[i]))
    }
  }
}
