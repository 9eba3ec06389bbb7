/** The cleaning step that runs before the log is loaded into the database: every
    missing cell is first made a null, then every null is filled with its column's
    `mode().iloc[0]`, the column's most frequent non-null value, smallest first on a
    tie. pandas builds the fill row from the frame's per-column modes; when no column
    has any non-null value, that mode frame has no row and `iloc[0]` raises, which
    the model gives as `None`. Cells of every column share one type `T` ordered by `le`. */
module Cleaning {
  import opened Basics
  import opened Modes

  /** The kinds of missing cell pandas reads from a spreadsheet. */
  datatype RawCell<T> = NotANumber | NotATime | NoneObject | Present(value: T)

  /** A frame: `width` columns and rows of cells, `None` for a null. */
  datatype Frame<T> = Frame(width: nat, rows: seq<seq<Option<T>>>)

  predicate WellFormed<T>(f: Frame<T>)
  {
    forall i :: 0 <= i < |f.rows| ==> |f.rows[i]| == f.width
  }

  /** Column `c`, top to bottom. */
  function Column<T>(f: Frame<T>, c: nat): (col: seq<Option<T>>)
    requires WellFormed(f) && c < f.width
    ensures |col| == |f.rows|
    ensures forall i :: 0 <= i < |col| ==> col[i] == f.rows[i][c]
  {
    seq(|f.rows|, i requires 0 <= i < |f.rows| => f.rows[i][c])
  }

  /** Column `c` holds no non-null value. */
  predicate AllNull<T>(f: Frame<T>, c: nat)
    requires WellFormed(f) && c < f.width
  {
    forall i :: 0 <= i < |f.rows| ==> f.rows[i][c].None?
  }

  // ---------------------------------------------------------------------------
  // Normalising missing cells
  // ---------------------------------------------------------------------------

  function NormaliseCell<T>(x: RawCell<T>): Option<T>
  {
    if x.Present? then Some(x.value) else None
  }

  /** `where(pd.notnull(df), None)`: every missing cell, whatever its kind, becomes a
      null; present values stay. */
  function Normalise<T>(width: nat, raw: seq<seq<RawCell<T>>>): (f: Frame<T>)
    requires forall i :: 0 <= i < |raw| ==> |raw[i]| == width
    ensures WellFormed(f) && f.width == width && |f.rows| == |raw|
    ensures forall i, c :: 0 <= i < |raw| && 0 <= c < width ==>
              (f.rows[i][c].None? <==> !raw[i][c].Present?)
    ensures forall i, c :: 0 <= i < |raw| && 0 <= c < width && raw[i][c].Present? ==>
              f.rows[i][c] == Some(raw[i][c].value)
  {
    Frame(width, seq(|raw|, i requires 0 <= i < |raw| =>
      seq(width, c requires 0 <= c < width => NormaliseCell(raw[i][c]))))
  }

  // ---------------------------------------------------------------------------
  // Filling nulls with the column modes
  // ---------------------------------------------------------------------------

  /** `df.mode().iloc[0]`: one entry per column, `None` for a column without a
      non-null value; the whole row is `None` when no column has one. */
  function ModeRow<T(==,!new)>(f: Frame<T>, le: (T, T) -> bool): (m: Option<seq<Option<T>>>)
    requires TotalOrder(le) && WellFormed(f)
    ensures m.None? <==> forall c :: 0 <= c < f.width ==> AllNull(f, c)
    ensures m.Some? ==> |m.value| == f.width
    ensures m.Some? ==> forall c :: 0 <= c < f.width ==> m.value[c] == FirstMode(Column(f, c), le)
  {
    var modes := seq(f.width, c requires 0 <= c < f.width => FirstMode(Column(f, c), le));
    assert forall c :: 0 <= c < f.width ==> (modes[c].None? <==> AllNull(f, c)) by {
      forall c | 0 <= c < f.width {
        ModeOfAllNull(f, le, c);
      }
    }
    if forall c :: 0 <= c < f.width ==> modes[c].None? then None else Some(modes)
  }

  /** A column has no mode exactly when it holds no non-null value. */
  lemma ModeOfAllNull<T(!new)>(f: Frame<T>, le: (T, T) -> bool, c: nat)
    requires TotalOrder(le) && WellFormed(f) && c < f.width
    ensures FirstMode(Column(f, c), le).None? <==> AllNull(f, c)
  {
    var col := Column(f, c);
    assert forall i :: 0 <= i < |col| ==> col[i] == f.rows[i][c];
  }

  function FillCell<T>(x: Option<T>, fill: Option<T>): Option<T>
  {
    if x.Some? then x else fill
  }

  /** `df.fillna(df.mode().iloc[0])`, or `None` when building the fill row raises. */
  function Clean<T(==,!new)>(f: Frame<T>, le: (T, T) -> bool): (out: Option<Frame<T>>)
    requires TotalOrder(le) && WellFormed(f)
    ensures out.None? <==> forall c :: 0 <= c < f.width ==> AllNull(f, c)
    ensures out.Some? ==> WellFormed(out.value) && out.value.width == f.width && |out.value.rows| == |f.rows|
  {
    var modes := ModeRow(f, le);
    if modes.None? then None
    else
      Some(Frame(f.width, seq(|f.rows|, i requires 0 <= i < |f.rows| =>
        seq(f.width, c requires 0 <= c < f.width => FillCell(f.rows[i][c], modes.value[c])))))
  }

  /** The cell of the cleaned frame, from the column's mode. */
  lemma CleanedCell<T(!new)>(f: Frame<T>, le: (T, T) -> bool, i: nat, c: nat)
    requires TotalOrder(le) && WellFormed(f)
    requires Clean(f, le).Some?
    requires i < |f.rows| && c < f.width
    ensures Clean(f, le).value.rows[i][c] == FillCell(f.rows[i][c], FirstMode(Column(f, c), le))
  {
  }

  /** Cleaning never changes a non-null cell. */
  lemma NonNullUnchanged<T(!new)>(f: Frame<T>, le: (T, T) -> bool, i: nat, c: nat)
    requires TotalOrder(le) && WellFormed(f) && Clean(f, le).Some?
    requires i < |f.rows| && c < f.width && f.rows[i][c].Some?
    ensures Clean(f, le).value.rows[i][c] == f.rows[i][c]
  {
    CleanedCell(f, le, i, c);
  }

  /** A null cell of a column that has a non-null value becomes the column's first
      mode: the most frequent non-null value, smallest on a tie. */
  lemma NullGetsFirstMode<T(!new)>(f: Frame<T>, le: (T, T) -> bool, i: nat, c: nat)
    requires TotalOrder(le) && WellFormed(f) && Clean(f, le).Some?
    requires i < |f.rows| && c < f.width && f.rows[i][c].None? && !AllNull(f, c)
    ensures Clean(f, le).value.rows[i][c].Some?
    ensures IsFirstMode(Column(f, c), le, Clean(f, le).value.rows[i][c].value)
  {
    CleanedCell(f, le, i, c);
  }

  /** After cleaning, a column that had a non-null value has no null; a column with
      none stays all null. */
  lemma NullsFilled<T(!new)>(f: Frame<T>, le: (T, T) -> bool, c: nat)
    requires TotalOrder(le) && WellFormed(f) && Clean(f, le).Some?
    requires c < f.width
    ensures !AllNull(f, c) ==> forall i :: 0 <= i < |f.rows| ==> Clean(f, le).value.rows[i][c].Some?
    ensures AllNull(f, c) ==> AllNull(Clean(f, le).value, c)
  {
    forall i | 0 <= i < |f.rows| {
      CleanedCell(f, le, i, c);
    }
  }

  /** A column's cleaned cells depend on that column alone. */
  lemma ColumnsIndependent<T(!new)>(f: Frame<T>, g: Frame<T>, le: (T, T) -> bool, c: nat)
    requires TotalOrder(le) && WellFormed(f) && WellFormed(g)
    requires Clean(f, le).Some? && Clean(g, le).Some?
    requires c < f.width && c < g.width && Column(f, c) == Column(g, c)
    ensures Column(Clean(f, le).value, c) == Column(Clean(g, le).value, c)
  {
    var a, b := Column(Clean(f, le).value, c), Column(Clean(g, le).value, c);
    forall i | 0 <= i < |a| ensures a[i] == b[i] {
      CleanedCell(f, le, i, c);
      CleanedCell(g, le, i, c);
      assert f.rows[i][c] == Column(f, c)[i] == Column(g, c)[i] == g.rows[i][c];
    }
  }

  /** Cleaning a cleaned frame changes nothing: the nulls left are in all-null
      columns, whose fill is null. */
  lemma CleanIdempotent<T(!new)>(f: Frame<T>, le: (T, T) -> bool)
    requires TotalOrder(le) && WellFormed(f) && Clean(f, le).Some?
    ensures Clean(Clean(f, le).value, le) == Clean(f, le)
  {
    var g := Clean(f, le).value;
    CleanedStaysCleanable(f, le);
    var h := Clean(g, le).value;
    RecleanedRows(f, le);
    SameRowsSameFrame(h, g);
  }

  lemma SameRowsSameFrame<T>(a: Frame<T>, b: Frame<T>)
    requires a.width == b.width && |a.rows| == |b.rows|
    requires forall i :: 0 <= i < |a.rows| ==> a.rows[i] == b.rows[i]
    ensures a == b
  {
  }

  lemma RecleanedRows<T(!new)>(f: Frame<T>, le: (T, T) -> bool)
    requires TotalOrder(le) && WellFormed(f) && Clean(f, le).Some?
    requires Clean(Clean(f, le).value, le).Some?
    ensures Clean(Clean(f, le).value, le).value.width == Clean(f, le).value.width
    ensures |Clean(Clean(f, le).value, le).value.rows| == |Clean(f, le).value.rows|
    ensures forall i :: 0 <= i < |f.rows| ==> Clean(Clean(f, le).value, le).value.rows[i] == Clean(f, le).value.rows[i]
  {
    forall i | 0 <= i < |f.rows|
      ensures Clean(Clean(f, le).value, le).value.rows[i] == Clean(f, le).value.rows[i]
    {
      RecleanedRow(f, le, i);
    }
  }

  /** A cleaned frame still has a column with a non-null value. */
  lemma CleanedStaysCleanable<T(!new)>(f: Frame<T>, le: (T, T) -> bool)
    requires TotalOrder(le) && WellFormed(f) && Clean(f, le).Some?
    ensures Clean(Clean(f, le).value, le).Some?
  {
    var g := Clean(f, le).value;
    var c0 :| 0 <= c0 < f.width && !AllNull(f, c0);
    var i0 :| 0 <= i0 < |f.rows| && f.rows[i0][c0].Some?;
    CleanedCell(f, le, i0, c0);
    assert !AllNull(g, c0);
  }

  lemma RecleanedRow<T(!new)>(f: Frame<T>, le: (T, T) -> bool, i: nat)
    requires TotalOrder(le) && WellFormed(f) && Clean(f, le).Some?
    requires Clean(Clean(f, le).value, le).Some?
    requires i < |f.rows|
    ensures Clean(Clean(f, le).value, le).value.rows[i] == Clean(f, le).value.rows[i]
  {
    var g := Clean(f, le).value;
    var h := Clean(g, le).value;
    forall c | 0 <= c < f.width ensures h.rows[i][c] == g.rows[i][c] {
      RecleanedCell(f, le, i, c);
    }
  }

  /** One cell of a cleaned frame survives a second cleaning. */
  lemma RecleanedCell<T(!new)>(f: Frame<T>, le: (T, T) -> bool, i: nat, c: nat)
    requires TotalOrder(le) && WellFormed(f) && Clean(f, le).Some?
    requires Clean(Clean(f, le).value, le).Some?
    requires i < |f.rows| && c < f.width
    ensures Clean(Clean(f, le).value, le).value.rows[i][c] == Clean(f, le).value.rows[i][c]
  {
    var g := Clean(f, le).value;
    CleanedCell(g, le, i, c);
    if g.rows[i][c].None? {
      NullsFilled(f, le, c);
      ModeOfAllNull(g, le, c);
    }
  }
}
