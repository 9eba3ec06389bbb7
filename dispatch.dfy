/** The "Run Query" button: look the selected name up in the query map, run the query
    and show its table, or a warning when nothing comes back. The dashboard runs the
    query against the database, whose failure it reports as an empty result; the
    earlier variant runs it against a stand-in fetch that answers with a fixed two-row
    frame exactly when the SQL text contains `LIMIT 10`. */
module Dispatch {
  import opened Basics
  import opened Records
  import opened Values
  import opened Grouping
  import opened Query
  import opened Catalog

  /** What the button shows. */
  datatype RunOutcome =
    | NotFound                         // "Selected query not found."
    | NoResults                        // the "No results found ..." warning
    | Results(table: seq<seq<Cell>>)   // the result frame

  /** The shown table is the selected query's result, one line per row, and not empty. */
  predicate ShowsTable(name: string, rs: seq<StopRecord>, table: seq<seq<Cell>>)
  {
    && name in QUERY_MAP
    && table == Display(QUERY_MAP[name], Evaluate(QUERY_MAP[name], rs))
    && |table| > 0
  }

  /** The dashboard's button. `db` is what the connection yields: `None` when the
      query raised, which the fetch turns into an empty frame. */
  function RunQuery(name: string, db: Option<seq<StopRecord>>): (out: RunOutcome)
    ensures out.NotFound? <==> name !in QUERY_MAP
    ensures out.NoResults? <==> name in QUERY_MAP && (db.None? || Evaluate(QUERY_MAP[name], db.value) == [])
    ensures out.Results? ==> ShowsTable(name, db.value, out.table)
  {
    if name !in QUERY_MAP then NotFound
    else if db.None? then NoResults
    else
      var rows := Evaluate(QUERY_MAP[name], db.value);
      if rows == [] then NoResults else Results(Display(QUERY_MAP[name], rows))
  }

  /** No option of the select box reaches "Selected query not found.". */
  lemma EveryOptionIsFound(name: string, db: Option<seq<StopRecord>>)
    requires name in QUERY_OPTIONS
    ensures !RunQuery(name, db).NotFound?
  {
    OptionsAreKeys();
  }

  /** With no stop recorded, every query of the catalog gives no rows. */
  lemma EmptyLogGivesNoRows(q: QuerySpec)
    ensures Evaluate(q, []) == []
  {
    var gs := Aggregate([], q.sel);
    assert Keys([], q.sel) == [];
    assert gs == [];
    FilterEmpty(gs, HavingTest(q.having));
  }

  /** A query with a positive LIMIT shows a table exactly when some group survives
      WHERE and HAVING. */
  lemma ResultsIffSurvivors(q: QuerySpec, rs: seq<StopRecord>)
    requires q.limit != Some(0)
    ensures Evaluate(q, rs) != [] <==> |Survivors(rs, q)| > 0
  {
  }

  /** Every LIMIT of the dashboard's catalog is positive. */
  lemma CatalogLimitsPositive(name: string)
    requires name in QUERY_MAP
    ensures QUERY_MAP[name].limit != Some(0)
  {
  }

  /** For any option and any log: the table is shown exactly when some group of the
      selected query survives WHERE and HAVING, and an empty log always warns. */
  lemma OptionOutcome(name: string, rs: seq<StopRecord>)
    requires name in QUERY_OPTIONS
    ensures RunQuery(name, Some(rs)).Results? <==> |Survivors(rs, QUERY_MAP[name])| > 0
    ensures rs == [] ==> RunQuery(name, Some(rs)).NoResults?
  {
    OptionsAreKeys();
    CatalogLimitsPositive(name);
    ResultsIffSurvivors(QUERY_MAP[name], rs);
    if rs == [] {
      EmptyLogGivesNoRows(QUERY_MAP[name]);
    }
  }

  // ---------------------------------------------------------------------------
  // The earlier variant's stand-in fetch
  // ---------------------------------------------------------------------------

  function DigitChar(d: nat): char
    requires d < 10
  {
    ('0' as int + d) as char
  }

  /** The decimal numeral of `n`, as Python's `str` writes it. */
  function NatToString(n: nat): (s: string)
    ensures |s| >= 1
    ensures forall i :: 0 <= i < |s| ==> '0' <= s[i] <= '9'
    ensures n >= 10 ==> s == NatToString(n / 10) + [DigitChar(n % 10)]
  {
    if n < 10 then [DigitChar(n)] else NatToString(n / 10) + [DigitChar(n % 10)]
  }

  /** The query's final clause, as its SQL text ends: `LIMIT n`, or nothing. */
  function LimitClause(limit: Option<nat>): string
  {
    if limit.None? then "" else "LIMIT " + NatToString(limit.value)
  }

  /** The fixed frame the stand-in returns: columns `Example_Column` and `Result`. */
  const MOCK_TABLE: seq<seq<Cell>> := [[Plain(Int(1)), Plain(Str("A"))], [Plain(Int(2)), Plain(Str("B"))]]

  /** The stand-in fetch: the fixed frame when the SQL text contains `LIMIT 10`, an
      empty frame otherwise. */
  function MockFetch(sql: string): (table: seq<seq<Cell>>)
    ensures table != [] <==> Contains(sql, "LIMIT 10")
    ensures Contains(sql, "LIMIT 10") ==> table == MOCK_TABLE
  {
    if Contains(sql, "LIMIT 10") then MOCK_TABLE else []
  }

  /** The earlier variant's button; it indexes the map directly, so the name must be one
      of its keys (the select box offers only those). */
  function DemoRunQuery(name: string): (out: RunOutcome)
    requires name in DEMO_QUERY_MAP
    ensures !out.NotFound?
    ensures out.Results? <==> Contains(LimitClause(DEMO_QUERY_MAP[name].limit), "LIMIT 10")
    ensures out.Results? ==> out.table == MOCK_TABLE
  {
    var table := MockFetch(LimitClause(DEMO_QUERY_MAP[name].limit));
    if table == [] then NoResults else Results(table)
  }

  /** A numeral below 100 is "10" exactly for ten. */
  lemma NumeralBelowHundred(n: nat)
    requires n < 100
    ensures NatToString(n) == "10" <==> n == 10
  {
    if n >= 10 {
      assert NatToString(n) == [DigitChar(n / 10), DigitChar(n % 10)];
    }
  }

  /** Below 100, a LIMIT clause contains `LIMIT 10` exactly when it is `LIMIT 10`; a
      missing clause never does. */
  lemma LimitTenMatches(limit: Option<nat>)
    requires limit.None? || limit.value < 100
    ensures Contains(LimitClause(limit), "LIMIT 10") <==> limit == Some(10)
  {
    var clause := LimitClause(limit);
    if limit.None? {
      ContainsNeedsRoom(clause, "LIMIT 10");
    } else {
      var n := limit.value;
      NumeralBelowHundred(n);
      if n < 10 {
        ContainsNeedsRoom(clause, "LIMIT 10");
      } else {
        assert |clause| == 8;
        ContainsIffOccurs(clause, "LIMIT 10");
        if Contains(clause, "LIMIT 10") {
          var i :| OccursAt(clause, "LIMIT 10", i);
          assert i == 0 && clause == "LIMIT 10";
          assert clause[6..] == NatToString(n);
        } else {
          assert !OccursAt(clause, "LIMIT 10", 0);
        }
      }
    }
  }

  /** In the earlier variant, an option shows rows exactly when its query ends with
      `LIMIT 10`; all others warn. */
  lemma DemoShowsOnlyLimitTen(name: string)
    requires name in QUERY_OPTIONS
    ensures name in DEMO_QUERY_MAP
    ensures DemoRunQuery(name).Results? <==> DEMO_QUERY_MAP[name].limit == Some(10)
  {
    OptionsAreKeys();
    DemoLimitsBelowHundred(name);
    LimitTenMatches(DEMO_QUERY_MAP[name].limit);
  }

  lemma DemoLimitsBelowHundred(name: string)
    requires name in DEMO_QUERY_MAP
    ensures DEMO_QUERY_MAP[name].limit.None? || DEMO_QUERY_MAP[name].limit.value < 100
  {
  }
}
