/**
 * `update_database`: one pass of reconciliation of scraped records against
 * the `subastas` table (one row per link, `enlace` UNIQUE) and the
 * `historial_subastas` table (append-only).
 *
 * The pass reads `precio` and `ofertas` of every row into a dictionary once,
 * before the loop, and compares every record against that frozen copy:
 *  - a link present in the copy whose price text and bid count both equal the
 *    copy's is left alone;
 *  - a link present in the copy with a different price text or bid count has
 *    `precio`, `ofertas`, `subasta_id` and its timestamp overwritten, and the
 *    full record is appended to the history;
 *  - a link absent from the copy is inserted, without any history row; a
 *    second insertion of the same link in one pass violates the UNIQUE
 *    constraint and the pass ends before its commit, so nothing is kept.
 *
 * PostgreSQL's CURRENT_TIMESTAMP is the start time of the transaction, so all
 * writes of one pass carry the same stamp, given here as `now`.
 */
module Reconcile {
  import opened Wrappers
  import opened Cards

  /** A `subastas` row, without its key `enlace` and its serial id. */
  datatype Row = Row(
    lote: string, descripcion: string, precio: string, ofertas: nat, imagen: string, subastaId: string,
    stamp: nat)

  /** What the pass remembers of a row before its loop. */
  datatype Seen = Seen(precio: string, ofertas: nat)

  /** A `historial_subastas` row, without its serial id. */
  datatype HistoryRow = HistoryRow(entry: Record, stamp: nat)

  /** Both tables as one open transaction sees them. */
  datatype Tables = Tables(subastas: map<string, Row>, historial: seq<HistoryRow>)

  /** The database refuses a statement of the pass. */
  datatype DbError = UniqueViolation(enlace: string)

  function SeenOf(row: Row): Seen {
    Seen(row.precio, row.ofertas)
  }

  /** The dictionary `existing`, built from `subastas` before the loop. */
  function Snapshot(subastas: map<string, Row>): (existing: map<string, Seen>)
    ensures existing.Keys == subastas.Keys
    ensures forall k :: k in existing ==>
      existing[k].precio == subastas[k].precio && existing[k].ofertas == subastas[k].ofertas
  {
    map k | k in subastas :: SeenOf(subastas[k])
  }

  predicate Changed(r: Record, s: Seen) {
    r.precio != s.precio || r.ofertas != s.ofertas
  }

  /** The row an INSERT of `r` creates. */
  function RowOf(r: Record, now: nat): Row {
    Row(r.lote, r.descripcion, r.precio, r.ofertas, r.imagen, r.subastaId, now)
  }

  /** The record a row of `subastas` holds. */
  function RecordOf(enlace: string, row: Row): Record {
    Record(row.lote, row.descripcion, row.precio, row.ofertas, row.imagen, enlace, row.subastaId)
  }

  /** The effect of the UPDATE statement on the row it selects. */
  function Overwrite(row: Row, r: Record, now: nat): Row {
    row.(precio := r.precio, ofertas := r.ofertas, subastaId := r.subastaId, stamp := now)
  }

  /** The statements the loop issues for one record, against the frozen `existing`. */
  function Step(existing: map<string, Seen>, t: Tables, r: Record, now: nat): (res: Result<Tables, DbError>)
    // an unchanged record writes nothing at all
    ensures r.enlace in existing && !Changed(r, existing[r.enlace]) ==> res == Ok(t)
    // a changed record: one history row holding the full record, and only its own row touched
    ensures r.enlace in existing && Changed(r, existing[r.enlace]) ==>
      && res.Ok?
      && res.value.historial == t.historial + [HistoryRow(r, now)]
      && res.value.subastas.Keys == t.subastas.Keys
      && (forall k :: k in t.subastas && k != r.enlace ==> res.value.subastas[k] == t.subastas[k])
    ensures r.enlace in existing && Changed(r, existing[r.enlace]) && r.enlace in t.subastas ==>
      var before, after := t.subastas[r.enlace], res.value.subastas[r.enlace];
      && after.precio == r.precio && after.ofertas == r.ofertas && after.subastaId == r.subastaId
      && after.stamp == now
      && after.lote == before.lote && after.descripcion == before.descripcion && after.imagen == before.imagen
    // a new link: one row equal to the record, no history
    ensures r.enlace !in existing && r.enlace !in t.subastas ==>
      && res.Ok?
      && res.value.historial == t.historial
      && res.value.subastas.Keys == t.subastas.Keys + {r.enlace}
      && RecordOf(r.enlace, res.value.subastas[r.enlace]) == r
      && res.value.subastas[r.enlace].stamp == now
      && (forall k :: k in t.subastas ==> res.value.subastas[k] == t.subastas[k])
    // a new link that this pass already inserted: the UNIQUE constraint fails
    ensures r.enlace !in existing && r.enlace in t.subastas ==> res == Err(UniqueViolation(r.enlace))
  {
    if r.enlace in existing then
      if Changed(r, existing[r.enlace]) then
        var subastas :=
          if r.enlace in t.subastas then t.subastas[r.enlace := Overwrite(t.subastas[r.enlace], r, now)]
          else t.subastas;
        Ok(Tables(subastas, t.historial + [HistoryRow(r, now)]))
      else Ok(t)
    else if r.enlace in t.subastas then Err(UniqueViolation(r.enlace))
    else Ok(Tables(t.subastas[r.enlace := RowOf(r, now)], t.historial))
  }

  /** The whole loop: the statements for every record in order, stopping at the first failure. */
  function Run(existing: map<string, Seen>, t: Tables, records: seq<Record>, now: nat): (res: Result<Tables, DbError>)
    // a failure names the link of some record that the frozen copy lacks
    ensures res.Err? ==>
      exists j :: 0 <= j < |records| && records[j].enlace == res.error.enlace && records[j].enlace !in existing
    decreases records
  {
    if records == [] then Ok(t)
    else match Step(existing, t, records[0], now)
      case Err(e) => Err(e)
      case Ok(t') => Run(existing, t', records[1..], now)
  }

  /** The history rows a pass appends: one full record per changed known link, in order. */
  function HistoryFor(existing: map<string, Seen>, records: seq<Record>, now: nat): seq<HistoryRow>
  {
    if records == [] then []
    else
      var r := records[0];
      (if r.enlace in existing && Changed(r, existing[r.enlace]) then [HistoryRow(r, now)] else [])
      + HistoryFor(existing, records[1..], now)
  }

  /**
   * The history a pass writes holds no more rows than records, and each row
   * is one of the records, stamped `now`, whose known link changed.
   */
  lemma {:induction false} HistoryForEntries(existing: map<string, Seen>, records: seq<Record>, now: nat)
    ensures var h := HistoryFor(existing, records, now);
      && |h| <= |records|
      && forall i :: 0 <= i < |h| ==>
        && h[i].entry in records && h[i].stamp == now
        && h[i].entry.enlace in existing && Changed(h[i].entry, existing[h[i].entry.enlace])
    decreases records
  {
    if records != [] {
      HistoryForEntries(existing, records[1..], now);
      var h := HistoryFor(existing, records, now);
      var tail := HistoryFor(existing, records[1..], now);
      forall i | 0 <= i < |h|
        ensures h[i].entry in records
      {
        if h[i] != HistoryRow(records[0], now) {
          var j :| 0 <= j < |tail| && tail[j] == h[i];
          assert h[i].entry in records[1..];
        }
      }
    }
  }

  /** One successful record appends its history rows, if any, and keeps every link. */
  lemma StepHistory(existing: map<string, Seen>, t: Tables, r: Record, now: nat)
    requires Step(existing, t, r, now).Ok?
    ensures Step(existing, t, r, now).value.historial
      == t.historial + HistoryFor(existing, [r], now)
    ensures t.subastas.Keys <= Step(existing, t, r, now).value.subastas.Keys
  {
    assert [r][1..] == [];
  }

  /**
   * A successful pass only appends to the history, exactly the rows of the
   * changed known links, and never removes a link from `subastas`.
   */
  lemma {:induction false} RunHistory(existing: map<string, Seen>, t: Tables, records: seq<Record>, now: nat)
    requires Run(existing, t, records, now).Ok?
    ensures Run(existing, t, records, now).value.historial == t.historial + HistoryFor(existing, records, now)
    ensures t.subastas.Keys <= Run(existing, t, records, now).value.subastas.Keys
    decreases records
  {
    if records != [] {
      var r := records[0];
      var t' := Step(existing, t, r, now).value;
      assert Run(existing, t, records, now) == Run(existing, t', records[1..], now);
      StepHistory(existing, t, r, now);
      RunHistory(existing, t', records[1..], now);
    }
  }

  /** A record adds its link to `subastas` exactly when the frozen copy lacks it. */
  lemma StepKeys(existing: map<string, Seen>, t: Tables, r: Record, now: nat)
    requires existing.Keys <= t.subastas.Keys
    requires Step(existing, t, r, now).Ok?
    ensures Step(existing, t, r, now).value.subastas.Keys
      == if r.enlace in existing then t.subastas.Keys else t.subastas.Keys + {r.enlace}
  {
  }

  /**
   * Record `j` inserts a link for the second time: the link is new to the
   * frozen copy and is already in `keys` or appears in an earlier record.
   */
  ghost predicate ConflictAt(existing: map<string, Seen>, keys: set<string>, records: seq<Record>, j: int)
    requires 0 <= j < |records|
  {
    records[j].enlace !in existing
    && (records[j].enlace in keys || exists i :: 0 <= i < j && records[i].enlace == records[j].enlace)
  }

  /** Dropping the first record and adding its link to `keys` keeps every later conflict. */
  lemma ConflictShift(existing: map<string, Seen>, keys: set<string>, records: seq<Record>, j: int)
    requires 1 <= j < |records|
    ensures ConflictAt(existing, keys, records, j)
        <==> ConflictAt(existing, keys + {records[0].enlace}, records[1..], j - 1)
  {
    var rest := records[1..];
    if ConflictAt(existing, keys + {records[0].enlace}, rest, j - 1) && records[j].enlace !in keys {
      if records[j].enlace != records[0].enlace {
        var i :| 0 <= i < j - 1 && rest[i].enlace == rest[j - 1].enlace;
        assert records[i + 1].enlace == records[j].enlace;
      }
    }
    if ConflictAt(existing, keys, records, j) && records[j].enlace !in keys {
      var i :| 0 <= i < j && records[i].enlace == records[j].enlace;
      if i > 0 {
        assert rest[i - 1].enlace == rest[j - 1].enlace;
      }
    }
  }

  /** The pass fails exactly when some record inserts a link a second time. */
  lemma {:induction false} RunFailsIffConflict(
    existing: map<string, Seen>, t: Tables, records: seq<Record>, now: nat)
    requires existing.Keys <= t.subastas.Keys
    ensures Run(existing, t, records, now).Err? <==>
      exists j :: 0 <= j < |records| && ConflictAt(existing, t.subastas.Keys, records, j)
    decreases records
  {
    if records != [] {
      var r := records[0];
      var rest := records[1..];
      var keys := t.subastas.Keys;
      if r.enlace !in existing && r.enlace in keys {
        assert ConflictAt(existing, keys, records, 0);
      } else {
        var t' := Step(existing, t, r, now).value;
        var keys' := t'.subastas.Keys;
        StepKeys(existing, t, r, now);
        assert Run(existing, t, records, now) == Run(existing, t', rest, now);
        RunFailsIffConflict(existing, t', rest, now);
        assert !ConflictAt(existing, keys, records, 0);
        assert keys' == keys + {r.enlace};
        forall j | 1 <= j < |records|
          ensures ConflictAt(existing, keys, records, j) <==> ConflictAt(existing, keys', rest, j - 1)
        {
          ConflictShift(existing, keys, records, j);
        }
        if exists j :: 0 <= j < |rest| && ConflictAt(existing, keys', rest, j) {
          var j :| 0 <= j < |rest| && ConflictAt(existing, keys', rest, j);
          assert ConflictAt(existing, keys, records, j + 1);
        }
        if exists j :: 0 <= j < |records| && ConflictAt(existing, keys, records, j) {
          var j :| 0 <= j < |records| && ConflictAt(existing, keys, records, j);
          assert ConflictAt(existing, keys', rest, j - 1);
        }
      }
    }
  }

  /**
   * Two records of one pass with the same link that the table did not hold
   * before the pass: the second INSERT breaks the UNIQUE constraint on
   * `enlace` and the pass commits nothing.
   */
  lemma RepeatedNewLinkFails(t: Tables, records: seq<Record>, now: nat, i: nat, j: nat)
    requires i < j < |records|
    requires records[i].enlace == records[j].enlace && records[i].enlace !in t.subastas
    ensures Run(Snapshot(t.subastas), t, records, now).Err?
  {
    var existing := Snapshot(t.subastas);
    assert ConflictAt(existing, t.subastas.Keys, records, j);
    RunFailsIffConflict(existing, t, records, now);
  }

  /**
   * Every record is compared with the frozen copy, not with the row as the
   * pass left it: when a stored link appears twice, a first record that
   * changed it and a second that matches the copy, the second is skipped and
   * the row keeps the first record's values, so the last occurrence does not
   * win.
   */
  lemma FrozenCopyKeepsEarlierChange(t: Tables, r1: Record, r2: Record, now: nat)
    requires r1.enlace == r2.enlace && r1.enlace in t.subastas
    requires Changed(r1, SeenOf(t.subastas[r1.enlace]))
    requires !Changed(r2, SeenOf(t.subastas[r1.enlace]))
    ensures Run(Snapshot(t.subastas), t, [r1, r2], now).Ok?
    ensures var t2 := Run(Snapshot(t.subastas), t, [r1, r2], now).value;
      && r1.enlace in t2.subastas
      && t2.subastas[r1.enlace].precio == r1.precio && t2.subastas[r1.enlace].ofertas == r1.ofertas
      && t2.historial == t.historial + [HistoryRow(r1, now)]
  {
    var existing := Snapshot(t.subastas);
    var t1 := Step(existing, t, r1, now).value;
    assert [r1, r2][1..] == [r2] && [r2][1..] == [];
    assert Run(existing, t, [r1, r2], now) == Run(existing, t1, [r2], now);
    assert Step(existing, t1, r2, now) == Ok(t1);
  }

  /** Records `j` and `k` never share a link. */
  predicate DistinctLinks(records: seq<Record>) {
    forall j, k :: 0 <= j < k < |records| ==> records[j].enlace != records[k].enlace
  }

  /** A pass leaves alone the row of every link none of its records carries. */
  lemma {:induction false} RunFrame(
    existing: map<string, Seen>, t: Tables, records: seq<Record>, now: nat, k: string)
    requires Run(existing, t, records, now).Ok?
    requires k in t.subastas
    requires forall j :: 0 <= j < |records| ==> records[j].enlace != k
    ensures k in Run(existing, t, records, now).value.subastas
    ensures Run(existing, t, records, now).value.subastas[k] == t.subastas[k]
    decreases records
  {
    if records != [] {
      var t' := Step(existing, t, records[0], now).value;
      assert Run(existing, t, records, now) == Run(existing, t', records[1..], now);
      RunFrame(existing, t', records[1..], now, k);
    }
  }

  /**
   * After a successful pass over distinct links, every link's row shows the
   * price text and bid count of its record, provided each known link's row
   * still matched the frozen copy when the pass began.
   */
  lemma {:induction false} RunLanded(existing: map<string, Seen>, t: Tables, records: seq<Record>, now: nat)
    requires DistinctLinks(records)
    requires existing.Keys <= t.subastas.Keys
    requires forall j :: 0 <= j < |records| && records[j].enlace in existing ==>
      SeenOf(t.subastas[records[j].enlace]) == existing[records[j].enlace]
    requires Run(existing, t, records, now).Ok?
    ensures forall j :: 0 <= j < |records| ==>
      && records[j].enlace in Run(existing, t, records, now).value.subastas
      && SeenOf(Run(existing, t, records, now).value.subastas[records[j].enlace])
         == Seen(records[j].precio, records[j].ofertas)
    decreases records
  {
    if records != [] {
      var r := records[0];
      var rest := records[1..];
      var t' := Step(existing, t, r, now).value;
      var t2 := Run(existing, t, records, now).value;
      assert Run(existing, t, records, now) == Run(existing, t', rest, now);
      assert r.enlace in t'.subastas && SeenOf(t'.subastas[r.enlace]) == Seen(r.precio, r.ofertas);
      forall j | 0 <= j < |rest|
        ensures rest[j].enlace != r.enlace
      {
        assert records[j + 1] == rest[j];
      }
      RunLanded(existing, t', rest, now);
      RunFrame(existing, t', rest, now, r.enlace);
      forall j | 0 <= j < |records|
        ensures records[j].enlace in t2.subastas && SeenOf(t2.subastas[records[j].enlace]) == Seen(records[j].precio, records[j].ofertas)
      {
        if j > 0 {
          assert records[j] == rest[j - 1];
        }
      }
    }
  }

  /** A pass whose every record matches the frozen copy writes nothing. */
  lemma {:induction false} RunNoWrites(existing: map<string, Seen>, t: Tables, records: seq<Record>, now: nat)
    requires forall j :: 0 <= j < |records| ==>
      records[j].enlace in existing && !Changed(records[j], existing[records[j].enlace])
    ensures Run(existing, t, records, now) == Ok(t)
    decreases records
  {
    if records != [] {
      RunNoWrites(existing, t, records[1..], now);
    }
  }

  /**
   * With pairwise distinct links a pass always commits, and a second pass over
   * the same records, against the committed tables, writes nothing: no row,
   * no timestamp and no history changes.
   */
  lemma RunTwiceWritesNothing(t: Tables, records: seq<Record>, now: nat, later: nat)
    requires DistinctLinks(records)
    ensures Run(Snapshot(t.subastas), t, records, now).Ok?
    ensures var t1 := Run(Snapshot(t.subastas), t, records, now).value;
      Run(Snapshot(t1.subastas), t1, records, later) == Ok(t1)
  {
    var existing := Snapshot(t.subastas);
    RunFailsIffConflict(existing, t, records, now);
    forall j | 0 <= j < |records|
      ensures !ConflictAt(existing, t.subastas.Keys, records, j)
    {
    }
    RunLanded(existing, t, records, now);
    var t1 := Run(existing, t, records, now).value;
    RunNoWrites(Snapshot(t1.subastas), t1, records, later);
  }

  /**
   * Two passes over links "A" and "B" on empty tables.  The first inserts
   * both rows and writes no history; the second, where only A's bid count
   * moved from 2 to 3, overwrites A's row and appends one history row, and
   * leaves B untouched.
   */
  lemma TwoPassScenario()
    ensures
      var a := Record("Lote 1", "Silla", "$100", 2, "a.jpg", "A", "2153");
      var b := Record("Lote 2", "Mesa", "$250", 0, "b.jpg", "B", "2153");
      var a' := a.(ofertas := 3);
      var first := Tables(map["A" := RowOf(a, 1), "B" := RowOf(b, 1)], []);
      && Run(Snapshot(map[]), Tables(map[], []), [a, b], 1) == Ok(first)
      && Run(Snapshot(first.subastas), first, [a', b], 2)
         == Ok(Tables(first.subastas["A" := RowOf(a, 1).(ofertas := 3, stamp := 2)], [HistoryRow(a', 2)]))
  {
    var a := Record("Lote 1", "Silla", "$100", 2, "a.jpg", "A", "2153");
    var b := Record("Lote 2", "Mesa", "$250", 0, "b.jpg", "B", "2153");
    var a' := a.(ofertas := 3);
    var t0 := Tables(map[], []);
    var t1 := Tables(map["A" := RowOf(a, 1)], []);
    var first := Tables(map["A" := RowOf(a, 1), "B" := RowOf(b, 1)], []);
    assert Step(Snapshot(map[]), t0, a, 1) == Ok(t1);
    assert Step(Snapshot(map[]), t1, b, 1) == Ok(first);
    assert [a, b][1..] == [b] && [b][1..] == [];
    assert Run(Snapshot(map[]), t1, [b], 1) == Run(Snapshot(map[]), first, [], 1);
    var existing := Snapshot(first.subastas);
    assert "A" != "B";
    assert existing["A"] == Seen("$100", 2) && existing["B"] == Seen("$250", 0);
    var second := Tables(first.subastas["A" := RowOf(a, 1).(ofertas := 3, stamp := 2)], [HistoryRow(a', 2)]);
    assert first.subastas["A"] == RowOf(a, 1);
    assert Overwrite(RowOf(a, 1), a', 2) == RowOf(a, 1).(ofertas := 3, stamp := 2);
    assert first.historial + [HistoryRow(a', 2)] == [HistoryRow(a', 2)];
    assert Step(existing, first, a', 2) == Ok(second);
    assert Step(existing, second, b, 2) == Ok(second);
    assert [a', b][1..] == [b];
    assert Run(existing, second, [b], 2) == Run(existing, second, [], 2);
  }

  /** How a pass ends: its writes committed, or all of them rolled back. */
  datatype Outcome = Committed | RolledBack(error: DbError)

  /** The two tables of the database. */
  class Store {
    var subastas: map<string, Row>
    var historial: seq<HistoryRow>

    /** A database whose tables have just been created. */
    constructor ()
      ensures subastas == map[] && historial == []
    {
      subastas := map[];
      historial := [];
    }

    function Contents(): Tables
      reads this
    {
      Tables(subastas, historial)
    }

    /**
     * One pass of `update_database`: the loop's statements run in one
     * transaction, which is committed when all succeed and otherwise leaves
     * both tables as they were.
     */
    method UpdateDatabase(articulos: seq<Record>, now: nat) returns (outcome: Outcome)
      modifies this
      ensures var res := Run(Snapshot(old(subastas)), old(Contents()), articulos, now);
        && (outcome == Committed <==> res.Ok?)
        && (res.Ok? ==> Contents() == res.value)
        && (res.Err? ==> outcome == RolledBack(res.error) && Contents() == old(Contents()))
      ensures old(historial) <= historial
      ensures old(subastas).Keys <= subastas.Keys
    {
      var existing := Snapshot(subastas);
      ghost var start := Contents();
      var table, hist := subastas, historial;
      var i := 0;
      while i < |articulos|
        invariant 0 <= i <= |articulos|
        invariant Run(existing, Tables(table, hist), articulos[i..], now) == Run(existing, start, articulos, now)
        invariant Contents() == start
      {
        var a := articulos[i];
        assert articulos[i..][1..] == articulos[i + 1..];
        if a.enlace in existing {
          var seen := existing[a.enlace];
          if a.precio != seen.precio || a.ofertas != seen.ofertas {
            if a.enlace in table {
              table := table[a.enlace := Overwrite(table[a.enlace], a, now)];
            }
            hist := hist + [HistoryRow(a, now)];
          }
        } else if a.enlace in table {
          outcome := RolledBack(UniqueViolation(a.enlace));
          return;
        } else {
          table := table[a.enlace := RowOf(a, now)];
        }
        i := i + 1;
      }
      RunHistory(existing, start, articulos, now);
      subastas, historial := table, hist;
      outcome := Committed;
    }
  }
}
