/** How the two halves meet: the workbook `backend/prog.py` writes is the
    workbook `backend/app.py` loads. A cell written as an empty string,
    or as one of the strings pandas reads as a missing value, reads back
    as an empty cell. */
module Pipeline {
  import opened Wrappers
  import opened Categories
  import Seqs
  import Issues
  import Snapshot

  /** The strings `pandas.read_excel` reads as a missing value by default
      (its `keep_default_na` list), the empty string among them. */
  const NaStrings: set<string> := {
    "", "#N/A", "#N/A N/A", "#NA", "-1.#IND", "-1.#QNAN", "-NaN", "-nan",
    "1.#IND", "1.#QNAN", "<NA>", "N/A", "NA", "NULL", "NaN", "None",
    "n/a", "nan", "null"
  }

  /** A written cell as it reads back: a missing-value string is an empty
      cell, and any other string reads back as itself. */
  function Cell(s: string): (r: Option<string>)
    ensures r.None? <==> s in NaStrings
    ensures r.Some? ==> r.value == s
  {
    if s in NaStrings then None else Some(s)
  }

  /** A written row as it reads back. */
  function ReadBack(row: Issues.IssueRow): (r: Snapshot.Record)
    ensures r.key == Cell(row.key) && r.ip == Cell(row.ip) && r.platform == Cell(row.platform)
    ensures r.resolution == Some(row.resolution) || row.resolution in NaStrings
  {
    Snapshot.Record(Cell(row.key), Cell(row.filter), Cell(row.summary), Cell(row.platform),
      Cell(row.ip), Cell(row.status), Cell(row.dueDate), Cell(row.resolution))
  }

  /** A written sheet as it reads back, row by row. */
  function ReadBackAll(rows: seq<Issues.IssueRow>): (r: seq<Snapshot.Record>)
    ensures |r| == |rows| && forall i :: 0 <= i < |r| ==> r[i] == ReadBack(rows[i])
  {
    seq(|rows|, i requires 0 <= i < |rows| => ReadBack(rows[i]))
  }

  /** The sheets of a written workbook as they read back. */
  function ReadSheets(wb: Issues.Workbook): (r: map<string, seq<Snapshot.Record>>)
    ensures r.Keys == wb.Keys
    ensures forall k :: k in wb ==> r[k] == ReadBackAll(wb[k])
  {
    map k | k in wb :: ReadBackAll(wb[k])
  }

  /** The snapshot file `main` leaves behind: the saved workbook as it reads
      back, or, when the save failed, a truncated file that reading fails on
      with the reader's message `unreadable`, which is not modelled. */
  function SavedFile(w: Result<Issues.Workbook>, unreadable: string): (r: Snapshot.Source)
    ensures w.Success? ==> r.Workbook? && r.sheets.Keys == w.value.Keys
    ensures w.Failure? ==> r == Snapshot.Broken(unreadable)
  {
    match w
    case Success(wb) => Snapshot.Workbook(ReadSheets(wb))
    case Failure(_) => Snapshot.Broken(unreadable)
  }

  /** When no category yields rows, `main` fails to save and leaves a file
      the dashboard cannot read: loading it fails with the reader's message
      and the cache keeps the previous tables. */
  lemma NothingFetchedKeepsCache(fetched: map<Category, seq<Issues.IssueRow>>, unreadable: string, cache: Snapshot.Cache)
    requires forall c: Category :: c !in fetched || |fetched[c]| == 0
    ensures Issues.WriteSnapshot(fetched) == Failure(Issues.NoVisibleSheetMessage)
    ensures Snapshot.Load(SavedFile(Issues.WriteSnapshot(fetched), unreadable), cache) == (cache, Failure(unreadable))
  {
  }

  /** An interface label that pandas reads as a missing value, such as
      "NA", is never a Target interface of the loaded rows, so it never
      gets a line of the summary. */
  lemma NaInterfaceVanishes(rows: seq<Issues.IssueRow>, ip: string)
    requires ip in NaStrings
    ensures ip !in Snapshot.TargetIps(Snapshot.Tag(Target, ReadBackAll(rows)))
  {
    var tagged := Snapshot.Tag(Target, ReadBackAll(rows));
    forall i | 0 <= i < |tagged| ensures tagged[i].rec.ip != Some(ip) {
      assert tagged[i].rec.ip == Cell(rows[i].ip);
    }
  }

  /** A category whose filter yields no rows gets no sheet, so loading the
      snapshot fails and the cache keeps the previous tables, whether the
      save succeeded without that sheet or failed for want of any sheet. */
  lemma EmptyCategoryKeepsCache(fetched: map<Category, seq<Issues.IssueRow>>, c: Category, unreadable: string,
                                cache: Snapshot.Cache)
    requires c !in fetched || |fetched[c]| == 0
    ensures
      var r := Snapshot.Load(SavedFile(Issues.WriteSnapshot(fetched), unreadable), cache);
      r.0 == cache && r.1.Failure?
  {
    Issues.WriteSnapshotSheets(fetched);
    var w := Issues.WriteSnapshot(fetched);
    if w.Success? {
      assert c.Key() !in SavedFile(w, unreadable).sheets;
    }
  }

  /** When every category yields rows, loading the snapshot succeeds: the
      merged table holds the Target, Pass and Fail rows and the Unresolved
      table the Unresolved rows. */
  lemma FullSnapshotLoads(fetched: map<Category, seq<Issues.IssueRow>>, unreadable: string, cache: Snapshot.Cache)
    requires forall c: Category :: c in fetched && |fetched[c]| > 0
    ensures
      var r := Snapshot.Load(SavedFile(Issues.WriteSnapshot(fetched), unreadable), cache);
      && r.1.Success?
      && |r.1.value.merged| == |fetched[Target]| + |fetched[Pass]| + |fetched[Fail]|
      && |r.1.value.unresolved| == |fetched[Unresolved]|
      && (forall i :: 0 <= i < |r.1.value.merged| ==> r.1.value.merged[i].sheet != Unresolved)
      && (forall c: Category :: c != Unresolved ==>
            Seqs.Filter(r.1.value.merged, (x: Snapshot.Row) => x.sheet == c) == Snapshot.Tag(c, ReadBackAll(fetched[c])))
      && r.1.value.unresolved == Snapshot.Tag(Unresolved, ReadBackAll(fetched[Unresolved]))
  {
    Issues.WriteSnapshotSheets(fetched);
    assert Target.Key() in Issues.WriteSheets(fetched);
    var wb := Issues.WriteSnapshot(fetched).value;
    var sheets := ReadSheets(wb);
    assert Target.Key() in wb && Pass.Key() in wb && Fail.Key() in wb && Unresolved.Key() in wb;
    assert Snapshot.FirstMissing(sheets).None?;
    Snapshot.ReadBySheet(sheets);
  }
}
