/** The dashboard's reading side, `backend/app.py`: loading the snapshot
    workbook into a merged table (Target, Pass and Fail rows) and a separate
    Unresolved table with a fallback cache, the per-platform interface
    summary, and the numbered case listings. */
module Snapshot {
  import opened Wrappers
  import opened Categories
  import Text
  import Seqs

  /** One spreadsheet row as read back. Every cell may be empty (NaN),
      which is None here. */
  datatype Record = Record(
    key: Option<string>,
    filter: Option<string>,
    summary: Option<string>,
    platform: Option<string>,
    ip: Option<string>,
    status: Option<string>,
    dueDate: Option<string>,
    resolution: Option<string>)

  /** A loaded row together with its `SheetType`, the sheet it came from. */
  datatype Row = Row(sheet: Category, rec: Record)

  /** What opening the snapshot file gives: the workbook's sheets by name,
      a missing file, a refused file, or any other error with its message. */
  datatype Source =
    | Workbook(sheets: map<string, seq<Record>>)
    | NotFound
    | PermissionDenied
    | Broken(message: string)

  /** The last tables loaded successfully; nothing before the first load. */
  datatype Cache = Cache(merged: Option<seq<Row>>, unresolved: Option<seq<Row>>)

  const EmptyCache: Cache := Cache(None, None)

  /** The two tables the endpoints work on. */
  datatype Tables = Tables(merged: seq<Row>, unresolved: seq<Row>)

  const EmptyCacheMessage: string := "Test case data unavailable and cache is empty"

  /** The message of reading a sheet the workbook does not have. */
  function MissingSheetMessage(name: string): string {
    "Worksheet named '" + name + "' not found"
  }

  /** Position of a category in the order the sheets are read. */
  function ReadOrder(c: Category): nat {
    match c
    case Target => 0
    case Pass => 1
    case Fail => 2
    case Unresolved => 3
  }

  /** The first sheet, in reading order, that the workbook lacks. */
  function FirstMissing(sheets: map<string, seq<Record>>): (r: Option<Category>)
    ensures r.None? <==> forall c: Category :: c.Key() in sheets
    ensures r.Some? ==> r.value.Key() !in sheets
    ensures r.Some? ==> forall c: Category :: ReadOrder(c) < ReadOrder(r.value) ==> c.Key() in sheets
  {
    if Target.Key() !in sheets then Some(Target)
    else if Pass.Key() !in sheets then Some(Pass)
    else if Fail.Key() !in sheets then Some(Fail)
    else if Unresolved.Key() !in sheets then Some(Unresolved)
    else None
  }

  /** The records of one sheet, each tagged with that sheet. */
  function Tag(c: Category, recs: seq<Record>): (r: seq<Row>)
    ensures |r| == |recs|
    ensures forall i :: 0 <= i < |r| ==> r[i].sheet == c && r[i].rec == recs[i]
  {
    seq(|recs|, i requires 0 <= i < |recs| => Row(c, recs[i]))
  }

  /** The tables of a workbook that has all four sheets. */
  function Read(sheets: map<string, seq<Record>>): Tables
    requires FirstMissing(sheets).None?
  {
    Tables(
      Tag(Target, sheets[Target.Key()]) + Tag(Pass, sheets[Pass.Key()]) + Tag(Fail, sheets[Fail.Key()]),
      Tag(Unresolved, sheets[Unresolved.Key()]))
  }

  /** `get_ip_test_details_df` as a transition of the cache. A complete
      workbook replaces the cache and is returned. A missing sheet, or any
      error other than a missing or refused file, fails with its message and
      leaves the cache as it was. A missing or refused file answers from the
      cache, and fails when nothing was ever loaded. */
  function Load(src: Source, cache: Cache): (r: (Cache, Result<Tables>))
    ensures r.1.Success? ==> r.0 == Cache(Some(r.1.value.merged), Some(r.1.value.unresolved))
    ensures r.1.Failure? ==> r.0 == cache
    ensures src.Workbook? ==> (r.1.Success? <==> FirstMissing(src.sheets).None?)
    ensures src.Workbook? && FirstMissing(src.sheets).Some? ==>
      r.1.error == MissingSheetMessage(FirstMissing(src.sheets).value.Key())
    ensures src.Workbook? && r.1.Success? ==> r.1.value == Read(src.sheets)
    ensures src.NotFound? || src.PermissionDenied? ==>
      && r.0 == cache
      && (r.1.Success? <==> cache.merged.Some? && cache.unresolved.Some?)
      && (r.1.Success? ==> r.1.value == Tables(cache.merged.value, cache.unresolved.value))
      && (r.1.Failure? ==> r.1.error == EmptyCacheMessage)
    ensures src.Broken? ==> r == (cache, Failure(src.message))
  {
    match src
    case Workbook(sheets) =>
      (match FirstMissing(sheets)
       case Some(c) => (cache, Failure(MissingSheetMessage(c.Key())))
       case None =>
         var t := Read(sheets);
         (Cache(Some(t.merged), Some(t.unresolved)), Success(t)))
    case NotFound => Fallback(cache)
    case PermissionDenied => Fallback(cache)
    case Broken(message) => (cache, Failure(message))
  }

  /** The answer from the cache when the file cannot be opened. */
  function Fallback(cache: Cache): (r: (Cache, Result<Tables>))
    ensures r.0 == cache
  {
    if cache.merged.None? || cache.unresolved.None? then (cache, Failure(EmptyCacheMessage))
    else (cache, Success(Tables(cache.merged.value, cache.unresolved.value)))
  }

  /** In the merged table the Target rows come first, then Pass, then Fail,
      each exactly the records of its sheet in sheet order; the Unresolved
      table holds only the Unresolved sheet. */
  lemma ReadBySheet(sheets: map<string, seq<Record>>)
    requires FirstMissing(sheets).None?
    ensures var t := Read(sheets);
      && |t.merged| == |sheets[Target.Key()]| + |sheets[Pass.Key()]| + |sheets[Fail.Key()]|
      && (forall i :: 0 <= i < |t.merged| ==> t.merged[i].sheet != Unresolved)
      && (forall i :: 0 <= i < |t.unresolved| ==> t.unresolved[i].sheet == Unresolved)
      && (forall c: Category :: c != Unresolved ==>
            Seqs.Filter(t.merged, (x: Row) => x.sheet == c) == Tag(c, sheets[c.Key()]))
  {
    var t := Read(sheets);
    forall c: Category | c != Unresolved
      ensures Seqs.Filter(t.merged, (x: Row) => x.sheet == c) == Tag(c, sheets[c.Key()])
    {
      var keep := (x: Row) => x.sheet == c;
      var a, b, d := Tag(Target, sheets[Target.Key()]), Tag(Pass, sheets[Pass.Key()]), Tag(Fail, sheets[Fail.Key()]);
      Seqs.FilterAppend(a + b, d, keep);
      Seqs.FilterAppend(a, b, keep);
      TagFilter(Target, sheets[Target.Key()], c);
      TagFilter(Pass, sheets[Pass.Key()], c);
      TagFilter(Fail, sheets[Fail.Key()], c);
    }
  }

  /** Selecting one sheet from a tagged sheet keeps all of it or none of it. */
  lemma TagFilter(c: Category, recs: seq<Record>, d: Category)
    ensures Seqs.Filter(Tag(c, recs), (x: Row) => x.sheet == d) == if c == d then Tag(c, recs) else []
  {
    if c == d {
      Seqs.FilterAll(Tag(c, recs), (x: Row) => x.sheet == d);
    } else {
      Seqs.FilterNone(Tag(c, recs), (x: Row) => x.sheet == d);
    }
  }

  /** After a successful load, a missing or refused file answers with the
      tables of that load. */
  lemma FallbackAfterLoad(src: Source, cache: Cache, later: Source)
    requires Load(src, cache).1.Success?
    requires later.NotFound? || later.PermissionDenied?
    ensures Load(later, Load(src, cache).0) == (Load(src, cache).0, Load(src, cache).1)
  {
  }

  /** Before anything was loaded, a missing file is an error. */
  lemma ColdStartNotFound()
    ensures Load(NotFound, EmptyCache) == (EmptyCache, Failure(EmptyCacheMessage))
  {
  }

  // ---------------------------------------------------------------------
  // The platform summary (`get_module_data`).

  /** The rows whose platform cell is exactly `platform`. */
  function InPlatform(rows: seq<Row>, platform: string): (r: seq<Row>)
    ensures forall i :: 0 <= i < |r| ==> r[i] in rows && r[i].rec.platform == Some(platform)
    ensures forall i :: 0 <= i < |rows| && rows[i].rec.platform == Some(platform) ==> rows[i] in r
  {
    Seqs.FilterMembers(rows, (x: Row) => x.rec.platform == Some(platform));
    Seqs.Filter(rows, (x: Row) => x.rec.platform == Some(platform))
  }

  /** The platform's rows are taken in their table order, each once: the
      result is exactly the subsequence of rows on that platform. */
  lemma InPlatformSelects(rows: seq<Row>, platform: string)
    ensures Seqs.IsSelection(rows, InPlatform(rows, platform), (x: Row) => x.rec.platform == Some(platform))
    ensures |InPlatform(rows, platform)| == Seqs.Count(rows, (x: Row) => x.rec.platform == Some(platform))
  {
    Seqs.FilterIsSelection(rows, (x: Row) => x.rec.platform == Some(platform));
  }

  /** The interfaces named by some Target row. */
  function TargetIps(rows: seq<Row>): (r: set<string>)
    ensures forall ip :: ip in r <==> exists i :: 0 <= i < |rows| && rows[i].sheet == Target && rows[i].rec.ip == Some(ip)
  {
    if |rows| == 0 then {}
    else
      var n := |rows| - 1;
      var r := TargetIps(rows[..n]) + (if rows[n].sheet == Target && rows[n].rec.ip.Some? then {rows[n].rec.ip.value} else {});
      assert forall i :: 0 <= i < n ==> rows[..n][i] == rows[i];
      r
  }

  /** The columns of one summary line. */
  datatype Counts = Counts(target: nat, pass: nat, fail: nat, unresolved: nat)

  /** The rows of one interface from one sheet. */
  predicate FromSheet(r: Row, ip: string, c: Category) {
    r.rec.ip == Some(ip) && r.sheet == c
  }

  /** The rows of one interface whose resolution is exactly "Unresolved". */
  predicate StillOpen(r: Row, ip: string) {
    r.rec.ip == Some(ip) && r.rec.resolution == Some("Unresolved")
  }

  /** The summary line of one interface over `rows`. */
  function CountsFor(rows: seq<Row>, ip: string): Counts {
    Counts(
      Seqs.Count(rows, (x: Row) => FromSheet(x, ip, Target)),
      Seqs.Count(rows, (x: Row) => FromSheet(x, ip, Pass)),
      Seqs.Count(rows, (x: Row) => FromSheet(x, ip, Fail)),
      Seqs.Count(rows, (x: Row) => StillOpen(x, ip)))
  }

  /** `get_module_data` on the merged table: the platform's rows grouped by
      interface, keeping only interfaces that have a Target row on that
      platform, with the number of each interface's rows from each sheet and
      of its rows still unresolved. Rows without an interface form no group. */
  function PlatformSummary(merged: seq<Row>, platform: string): (r: map<string, Counts>)
    ensures forall ip :: ip in r <==>
      exists i :: 0 <= i < |merged| && merged[i].sheet == Target
        && merged[i].rec.platform == Some(platform) && merged[i].rec.ip == Some(ip)
    ensures forall ip :: ip in r ==> r[ip].target >= 1
  {
    var rows := InPlatform(merged, platform);
    var r := map ip | ip in TargetIps(rows) :: CountsFor(rows, ip);
    forall ip | ip in r ensures r[ip].target >= 1 {
      var i :| 0 <= i < |rows| && rows[i].sheet == Target && rows[i].rec.ip == Some(ip);
      Seqs.CountPositive(rows, (x: Row) => FromSheet(x, ip, Target), i);
    }
    r
  }

  /** The summary computed the way the endpoint does it: mask by platform,
      collect the Target interfaces, then one counting pass over the rows. */
  method ModuleData(merged: seq<Row>, platform: string) returns (summary: map<string, Counts>)
    ensures summary == PlatformSummary(merged, platform)
  {
    var rows := InPlatform(merged, platform);
    var ips := CollectTargetIps(rows);
    summary := CountByInterface(rows, ips);
    assert summary.Keys == PlatformSummary(merged, platform).Keys;
  }

  /** The interfaces of the Target rows, in one pass. */
  method CollectTargetIps(rows: seq<Row>) returns (ips: set<string>)
    ensures ips == TargetIps(rows)
  {
    ips := {};
    for k := 0 to |rows|
      invariant ips == TargetIps(rows[..k])
    {
      assert rows[..k + 1][..k] == rows[..k];
      if rows[k].sheet == Target && rows[k].rec.ip.Some? {
        ips := ips + {rows[k].rec.ip.value};
      }
    }
    assert rows[..|rows|] == rows;
  }

  /** One counting pass: a summary line for every interface of `ips`. */
  method CountByInterface(rows: seq<Row>, ips: set<string>) returns (summary: map<string, Counts>)
    ensures summary.Keys == ips
    ensures forall ip :: ip in summary ==> summary[ip] == CountsFor(rows, ip)
  {
    summary := map ip | ip in ips :: Counts(0, 0, 0, 0);
    for k := 0 to |rows|
      invariant summary.Keys == ips
      invariant forall ip :: ip in summary ==> summary[ip] == CountsFor(rows[..k], ip)
    {
      var row := rows[k];
      assert rows[..k + 1] == rows[..k] + [row];
      var before := summary;
      if row.rec.ip.Some? && row.rec.ip.value in summary {
        var ip := row.rec.ip.value;
        summary := summary[ip := Step(summary[ip], row, ip)];
      }
      forall ip | ip in summary
        ensures summary[ip] == CountsFor(rows[..k + 1], ip)
      {
        StepCounts(rows[..k], row, ip);
        assert summary[ip] == Step(before[ip], row, ip);
      }
    }
    assert rows[..|rows|] == rows;
  }

  /** The counts of one interface after looking at one more row. */
  function Step(c: Counts, row: Row, ip: string): Counts {
    Counts(
      c.target + (if FromSheet(row, ip, Target) then 1 else 0),
      c.pass + (if FromSheet(row, ip, Pass) then 1 else 0),
      c.fail + (if FromSheet(row, ip, Fail) then 1 else 0),
      c.unresolved + (if StillOpen(row, ip) then 1 else 0))
  }

  lemma StepCounts(rows: seq<Row>, row: Row, ip: string)
    ensures CountsFor(rows + [row], ip) == Step(CountsFor(rows, ip), row, ip)
  {
    Seqs.CountSnoc(rows, row, (x: Row) => FromSheet(x, ip, Target));
    Seqs.CountSnoc(rows, row, (x: Row) => FromSheet(x, ip, Pass));
    Seqs.CountSnoc(rows, row, (x: Row) => FromSheet(x, ip, Fail));
    Seqs.CountSnoc(rows, row, (x: Row) => StillOpen(x, ip));
  }

  // ---------------------------------------------------------------------
  // The case listings.

  /** One listed case: its number and two cells of its row. */
  datatype Case = Case(no: string, details: string, status: string)

  /** The rows as cases numbered "1", "2", ... in row order; an empty
      Summary or Status cell becomes "". */
  function Number(rows: seq<Row>): (r: seq<Case>)
    ensures |r| == |rows|
    ensures forall i :: 0 <= i < |r| ==>
      && r[i].details == rows[i].rec.summary.GetOr("")
      && r[i].status == rows[i].rec.status.GetOr("")
    ensures forall i :: 0 <= i < |r| ==> (forall k :: 0 <= k < |r[i].no| ==> Text.IsDigit(r[i].no[k]))
  {
    seq(|rows|, i requires 0 <= i < |rows| =>
      Case(Text.NatToString(i + 1), rows[i].rec.summary.GetOr(""), rows[i].rec.status.GetOr("")))
  }

  /** The numbers read back as 1, 2, ..., so they are distinct. */
  lemma NumberedFromOne(rows: seq<Row>, i: nat, j: nat)
    requires i < |rows| && j < |rows|
    ensures Text.ParseNat(Number(rows)[i].no) == i + 1
    ensures i != j ==> Number(rows)[i].no != Number(rows)[j].no
  {
    Text.ParseNatToString(i + 1);
    if i != j && Number(rows)[i].no == Number(rows)[j].no {
      Text.NatToStringInjective(i + 1, j + 1);
    }
  }

  /** The optional `platform` argument: absent or empty means every platform. */
  function ByPlatform(rows: seq<Row>, platform: string): (r: seq<Row>)
    ensures platform == "" ==> r == rows
    ensures platform != "" ==> r == InPlatform(rows, platform)
  {
    if platform == "" then rows else InPlatform(rows, platform)
  }

  /** How an interface cell is compared: empty as "", trimmed, lower case. */
  function IpKey(r: Row): string {
    Text.Lower(Text.Trim(r.rec.ip.GetOr("")))
  }

  /** The rows `get_module_testcases` lists. Nothing unless `iface` is,
      exactly, the interface of a Target row on the platform. Otherwise:
      for status "unresolved" (in any case) the Unresolved table's rows of
      that interface; for "target" the interface's Target rows; for any
      other status the interface's rows whose Filter cell, lower-cased,
      contains the lower-cased status. Interfaces match after trimming and
      lower-casing both sides. */
  function CaseRows(t: Tables, iface: string, status: string, platform: string): (rows: seq<Row>)
    ensures iface !in TargetIps(ByPlatform(t.merged, platform)) ==> rows == []
    ensures iface in TargetIps(ByPlatform(t.merged, platform)) && Text.Lower(status) == "unresolved" ==>
      rows == Seqs.Filter(ByPlatform(t.unresolved, platform), (x: Row) => IpKey(x) == Text.Lower(Text.Trim(iface)))
    ensures iface in TargetIps(ByPlatform(t.merged, platform)) && Text.Lower(status) != "unresolved" ==>
      forall i :: 0 <= i < |rows| ==> rows[i] in ByPlatform(t.merged, platform)
    ensures forall i :: 0 <= i < |rows| ==> IpKey(rows[i]) == Text.Lower(Text.Trim(iface))
    ensures Text.Lower(status) == "target" ==> forall i :: 0 <= i < |rows| ==> rows[i].sheet == Target
    ensures Text.Lower(status) != "target" && Text.Lower(status) != "unresolved" ==>
      forall i :: 0 <= i < |rows| ==> Text.Contains(Text.Lower(rows[i].rec.filter.GetOr("")), Text.Lower(status))
    ensures iface in TargetIps(ByPlatform(t.merged, platform)) && Text.Lower(status) == "unresolved" ==>
      Seqs.IsSelection(ByPlatform(t.unresolved, platform), rows, (x: Row) => IpKey(x) == Text.Lower(Text.Trim(iface)))
    ensures iface in TargetIps(ByPlatform(t.merged, platform)) && Text.Lower(status) == "target" ==>
      Seqs.IsSelection(ByPlatform(t.merged, platform), rows,
        (x: Row) => IpKey(x) == Text.Lower(Text.Trim(iface)) && x.sheet == Target)
    ensures iface in TargetIps(ByPlatform(t.merged, platform)) && Text.Lower(status) != "target" && Text.Lower(status) != "unresolved" ==>
      Seqs.IsSelection(ByPlatform(t.merged, platform), rows,
        (x: Row) => IpKey(x) == Text.Lower(Text.Trim(iface)) && Text.Contains(Text.Lower(x.rec.filter.GetOr("")), Text.Lower(status)))
  {
    var merged := ByPlatform(t.merged, platform);
    var unresolved := ByPlatform(t.unresolved, platform);
    if iface !in TargetIps(merged) then []
    else
      var key := Text.Lower(Text.Trim(iface));
      var s := Text.Lower(status);
      Seqs.FilterMembers(merged, (x: Row) => IpKey(x) == key && x.sheet == Target);
      Seqs.FilterMembers(merged, (x: Row) => IpKey(x) == key && Text.Contains(Text.Lower(x.rec.filter.GetOr("")), s));
      if s == "unresolved" then
        Seqs.FilterIsSelection(unresolved, (x: Row) => IpKey(x) == key);
        Seqs.Filter(unresolved, (x: Row) => IpKey(x) == key)
      else if s == "target" then
        Seqs.FilterIsSelection(merged, (x: Row) => IpKey(x) == key && x.sheet == Target);
        Seqs.Filter(merged, (x: Row) => IpKey(x) == key && x.sheet == Target)
      else
        Seqs.FilterIsSelection(merged, (x: Row) => IpKey(x) == key && Text.Contains(Text.Lower(x.rec.filter.GetOr("")), s));
        Seqs.Filter(merged, (x: Row) => IpKey(x) == key && Text.Contains(Text.Lower(x.rec.filter.GetOr("")), s))
  }

  /** `get_module_testcases`: the selected rows, numbered. */
  function ModuleTestcases(t: Tables, iface: string, status: string, platform: string): (r: seq<Case>)
    ensures iface !in TargetIps(ByPlatform(t.merged, platform)) ==> r == []
    ensures r == Number(CaseRows(t, iface, status, platform))
    ensures iface in TargetIps(ByPlatform(t.merged, platform)) && Text.Lower(status) == "target" ==>
      |r| == Seqs.Count(ByPlatform(t.merged, platform), (x: Row) => IpKey(x) == Text.Lower(Text.Trim(iface)) && x.sheet == Target)
    ensures iface in TargetIps(ByPlatform(t.merged, platform)) && Text.Lower(status) == "unresolved" ==>
      |r| == Seqs.Count(ByPlatform(t.unresolved, platform), (x: Row) => IpKey(x) == Text.Lower(Text.Trim(iface)))
  {
    Number(CaseRows(t, iface, status, platform))
  }

  /** `get_all_testcases_for_ip`: every merged row (on the platform, when
      one is given) whose interface cell is exactly `iface`, numbered. */
  function AllTestcasesForIp(t: Tables, iface: string, platform: string): (r: seq<Case>)
    ensures |r| == Seqs.Count(ByPlatform(t.merged, platform), (x: Row) => x.rec.ip == Some(iface))
    ensures exists rows ::
      Seqs.IsSelection(ByPlatform(t.merged, platform), rows, (x: Row) => x.rec.ip == Some(iface)) && r == Number(rows)
  {
    Seqs.FilterIsSelection(ByPlatform(t.merged, platform), (x: Row) => x.rec.ip == Some(iface));
    Number(Seqs.Filter(ByPlatform(t.merged, platform), (x: Row) => x.rec.ip == Some(iface)))
  }

  /** `get_unresolved_testcases_for_ip`: the merged rows (not the Unresolved
      table) whose interface is exactly `iface` and whose resolution is
      exactly "Unresolved", numbered. */
  function UnresolvedTestcasesForIp(t: Tables, iface: string, platform: string): (r: seq<Case>)
    ensures |r| == Seqs.Count(ByPlatform(t.merged, platform), (x: Row) => StillOpen(x, iface))
    ensures exists rows ::
      Seqs.IsSelection(ByPlatform(t.merged, platform), rows, (x: Row) => StillOpen(x, iface)) && r == Number(rows)
  {
    Seqs.FilterIsSelection(ByPlatform(t.merged, platform), (x: Row) => StillOpen(x, iface));
    Number(Seqs.Filter(ByPlatform(t.merged, platform), (x: Row) => StillOpen(x, iface)))
  }

  /** The unresolved listing of an interface has as many cases as the
      platform summary reports unresolved for it. */
  lemma UnresolvedListingMatchesSummary(t: Tables, iface: string, platform: string)
    requires platform != ""
    requires iface in PlatformSummary(t.merged, platform)
    ensures |UnresolvedTestcasesForIp(t, iface, platform)| == PlatformSummary(t.merged, platform)[iface].unresolved
  {
  }

  /** The Target listing of an interface whose name needs no trimming or
      case folding, and which no other interface matches after folding,
      has as many cases as the summary's Target count. */
  lemma TargetListingMatchesSummary(t: Tables, iface: string, platform: string)
    requires platform != ""
    requires iface in PlatformSummary(t.merged, platform)
    requires forall i :: 0 <= i < |t.merged| ==>
      (IpKey(t.merged[i]) == Text.Lower(Text.Trim(iface)) <==> t.merged[i].rec.ip == Some(iface))
    ensures |ModuleTestcases(t, iface, "target", platform)| == PlatformSummary(t.merged, platform)[iface].target
  {
    var rows := InPlatform(t.merged, platform);
    var key := Text.Lower(Text.Trim(iface));
    LowerTarget();
    assert iface in TargetIps(rows);
    var sel := CaseRows(t, iface, "target", platform);
    assert sel == Seqs.Filter(rows, (x: Row) => IpKey(x) == key && x.sheet == Target);
    forall i | 0 <= i < |rows|
      ensures (IpKey(rows[i]) == key && rows[i].sheet == Target) == FromSheet(rows[i], iface, Target)
    {
      assert rows[i] in t.merged;
    }
    Seqs.CountAgree(rows, (x: Row) => IpKey(x) == key && x.sheet == Target, (x: Row) => FromSheet(x, iface, Target));
  }

  lemma LowerTarget()
    ensures Text.Lower("target") == "target"
  {
  }
}
