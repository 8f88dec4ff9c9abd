/** The issue part of `backend/prog.py`: turning a tracker issue into a
    spreadsheet row (platform and interface taken from the labels, due date
    and resolution defaulted), fetching the rows of one filter, and the
    choice of which category sheets the snapshot gets. */
module Issues {
  import opened Wrappers
  import Text
  import Seqs
  import opened Categories

  /** The platform labels, in their cleaned spelling. */
  const Platforms: set<string> := {"JTAMP", "JTAES", "JTAEN", "SVB"}

  /** The status labels, in their cleaned spelling; they never name an interface. */
  const StatusTokens: set<string> := {"TARGET", "PASS", "FAIL", "UNRESOLVED"}

  /** A label as it is compared: surrounding whitespace dropped, upper case. */
  function Clean(tag: string): string {
    Text.Upper(Text.Trim(tag))
  }

  predicate IsPlatformLabel(tag: string) {
    Clean(tag) in Platforms
  }

  /** A label that fills the interface slot: its cleaned form is neither a
      platform nor a status, and it is not the empty string (an empty label
      is assigned but leaves the slot looking empty, so a later label still
      fills it). */
  predicate IsIpLabel(tag: string) {
    tag != "" && Clean(tag) !in Platforms && Clean(tag) !in StatusTokens
  }

  /** Position of the LAST platform label. */
  function LastPlatformIndex(labels: seq<string>): (r: Option<nat>)
    ensures r.None? <==> forall i :: 0 <= i < |labels| ==> !IsPlatformLabel(labels[i])
    ensures r.Some? ==> r.value < |labels| && IsPlatformLabel(labels[r.value])
    ensures r.Some? ==> forall j :: r.value < j < |labels| ==> !IsPlatformLabel(labels[j])
  {
    Seqs.LastIndex(labels, IsPlatformLabel)
  }

  /** The platform: the cleaned form of the last platform label, or "". */
  function PlatformOf(labels: seq<string>): (r: string)
    ensures r == "" || r in Platforms
  {
    match LastPlatformIndex(labels)
    case Some(i) => Clean(labels[i])
    case None => ""
  }

  /** Position of the FIRST label that fills the interface slot. */
  function FirstIpIndex(labels: seq<string>): (r: Option<nat>)
    ensures r.None? <==> forall i :: 0 <= i < |labels| ==> !IsIpLabel(labels[i])
    ensures r.Some? ==> r.value < |labels| && IsIpLabel(labels[r.value])
    ensures r.Some? ==> forall j :: 0 <= j < r.value ==> !IsIpLabel(labels[j])
  {
    Seqs.FirstIndex(labels, IsIpLabel)
  }

  /** The interface: the first label that fills the interface slot, kept in
      its original spelling, or "". */
  function IpOf(labels: seq<string>): (r: string)
    ensures r == "" <==> FirstIpIndex(labels).None?
  {
    match FirstIpIndex(labels)
    case Some(i) => labels[i]
    case None => ""
  }

  /** Looking at one more label keeps an interface already found, and
      otherwise takes that label if it qualifies. */
  lemma IpOfAppend(labels: seq<string>, tag: string)
    ensures IpOf(labels + [tag]) ==
      if IpOf(labels) != "" then IpOf(labels) else if IsIpLabel(tag) then tag else ""
  {
    var s := labels + [tag];
    Seqs.FirstIndexSnoc(labels, tag, IsIpLabel);
    match FirstIpIndex(labels)
    case Some(i) =>
      assert s[i] == labels[i];
    case None =>
      assert s[|labels|] == tag;
  }

  /** Looking at one more label replaces the platform when that label is a
      platform label, and keeps it otherwise. */
  lemma PlatformOfAppend(labels: seq<string>, tag: string)
    ensures PlatformOf(labels + [tag]) ==
      if IsPlatformLabel(tag) then Clean(tag) else PlatformOf(labels)
  {
    var s := labels + [tag];
    assert s[..|labels|] == labels && s[|labels|] == tag;
  }

  /** The label loop of `fetch_issues_for_filter`: a platform label
      overwrites the platform; any other label fills the interface slot
      while it is still empty, unless it is a status label. Its outcome is
      the last platform and the first interface label. */
  method ClassifyLabels(labels: seq<string>) returns (plat: string, ip: string)
    ensures plat == PlatformOf(labels) && ip == IpOf(labels)
  {
    plat := "";
    ip := "";
    for k := 0 to |labels|
      invariant plat == PlatformOf(labels[..k])
      invariant ip == IpOf(labels[..k])
    {
      var tag := labels[k];
      var clean := Text.Upper(Text.Trim(tag));
      assert labels[..k + 1] == labels[..k] + [tag];
      assert labels[..k + 1][..k] == labels[..k];
      IpOfAppend(labels[..k], tag);
      PlatformOfAppend(labels[..k], tag);
      if clean in Platforms {
        plat := clean;
      } else if ip == "" && clean !in StatusTokens {
        ip := tag;
      }
    }
    assert labels[..|labels|] == labels;
  }

  /** What the tracker's search answers about one issue. `summary` and
      `statusName` are None when the field (or the status's name) is
      absent. `resolution` is None when the field is absent, null or an
      empty object, Some(None) for a resolution object without a name. */
  datatype Issue = Issue(
    key: string,
    summary: Option<string>,
    statusName: Option<string>,
    dueDate: Option<string>,
    resolution: Option<Option<string>>,
    labels: seq<string>)

  /** One spreadsheet row, column by column. */
  datatype IssueRow = IssueRow(
    key: string,
    filter: string,
    summary: string,
    platform: string,
    ip: string,
    status: string,
    dueDate: string,
    resolution: string)

  /** The row of one issue fetched through the filter named `filterName`. */
  function BuildRow(filterName: string, issue: Issue): (r: IssueRow)
    ensures r.key == issue.key && r.filter == filterName
    ensures r.platform == PlatformOf(issue.labels) && r.ip == IpOf(issue.labels)
    ensures r.dueDate != ""
    ensures issue.dueDate.Some? && issue.dueDate.value != "" ==> r.dueDate == issue.dueDate.value
    ensures issue.dueDate.None? || issue.dueDate == Some("") ==> r.dueDate == "Not Set"
    ensures issue.resolution.None? ==> r.resolution == "Unresolved"
    ensures issue.resolution.Some? ==> r.resolution == issue.resolution.value.GetOr("")
    ensures r.summary == issue.summary.GetOr("") && r.status == issue.statusName.GetOr("")
  {
    IssueRow(
      issue.key,
      filterName,
      issue.summary.GetOr(""),
      PlatformOf(issue.labels),
      IpOf(issue.labels),
      issue.statusName.GetOr(""),
      match issue.dueDate
        case Some(d) => if d == "" then "Not Set" else d
        case None => "Not Set",
      match issue.resolution
        case Some(res) => res.GetOr("")
        case None => "Unresolved")
  }

  /** A row's platform is empty or a platform, and its interface is never a
      platform or status label and is empty only when no label qualifies. */
  lemma RowLabels(filterName: string, issue: Issue)
    ensures
      var r := BuildRow(filterName, issue);
      && (r.platform == "" || r.platform in Platforms)
      && (r.ip != "" ==> Clean(r.ip) !in Platforms && Clean(r.ip) !in StatusTokens && r.ip in issue.labels)
      && (r.ip == "" <==> forall i :: 0 <= i < |issue.labels| ==> !IsIpLabel(issue.labels[i]))
  {
  }

  /** Which labels a row reports does not depend on their surrounding
      whitespace or case when it comes to the platform. */
  lemma PlatformIgnoresSpelling(labels: seq<string>, other: seq<string>)
    requires |labels| == |other|
    requires forall i :: 0 <= i < |labels| ==> Clean(labels[i]) == Clean(other[i])
    ensures PlatformOf(labels) == PlatformOf(other)
  {
    if PlatformOf(labels) != "" {
      PlatformAgree(labels, other);
    } else {
      PlatformAgree(other, labels);
    }
  }

  lemma PlatformAgree(labels: seq<string>, other: seq<string>)
    requires |labels| == |other|
    requires forall i :: 0 <= i < |labels| ==> Clean(labels[i]) == Clean(other[i])
    ensures PlatformOf(labels) == PlatformOf(other)
  {
    assert forall i :: 0 <= i < |labels| ==> (IsPlatformLabel(labels[i]) <==> IsPlatformLabel(other[i]));
    match LastPlatformIndex(labels)
    case Some(i) =>
      assert IsPlatformLabel(other[i]);
      var j := LastPlatformIndex(other).value;
      assert IsPlatformLabel(labels[j]);
      assert i == j;
    case None =>
      assert LastPlatformIndex(other).None?;
  }

  /** A saved filter as `GET /filter/{id}` answers it. */
  datatype SavedFilter = SavedFilter(name: string, jql: string)

  /** `fetch_issues_for_filter`: no rows when the filter cannot be fetched;
      otherwise one row per issue the search returns, in order, each tagged
      with the filter's name. */
  function FetchIssuesForFilter(filter: Option<SavedFilter>, found: seq<Issue>): (r: seq<IssueRow>)
    ensures filter.None? ==> r == []
    ensures filter.Some? ==> |r| == |found|
    ensures filter.Some? ==> forall i :: 0 <= i < |r| ==>
      && r[i].key == found[i].key
      && r[i].filter == filter.value.name
      && r[i].platform == PlatformOf(found[i].labels)
      && r[i].ip == IpOf(found[i].labels)
    ensures filter.Some? ==> forall i :: 0 <= i < |r| ==> r[i] == BuildRow(filter.value.name, found[i])
  {
    match filter
    case None => []
    case Some(f) => seq(|found|, i requires 0 <= i < |found| => BuildRow(f.name, found[i]))
  }

  /** The snapshot workbook: sheets by name. */
  type Workbook = map<string, seq<IssueRow>>

  /** Writes the sheet of one category when its rows are not empty. */
  function WriteSheet(wb: Workbook, fetched: map<Category, seq<IssueRow>>, c: Category): (r: Workbook)
    ensures r.Keys == wb.Keys + (if c in fetched && |fetched[c]| > 0 then {c.Key()} else {})
    ensures forall k :: k in wb && k != c.Key() ==> r[k] == wb[k]
    ensures c in fetched && |fetched[c]| > 0 ==> r[c.Key()] == fetched[c]
  {
    if c in fetched && |fetched[c]| > 0 then wb[c.Key() := fetched[c]] else wb
  }

  /** The sheets `main` writes inside its `with` block, one category after
      the other. */
  function WriteSheets(fetched: map<Category, seq<IssueRow>>): (wb: Workbook)
    ensures wb.Keys <= {Target.Key(), Pass.Key(), Fail.Key(), Unresolved.Key()}
  {
    var w1 := WriteSheet(map[], fetched, Target);
    var w2 := WriteSheet(w1, fetched, Pass);
    var w3 := WriteSheet(w2, fetched, Fail);
    WriteSheet(w3, fetched, Unresolved)
  }

  /** What openpyxl raises when asked to save a workbook without a sheet. */
  const NoVisibleSheetMessage: string := "At least one sheet must be visible"

  /** `main`: the sheets are written, and the workbook is saved when the
      `with` block closes. The writer drops openpyxl's default sheet, so
      when no category yields rows the save raises, and the file the
      writer opened for writing is left truncated. */
  function WriteSnapshot(fetched: map<Category, seq<IssueRow>>): (r: Result<Workbook>)
    ensures r.Failure? <==> forall c: Category :: c !in fetched || |fetched[c]| == 0
    ensures r.Failure? ==> r.error == NoVisibleSheetMessage
    ensures r.Success? ==> r.value == WriteSheets(fetched)
  {
    var wb := WriteSheets(fetched);
    WriteSnapshotSheets(fetched);
    if |wb| == 0 then Failure(NoVisibleSheetMessage) else Success(wb)
  }

  /** Every recorded category whose filter yields rows becomes a sheet named
      after the category holding exactly those rows; a category without rows
      gets no sheet at all, and no other sheet is written. */
  lemma WriteSnapshotSheets(fetched: map<Category, seq<IssueRow>>)
    ensures forall c: Category :: c.Key() in WriteSheets(fetched) <==> c in fetched && |fetched[c]| > 0
    ensures forall c: Category :: c.Key() in WriteSheets(fetched) ==> WriteSheets(fetched)[c.Key()] == fetched[c]
    ensures forall k :: k in WriteSheets(fetched) ==> exists c: Category :: c.Key() == k
  {
    var w1 := WriteSheet(map[], fetched, Target);
    var w2 := WriteSheet(w1, fetched, Pass);
    var w3 := WriteSheet(w2, fetched, Fail);
    var wb := WriteSheet(w3, fetched, Unresolved);
    forall c: Category
      ensures c.Key() in wb <==> c in fetched && |fetched[c]| > 0
      ensures c.Key() in wb ==> wb[c.Key()] == fetched[c]
    {
      match c
      case Target =>
      case Pass =>
      case Fail =>
      case Unresolved =>
    }
    forall k | k in wb ensures exists c: Category :: c.Key() == k {
      if k == Target.Key() { assert Target.Key() == k; }
      else if k == Pass.Key() { assert Pass.Key() == k; }
      else if k == Fail.Key() { assert Fail.Key() == k; }
      else { assert Unresolved.Key() == k; }
    }
  }
}
