/** The filter part of `backend/prog.py`: exact-name lookup, creation with
    a lookup fallback, and the idempotent setup of the four category
    filters (Target, Pass, Fail, Unresolved) of a project. */
module FilterSetup {
  import opened Wrappers
  import opened Tracker
  import Text
  import opened Categories

  /** `find_filter_id_by_name`: the id of the first listed filter whose name
      equals `name` exactly; nothing on a non-200 reply or when no name
      matches. */
  function FindFilterIdByName(reply: SearchReply, name: string): (r: Option<FilterId>)
    ensures reply.code != 200 ==> r.None?
    ensures reply.code == 200 ==> (r.None? <==> forall i :: 0 <= i < |reply.values| ==> reply.values[i].name != name)
    ensures r.Some? ==> exists i :: (0 <= i < |reply.values| && reply.values[i].name == name
      && reply.values[i].id == r.value
      && forall j :: 0 <= j < i ==> reply.values[j].name != name)
  {
    if reply.code == 200 then
      match FirstNamed(reply.values, name)
      case Some(i) => Some(reply.values[i].id)
      case None => None
    else None
  }

  /** The decision `create_filter` takes on the creation reply: the new id
      on 201; on a 400 naming a duplicate and on every other failure alike,
      whatever the name lookup made afterwards finds. */
  function CreateFilterOutcome(reply: CreateReply, lookup: Option<FilterId>): (r: Option<FilterId>)
    ensures reply.code == 201 ==> r == reply.id
    ensures reply.code != 201 ==> r == lookup
    ensures r.None? ==> (reply.code == 201 && reply.id.None?) || lookup.None?
  {
    if reply.code == 201 then reply.id
    else if reply.code == 400 && Text.Contains(reply.text, DuplicateNameMessage) then lookup
    else if lookup.Some? then lookup
    else None
  }

  /** `create_filter` against the tracker: posts the filter, then falls back
      to the name lookup. A free name is stored when creation works and
      answered with the new id; a taken name, or a creation that does not
      work, ends with whatever the lookup finds, which is nothing when the
      search does not answer. */
  function CreateFilter(st: Store, h: Health, name: string, jql: string, description: string): (r: (Store, Option<FilterId>))
    requires Valid(st)
    ensures Valid(r.0)
    ensures FirstNamed(st.filters, name).Some? ==>
      r == (st, if h.searchUp then FirstIdNamed(st.filters, name) else None)
    ensures FirstNamed(st.filters, name).None? && h.createUp ==>
      && r.0 == Store(st.filters + [Filter(st.nextId, name, jql, description, false)], st.nextId + 1)
      && r.1 == Some(st.nextId)
    ensures FirstNamed(st.filters, name).None? && !h.createUp ==> r == (st, None)
  {
    var created := Create(st, h, name, jql, description, false);
    SearchFindsFirst(created.0, h, name);
    (created.0, CreateFilterOutcome(created.1, FindFilterIdByName(SearchByName(created.0, h, name), name)))
  }

  /** One step of `ensure_selected_status_filters`: reuse the filter the
      lookup finds, or create it. */
  function EnsureFilter(st: Store, h: Health, name: string, jql: string, description: string): (r: (Store, Option<FilterId>))
    requires Valid(st)
    ensures Valid(r.0)
    ensures FirstNamed(st.filters, name).Some? ==>
      r == (st, if h.searchUp then FirstIdNamed(st.filters, name) else None)
    ensures FirstNamed(st.filters, name).None? && h.createUp ==>
      && r.0 == Store(st.filters + [Filter(st.nextId, name, jql, description, false)], st.nextId + 1)
      && r.1 == Some(st.nextId)
    ensures FirstNamed(st.filters, name).None? && !h.createUp ==> r == (st, None)
  {
    SearchFindsFirst(st, h, name);
    match FindFilterIdByName(SearchByName(st, h, name), name)
    case Some(id) => (st, Some(id))
    case None => CreateFilter(st, h, name, jql, description)
  }

  /** After `EnsureFilter` filters were only appended, and only when
      creation works. A returned id is the one the name finds first, and
      with a search that answers the result is exactly what the name finds
      first; with creation that works the name finds a filter. */
  lemma EnsureFilterRecords(st: Store, h: Health, name: string, jql: string, description: string)
    requires Valid(st)
    ensures
      var r := EnsureFilter(st, h, name, jql, description);
      && st.filters <= r.0.filters
      && (!h.createUp ==> r.0 == st)
      && (r.1.Some? ==> r.1 == FirstIdNamed(r.0.filters, name))
      && (r.1.Some? ==> h.searchUp || h.createUp)
      && (h.searchUp ==> r.1 == FirstIdNamed(r.0.filters, name))
      && (h.createUp ==> FirstNamed(r.0.filters, name).Some?)
  {
    var f := Filter(st.nextId, name, jql, description, false);
    if FirstNamed(st.filters, name).None? && h.createUp {
      FirstNamedAppend(st.filters, [f], name);
      assert FirstNamed([f], name) == Some(0);
    }
  }

  /** A filter created for a free name is the one the name finds, and it
      holds the JQL and description it was created with. */
  lemma EnsureFilterInstalls(st: Store, h: Health, name: string, jql: string, description: string)
    requires Valid(st) && FirstNamed(st.filters, name).None? && h.createUp
    ensures
      var r := EnsureFilter(st, h, name, jql, description);
      && FirstNamed(r.0.filters, name).Some?
      && r.0.filters[FirstNamed(r.0.filters, name).value].jql == jql
      && r.0.filters[FirstNamed(r.0.filters, name).value].description == description
  {
    var f := Filter(st.nextId, name, jql, description, false);
    FirstNamedAppend(st.filters, [f], name);
    assert FirstNamed([f], name) == Some(0);
  }

  /** Once a name is found, appending filters does not change what it finds. */
  lemma FirstIdNamedPrefix(a: seq<Filter>, b: seq<Filter>, name: string)
    requires a <= b && FirstNamed(a, name).Some?
    ensures FirstNamed(b, name) == FirstNamed(a, name)
    ensures FirstIdNamed(b, name) == FirstIdNamed(a, name)
  {
    assert b == a + b[|a|..];
    FirstNamedAppend(a, b[|a|..], name);
  }

  /** Name of the filter of a category, e.g. "overall_status_filter_Pass". */
  function CategoryFilterName(c: Category): string {
    "overall_status_filter_" + c.Key()
  }

  /** Different categories have differently named filters. */
  lemma CategoryFilterNamesDistinct(c: Category, d: Category)
    requires c != d
    ensures CategoryFilterName(c) != CategoryFilterName(d)
  {
    var p := "overall_status_filter_";
    assert CategoryFilterName(c)[|p|..] == c.Key();
    assert CategoryFilterName(d)[|p|..] == d.Key();
  }

  /** `project = "KEY"`. */
  function ProjectJql(projectKey: string): string {
    "project = \"" + projectKey + "\""
  }

  /** `status = "S"`. */
  function StatusClause(status: string): string {
    "status = \"" + status + "\""
  }

  /** Statuses that count as unresolved, in the order the JQL lists them. */
  const UnresolvedCandidates: seq<string> := ["To Do", "In Progress"]

  /** The unresolved statuses the project actually has, in candidate order. */
  function UnresolvedStatuses(statuses: set<string>): (r: seq<string>)
    ensures forall s :: s in r <==> s in UnresolvedCandidates && s in statuses
    ensures r == [] || r == ["To Do"] || r == ["In Progress"] || r == UnresolvedCandidates
  {
    (if "To Do" in statuses then ["To Do"] else []) + (if "In Progress" in statuses then ["In Progress"] else [])
  }

  /** The status clauses of `unresolved` joined with " OR ". */
  function OrClauses(unresolved: seq<string>): string {
    if |unresolved| == 0 then ""
    else if |unresolved| == 1 then StatusClause(unresolved[0])
    else StatusClause(unresolved[0]) + " OR " + OrClauses(unresolved[1..])
  }

  /** The categories the setup records for a project with these statuses. */
  function SelectedCategories(statuses: set<string>): (r: set<Category>)
    ensures Target in r
    ensures Pass in r <==> "Pass" in statuses
    ensures Fail in r <==> "Fail" in statuses
    ensures Unresolved in r <==> "To Do" in statuses || "In Progress" in statuses
  {
    {Target}
    + (if "Pass" in statuses then {Pass} else {})
    + (if "Fail" in statuses then {Fail} else {})
    + (if |UnresolvedStatuses(statuses)| > 0 then {Unresolved} else {})
  }

  /** A set of categories that holds Target, and each other category exactly
      when the statuses select it, is the selected set. */
  lemma SelectedCategoriesExactly(cs: set<Category>, statuses: set<string>)
    requires Target in cs
    requires Pass in cs <==> "Pass" in statuses
    requires Fail in cs <==> "Fail" in statuses
    requires Unresolved in cs <==> |UnresolvedStatuses(statuses)| > 0
    ensures cs == SelectedCategories(statuses)
  {
    var sel := SelectedCategories(statuses);
    forall c: Category ensures c in cs <==> c in sel {
      match c
      case Target =>
      case Pass =>
      case Fail =>
      case Unresolved =>
    }
  }

  type FilterIds = map<Category, Option<FilterId>>

  /** What a category may be recorded with against `st` when the tracker
      behaves as `h` says: an id is the one the category's filter name
      finds first, and comes from a lookup or from a creation; with a
      search that answers, the record is exactly what the name finds first,
      id or nothing; with creation that works, the name finds a filter. */
  ghost predicate RecordedAs(st: Store, h: Health, c: Category, id: Option<FilterId>) {
    && (id.Some? ==> id == FirstIdNamed(st.filters, CategoryFilterName(c)))
    && (id.Some? ==> h.searchUp || h.createUp)
    && (h.searchUp ==> id == FirstIdNamed(st.filters, CategoryFilterName(c)))
    && (h.createUp ==> FirstNamed(st.filters, CategoryFilterName(c)).Some?)
  }

  /** Every recorded category is recorded as `RecordedAs` allows. */
  ghost predicate Recorded(st: Store, h: Health, ids: FilterIds) {
    forall c :: c in ids ==> RecordedAs(st, h, c, ids[c])
  }

  /** Records one category by reusing or creating its filter. */
  function EnsureCategory(st: Store, h: Health, ids: FilterIds, c: Category, jql: string, description: string)
    : (r: (Store, FilterIds))
    requires Valid(st) && Recorded(st, h, ids)
    ensures Valid(r.0) && Recorded(r.0, h, r.1) && st.filters <= r.0.filters
    ensures !h.createUp ==> r.0 == st
    ensures forall d :: d in r.1 <==> d in ids || d == c
    ensures forall d :: d in ids && d != c ==> r.1[d] == ids[d]
    ensures FirstNamed(st.filters, CategoryFilterName(c)).Some? ==> r.0 == st
    ensures !h.searchUp && FirstNamed(st.filters, CategoryFilterName(c)).Some? ==> r.1[c].None?
    ensures FirstNamed(st.filters, CategoryFilterName(c)).None? && h.createUp ==> r.1[c] == Some(st.nextId)
  {
    var e := EnsureFilter(st, h, CategoryFilterName(c), jql, description);
    EnsureFilterRecordedAs(st, h, c, jql, description);
    RecordedGrows(st, e.0, h, ids);
    RecordedUpdate(e.0, h, ids, c, e.1);
    (e.0, ids[c := e.1])
  }

  /** Ensuring a category's filter records it as `RecordedAs` allows, and
      only appends filters, and only when creation works. */
  lemma EnsureFilterRecordedAs(st: Store, h: Health, c: Category, jql: string, description: string)
    requires Valid(st)
    ensures
      var e := EnsureFilter(st, h, CategoryFilterName(c), jql, description);
      && st.filters <= e.0.filters
      && (!h.createUp ==> e.0 == st)
      && RecordedAs(e.0, h, c, e.1)
  {
    EnsureFilterRecords(st, h, CategoryFilterName(c), jql, description);
  }

  /** A category recorded as `RecordedAs` allows joins valid records. */
  lemma RecordedUpdate(st: Store, h: Health, ids: FilterIds, c: Category, id: Option<FilterId>)
    requires Recorded(st, h, ids) && RecordedAs(st, h, c, id)
    ensures Recorded(st, h, ids[c := id])
  {
  }


  /** Appending filters, which happens only when creation works, keeps a
      recording: every recorded id is still the one its name finds first. */
  lemma RecordedGrows(st: Store, st2: Store, h: Health, ids: FilterIds)
    requires Recorded(st, h, ids) && st.filters <= st2.filters && (!h.createUp ==> st2 == st)
    ensures Recorded(st2, h, ids)
  {
    if h.createUp {
      forall d | d in ids ensures RecordedAs(st2, h, d, ids[d]) {
        FirstIdNamedPrefix(st.filters, st2.filters, CategoryFilterName(d));
      }
    }
  }

  /** One category the setup records, with the JQL and description its
      filter is created with when its name is free. */
  datatype Step = Step(category: Category, jql: string, description: string)

  /** The categories a list of steps records. */
  function StepCategories(steps: seq<Step>): (r: set<Category>)
    ensures forall i :: 0 <= i < |steps| ==> steps[i].category in r
  {
    if |steps| == 0 then {} else {steps[0].category} + StepCategories(steps[1..])
  }

  /** The categories of two lists of steps run one after the other. */
  lemma {:induction false} StepCategoriesAppend(a: seq<Step>, b: seq<Step>)
    ensures StepCategories(a + b) == StepCategories(a) + StepCategories(b)
    decreases |a|
  {
    if |a| == 0 {
      assert a + b == b;
    } else {
      assert (a + b)[1..] == a[1..] + b;
      StepCategoriesAppend(a[1..], b);
    }
  }

  /** The steps of `ensure_selected_status_filters`, in order: Target over
      every issue of the project; Pass and Fail when the project has a
      status of exactly that name; Unresolved when it has "To Do" or
      "In Progress". */
  function SetupSteps(projectKey: string, statuses: set<string>): (r: seq<Step>)
    ensures StepCategories(r) == SelectedCategories(statuses)
  {
    var head := [TargetStep(projectKey)];
    var pass, fail := StatusStep(projectKey, statuses, Pass), StatusStep(projectKey, statuses, Fail);
    var unresolved := UnresolvedStep(projectKey, statuses);
    var steps := head + (pass + fail + unresolved);
    PartsCategories(head, pass, fail, unresolved);
    SelectedCategoriesExactly(StepCategories(steps), statuses);
    steps
  }

  /** The categories of the four parts of the setup, run one after the other. */
  lemma PartsCategories(head: seq<Step>, pass: seq<Step>, fail: seq<Step>, unresolved: seq<Step>)
    ensures StepCategories(head + (pass + fail + unresolved))
      == StepCategories(head) + StepCategories(pass) + StepCategories(fail) + StepCategories(unresolved)
  {
    StepCategoriesAppend(pass, fail);
    StepCategoriesAppend(pass + fail, unresolved);
    StepCategoriesAppend(head, pass + fail + unresolved);
  }

  /** The Target step: every issue of the project. */
  function TargetStep(projectKey: string): Step {
    Step(Target, ProjectJql(projectKey), "Auto-created filter for all issues (Target)")
  }

  /** The step of Unresolved, present when the project has "To Do" or "In Progress". */
  function UnresolvedStep(projectKey: string, statuses: set<string>): (r: seq<Step>)
    ensures StepCategories(r) == if |UnresolvedStatuses(statuses)| > 0 then {Unresolved} else {}
  {
    var unresolved := UnresolvedStatuses(statuses);
    if |unresolved| > 0 then
      [Step(Unresolved, UnresolvedJql(projectKey, statuses), UnresolvedDescription(statuses))]
    else []
  }

  /** The JQL of a step narrowed to one status. */
  function StatusJql(projectKey: string, status: string): string {
    ProjectJql(projectKey) + " AND " + StatusClause(status)
  }

  /** The JQL of the Unresolved step. */
  function UnresolvedJql(projectKey: string, statuses: set<string>): string {
    ProjectJql(projectKey) + " AND (" + OrClauses(UnresolvedStatuses(statuses)) + ")"
  }

  /** The description of a filter narrowed to one status. */
  function StatusDescription(status: string): string {
    "Auto-created filter for status '" + status + "'"
  }

  /** The description of the Unresolved filter: the unresolved statuses
      the project has, comma-separated. */
  function UnresolvedDescription(statuses: set<string>): string {
    "Auto-created filter for unresolved statuses: " + Text.JoinWith(UnresolvedStatuses(statuses), ", ")
  }

  /** Pass and Fail are narrowed to their own status, Unresolved to the
      unresolved statuses the project has, in JQL and description alike. */
  predicate Narrowed(projectKey: string, statuses: set<string>, s: Step) {
    && (s.category == Pass || s.category == Fail ==>
          s.jql == StatusJql(projectKey, s.category.Key()) && s.description == StatusDescription(s.category.Key()))
    && (s.category == Unresolved ==>
          s.jql == UnresolvedJql(projectKey, statuses) && s.description == UnresolvedDescription(statuses))
  }

  /** The setup starts with the Target step over every issue of the
      project, visits the categories in the order Target, Pass, Fail,
      Unresolved, narrows Pass and Fail to their own status, and narrows
      Unresolved to the unresolved statuses the project has, each with the
      matching description. */
  lemma SetupStepsShape(projectKey: string, statuses: set<string>)
    ensures
      var r := SetupSteps(projectKey, statuses);
      && |r| >= 1
      && r[0] == Step(Target, ProjectJql(projectKey), "Auto-created filter for all issues (Target)")
      && (forall i, j :: 0 <= i < j < |r| ==> r[i].category.Rank() < r[j].category.Rank())
      && (forall i :: 0 <= i < |r| ==> Narrowed(projectKey, statuses, r[i]))
  {
    var pass, fail := StatusStep(projectKey, statuses, Pass), StatusStep(projectKey, statuses, Fail);
    var unresolved := UnresolvedStep(projectKey, statuses);
    StatusStepShape(projectKey, statuses, Pass);
    StatusStepShape(projectKey, statuses, Fail);
    UnresolvedStepShape(projectKey, statuses);
    TailShape(projectKey, statuses, pass, fail, unresolved);
    ConsShape(projectKey, statuses, TargetStep(projectKey), pass + fail + unresolved);
  }

  /** A first step of rank 0 in front of steps of higher, increasing rank
      keeps the ranks increasing. */
  lemma ConsShape(projectKey: string, statuses: set<string>, x: Step, tail: seq<Step>)
    requires x.category == Target
    requires forall i :: 0 <= i < |tail| ==> tail[i].category.Rank() >= 1 && Narrowed(projectKey, statuses, tail[i])
    requires forall i, j :: 0 <= i < j < |tail| ==> tail[i].category.Rank() < tail[j].category.Rank()
    ensures var r := [x] + tail;
      && (forall i, j :: 0 <= i < j < |r| ==> r[i].category.Rank() < r[j].category.Rank())
      && (forall i :: 0 <= i < |r| ==> Narrowed(projectKey, statuses, r[i]))
  {
    var r := [x] + tail;
    forall i, j | 0 <= i < j < |r| ensures r[i].category.Rank() < r[j].category.Rank() {
      assert r[j] == tail[j - 1];
      if i > 0 {
        assert r[i] == tail[i - 1];
      }
    }
    forall i | 0 <= i < |r| ensures Narrowed(projectKey, statuses, r[i]) {
      if i > 0 {
        assert r[i] == tail[i - 1];
      }
    }
  }

  /** The steps after Target: Pass, Fail and Unresolved in that order, each
      narrowed as it should be. */
  lemma TailShape(projectKey: string, statuses: set<string>, pass: seq<Step>, fail: seq<Step>, unresolved: seq<Step>)
    requires PartShape(projectKey, statuses, pass, Pass) && PartShape(projectKey, statuses, fail, Fail)
    requires PartShape(projectKey, statuses, unresolved, Unresolved)
    ensures var t := pass + fail + unresolved;
      && (forall i :: 0 <= i < |t| ==> t[i].category.Rank() >= 1 && Narrowed(projectKey, statuses, t[i]))
      && (forall i, j :: 0 <= i < j < |t| ==> t[i].category.Rank() < t[j].category.Rank())
  {
    RanksIncrease(pass, fail, unresolved);
    var t := pass + fail + unresolved;
    forall i | 0 <= i < |t| ensures t[i].category.Rank() >= 1 && Narrowed(projectKey, statuses, t[i]) {
      if i < |pass| {
        assert t[i] == pass[i];
      } else if i < |pass| + |fail| {
        assert t[i] == fail[i - |pass|];
      } else {
        assert t[i] == unresolved[i - |pass| - |fail|];
      }
    }
  }

  /** A part of the setup: at most one step, of category `c`, narrowed as
      it should be. */
  predicate PartShape(projectKey: string, statuses: set<string>, part: seq<Step>, c: Category) {
    |part| <= 1 && forall k :: 0 <= k < |part| ==> part[k].category == c && Narrowed(projectKey, statuses, part[k])
  }

  /** The Pass or Fail part is narrowed to its own status. */
  lemma StatusStepShape(projectKey: string, statuses: set<string>, c: Category)
    requires c == Pass || c == Fail
    ensures PartShape(projectKey, statuses, StatusStep(projectKey, statuses, c), c)
  {
  }

  /** The Unresolved part is narrowed to the unresolved statuses present. */
  lemma UnresolvedStepShape(projectKey: string, statuses: set<string>)
    ensures PartShape(projectKey, statuses, UnresolvedStep(projectKey, statuses), Unresolved)
  {
  }

  /** The Pass, Fail and Unresolved steps come in that order. */
  lemma RanksIncrease(pass: seq<Step>, fail: seq<Step>, unresolved: seq<Step>)
    requires |pass| <= 1 && |fail| <= 1 && |unresolved| <= 1
    requires forall k :: 0 <= k < |pass| ==> pass[k].category == Pass
    requires forall k :: 0 <= k < |fail| ==> fail[k].category == Fail
    requires forall k :: 0 <= k < |unresolved| ==> unresolved[k].category == Unresolved
    ensures var t := pass + fail + unresolved;
      forall i, j :: 0 <= i < j < |t| ==> t[i].category.Rank() < t[j].category.Rank()
  {
  }

  /** The step of Pass or Fail, present when the project has a status of exactly that name. */
  function StatusStep(projectKey: string, statuses: set<string>, c: Category): (r: seq<Step>)
    ensures StepCategories(r) == if c.Key() in statuses then {c} else {}
  {
    if c.Key() in statuses then
      [Step(c, StatusJql(projectKey, c.Key()), StatusDescription(c.Key()))]
    else []
  }

  /** Runs the steps in order. Every record is as `RecordedAs` allows in
      the resulting store, filters are only ever appended, and only when
      creation works, and categories no step names keep their records. */
  function EnsureSteps(st: Store, h: Health, ids: FilterIds, steps: seq<Step>): (r: (Store, FilterIds))
    requires Valid(st) && Recorded(st, h, ids)
    ensures Valid(r.0) && Recorded(r.0, h, r.1) && st.filters <= r.0.filters
    ensures !h.createUp ==> r.0 == st
    ensures forall c :: c in r.1 <==> c in ids || c in StepCategories(steps)
    ensures forall c :: c in ids && c !in StepCategories(steps) ==> r.1[c] == ids[c]
    decreases |steps|
  {
    if |steps| == 0 then (st, ids)
    else
      var s := steps[0];
      var r1 := EnsureCategory(st, h, ids, s.category, s.jql, s.description);
      var r := EnsureSteps(r1.0, h, r1.1, steps[1..]);
      assert s.category in StepCategories(steps);
      r
  }

  /** With creation that works, every recorded category has a filter its
      name finds. */
  lemma RecordedFound(st: Store, h: Health, ids: FilterIds, cs: set<Category>)
    requires Recorded(st, h, ids) && h.createUp && forall c :: c in cs ==> c in ids
    ensures forall c :: c in cs ==> FirstNamed(st.filters, CategoryFilterName(c)).Some?
  {
  }

  /** Every category of a list of steps is some step's category. */
  lemma {:induction false} StepCategoriesOf(steps: seq<Step>, c: Category)
    requires c in StepCategories(steps)
    ensures exists i :: 0 <= i < |steps| && steps[i].category == c
    decreases |steps|
  {
    if steps[0].category != c {
      StepCategoriesOf(steps[1..], c);
      var i :| 0 <= i < |steps[1..]| && steps[1..][i].category == c;
      assert steps[i + 1].category == c;
    }
  }

  /** No two steps name the same category. */
  ghost predicate DistinctCategories(steps: seq<Step>) {
    forall i, j :: 0 <= i < j < |steps| ==> steps[i].category != steps[j].category
  }

  /** The first of steps with distinct categories is the only one of its category. */
  lemma FirstNotLater(steps: seq<Step>)
    requires |steps| > 0 && DistinctCategories(steps)
    ensures steps[0].category !in StepCategories(steps[1..])
  {
    if steps[0].category in StepCategories(steps[1..]) {
      StepCategoriesOf(steps[1..], steps[0].category);
    }
  }

  /** With creation that works and no category named twice, a category
      whose filter name was free is recorded with an id, whether or not
      the search answers: the one the creation returned. */
  lemma {:induction false} EnsureStepsCreates(st: Store, h: Health, ids: FilterIds, steps: seq<Step>)
    requires Valid(st) && Recorded(st, h, ids) && h.createUp && DistinctCategories(steps)
    ensures forall c :: c in StepCategories(steps) && FirstNamed(st.filters, CategoryFilterName(c)).None? ==>
      EnsureSteps(st, h, ids, steps).1[c].Some?
    decreases |steps|
  {
    if |steps| > 0 {
      var s := steps[0];
      var rest := steps[1..];
      var r1 := EnsureCategory(st, h, ids, s.category, s.jql, s.description);
      assert DistinctCategories(rest) by {
        forall i, j | 0 <= i < j < |rest| ensures rest[i].category != rest[j].category {
          assert rest[i] == steps[i + 1] && rest[j] == steps[j + 1];
        }
      }
      FirstNotLater(steps);
      EnsureStepsCreates(r1.0, h, r1.1, rest);
      forall c | c in StepCategories(steps) && FirstNamed(st.filters, CategoryFilterName(c)).None?
        ensures EnsureSteps(r1.0, h, r1.1, rest).1[c].Some?
      {
        if c != s.category {
          FreeAfterOther(st, h, s.category, s.jql, s.description, c);
        }
      }
    }
  }

  /** Steps whose filter names all find a filter already create nothing. */
  lemma {:induction false} EnsureStepsReuses(st: Store, h: Health, ids: FilterIds, steps: seq<Step>)
    requires Valid(st) && Recorded(st, h, ids)
    requires forall c :: c in StepCategories(steps) ==> FirstNamed(st.filters, CategoryFilterName(c)).Some?
    ensures EnsureSteps(st, h, ids, steps).0 == st
    decreases |steps|
  {
    if |steps| > 0 {
      var s := steps[0];
      var r1 := EnsureCategory(st, h, ids, s.category, s.jql, s.description);
      assert s.category in StepCategories(steps);
      EnsureStepsReuses(r1.0, h, r1.1, steps[1..]);
    }
  }

  /** When the search does not answer, a category whose filter already
      existed is recorded with nothing: the lookup finds nothing, the
      creation is refused as a duplicate, and the lookup after it finds
      nothing again. */
  lemma {:induction false} EnsureStepsSearchDown(st: Store, h: Health, ids: FilterIds, steps: seq<Step>)
    requires Valid(st) && Recorded(st, h, ids) && !h.searchUp
    ensures forall c :: c in StepCategories(steps) && FirstNamed(st.filters, CategoryFilterName(c)).Some? ==>
      EnsureSteps(st, h, ids, steps).1[c].None?
    decreases |steps|
  {
    if |steps| > 0 {
      var s := steps[0];
      var r1 := EnsureCategory(st, h, ids, s.category, s.jql, s.description);
      EnsureStepsSearchDown(r1.0, h, r1.1, steps[1..]);
      var r := EnsureSteps(r1.0, h, r1.1, steps[1..]);
      forall c | c in StepCategories(steps) && FirstNamed(st.filters, CategoryFilterName(c)).Some?
        ensures r.1[c].None?
      {
        FirstIdNamedPrefix(st.filters, r1.0.filters, CategoryFilterName(c));
      }
    }
  }

  /** The step at `i` is the first of its category. */
  ghost predicate FirstOfCategory(steps: seq<Step>, i: int) {
    0 <= i < |steps| && forall j :: 0 <= j < i ==> steps[j].category != steps[i].category
  }

  /** The filter the step's category name finds holds the step's JQL and
      description. */
  ghost predicate Installed(st: Store, s: Step) {
    && FirstNamed(st.filters, CategoryFilterName(s.category)).Some?
    && st.filters[FirstNamed(st.filters, CategoryFilterName(s.category)).value].jql == s.jql
    && st.filters[FirstNamed(st.filters, CategoryFilterName(s.category)).value].description == s.description
  }

  /** Appending filters keeps an installed filter. */
  lemma InstalledGrows(st: Store, st2: Store, s: Step)
    requires Installed(st, s) && st.filters <= st2.filters
    ensures Installed(st2, s)
  {
    FirstIdNamedPrefix(st.filters, st2.filters, CategoryFilterName(s.category));
  }

  /** Ensuring one category's filter leaves another category's free name free. */
  lemma FreeAfterOther(st: Store, h: Health, c: Category, jql: string, description: string, d: Category)
    requires Valid(st) && c != d && FirstNamed(st.filters, CategoryFilterName(d)).None?
    ensures FirstNamed(EnsureFilter(st, h, CategoryFilterName(c), jql, description).0.filters, CategoryFilterName(d)).None?
  {
    CategoryFilterNamesDistinct(c, d);
    var f := Filter(st.nextId, CategoryFilterName(c), jql, description, false);
    FirstNamedAppend(st.filters, [f], CategoryFilterName(d));
    assert FirstNamed([f], CategoryFilterName(d)).None?;
  }

  /** With creation that works, the first step of each category whose name
      was free creates the filter that name then finds, with the step's
      JQL and description. */
  lemma {:induction false} EnsureStepsInstalls(st: Store, h: Health, ids: FilterIds, steps: seq<Step>)
    requires Valid(st) && Recorded(st, h, ids) && h.createUp
    ensures forall i :: FirstOfCategory(steps, i) && FirstNamed(st.filters, CategoryFilterName(steps[i].category)).None? ==>
      Installed(EnsureSteps(st, h, ids, steps).0, steps[i])
    decreases |steps|
  {
    if |steps| > 0 {
      var s := steps[0];
      var r1 := EnsureCategory(st, h, ids, s.category, s.jql, s.description);
      var r := EnsureSteps(r1.0, h, r1.1, steps[1..]);
      EnsureStepsInstalls(r1.0, h, r1.1, steps[1..]);
      forall i | FirstOfCategory(steps, i) && FirstNamed(st.filters, CategoryFilterName(steps[i].category)).None?
        ensures Installed(r.0, steps[i])
      {
        if i == 0 {
          EnsureFilterInstalls(st, h, CategoryFilterName(s.category), s.jql, s.description);
          InstalledGrows(r1.0, r.0, s);
        } else {
          FreeAfterOther(st, h, s.category, s.jql, s.description, steps[i].category);
          assert steps[1..][i - 1] == steps[i];
          assert FirstOfCategory(steps[1..], i - 1);
        }
      }
    }
  }

  /** `ensure_selected_status_filters`: records exactly the selected
      categories, each as `RecordedAs` allows in the resulting store;
      filters are only ever appended, and only when creation works. */
  function EnsureSelectedStatusFilters(st: Store, h: Health, projectKey: string, statuses: set<string>)
    : (r: (Store, FilterIds))
    requires Valid(st)
    ensures Valid(r.0) && st.filters <= r.0.filters
    ensures Recorded(r.0, h, r.1)
    ensures !h.createUp ==> r.0 == st
    ensures forall c :: c in r.1 <==> c in SelectedCategories(statuses)
  {
    var steps := SetupSteps(projectKey, statuses);
    EnsureSteps(st, h, map[], steps)
  }

  /** What the setup records. With a tracker that searches and creates,
      every category holds an id. With a search that answers, a category
      whose filter already existed holds that filter's id. With a search
      that does not answer, such a category holds nothing. With creation
      that works, a category whose name was free holds the id of the filter
      created for it, whether or not the search answers. With creation
      that does not work, nothing is created, and every category holds
      what its name finds, or nothing when the search does not answer. */
  lemma EnsureReusesExisting(st: Store, h: Health, projectKey: string, statuses: set<string>)
    requires Valid(st)
    ensures
      var r := EnsureSelectedStatusFilters(st, h, projectKey, statuses);
      && (h.searchUp && h.createUp ==> forall c :: c in r.1 ==> r.1[c].Some?)
      && (h.searchUp ==> forall c :: c in r.1 && FirstNamed(st.filters, CategoryFilterName(c)).Some? ==>
            r.1[c] == FirstIdNamed(st.filters, CategoryFilterName(c)))
      && (!h.searchUp ==> forall c :: c in r.1 && FirstNamed(st.filters, CategoryFilterName(c)).Some? ==>
            r.1[c].None?)
      && (h.createUp ==> forall c :: c in r.1 && FirstNamed(st.filters, CategoryFilterName(c)).None? ==>
            r.1[c].Some? && r.1[c] == FirstIdNamed(r.0.filters, CategoryFilterName(c)))
      && (!h.createUp ==> r.0 == st && forall c :: c in r.1 ==>
            r.1[c] == if h.searchUp then FirstIdNamed(st.filters, CategoryFilterName(c)) else None)
  {
    var r := EnsureSelectedStatusFilters(st, h, projectKey, statuses);
    var steps := SetupSteps(projectKey, statuses);
    forall c | c in r.1 && FirstNamed(st.filters, CategoryFilterName(c)).Some?
      ensures FirstIdNamed(r.0.filters, CategoryFilterName(c)) == FirstIdNamed(st.filters, CategoryFilterName(c))
    {
      FirstIdNamedPrefix(st.filters, r.0.filters, CategoryFilterName(c));
    }
    if !h.searchUp {
      EnsureStepsSearchDown(st, h, map[], steps);
    }
    if h.createUp {
      SetupStepsShape(projectKey, statuses);
      EnsureStepsCreates(st, h, map[], steps);
    }
  }

  /** With creation that works, every selected category whose filter name
      was free gets a filter, found by that name, holding the JQL and
      description of its step. */
  lemma EnsureSetupInstalls(st: Store, h: Health, projectKey: string, statuses: set<string>)
    requires Valid(st)
    ensures
      var steps := SetupSteps(projectKey, statuses);
      var r := EnsureSelectedStatusFilters(st, h, projectKey, statuses);
      h.createUp ==> forall i :: 0 <= i < |steps| && FirstNamed(st.filters, CategoryFilterName(steps[i].category)).None? ==>
        Installed(r.0, steps[i])
  {
    var steps := SetupSteps(projectKey, statuses);
    if h.createUp {
      SetupStepsShape(projectKey, statuses);
      forall i | 0 <= i < |steps| ensures FirstOfCategory(steps, i) {
        forall j | 0 <= j < i ensures steps[j].category != steps[i].category {
          assert steps[j].category.Rank() < steps[i].category.Rank();
        }
      }
      EnsureStepsInstalls(st, h, map[], steps);
    }
  }

  /** The JQL and description of the Unresolved filter list exactly the
      unresolved statuses the project has, "To Do" before "In Progress". */
  lemma UnresolvedFilterText(statuses: set<string>)
    ensures "To Do" in statuses && "In Progress" in statuses ==>
      && OrClauses(UnresolvedStatuses(statuses)) == StatusClause("To Do") + " OR " + StatusClause("In Progress")
      && Text.JoinWith(UnresolvedStatuses(statuses), ", ") == "To Do" + ", " + "In Progress"
    ensures "To Do" in statuses && "In Progress" !in statuses ==>
      OrClauses(UnresolvedStatuses(statuses)) == StatusClause("To Do")
    ensures "To Do" !in statuses && "In Progress" in statuses ==>
      OrClauses(UnresolvedStatuses(statuses)) == StatusClause("In Progress")
    ensures "To Do" !in statuses && "In Progress" !in statuses ==> UnresolvedStatuses(statuses) == []
  {
    var u := UnresolvedStatuses(statuses);
    if "To Do" in statuses && "In Progress" in statuses {
      assert u == ["To Do", "In Progress"];
      assert u[1..] == ["In Progress"];
    } else if "To Do" in statuses {
      assert u == ["To Do"];
    } else if "In Progress" in statuses {
      assert u == ["In Progress"];
    }
  }

  /** With a search that answers, two recordings of the same categories
      against the same store agree. */
  lemma RecordedUnique(st: Store, h: Health, a: FilterIds, b: FilterIds)
    requires Recorded(st, h, a) && Recorded(st, h, b) && h.searchUp
    requires forall c :: c in a <==> c in b
    ensures a == b
  {
  }

  /** Running the setup a second time creates nothing, and with a search
      that answers it records the same ids. */
  lemma EnsureIdempotent(st: Store, h: Health, projectKey: string, statuses: set<string>)
    requires Valid(st)
    ensures
      var r := EnsureSelectedStatusFilters(st, h, projectKey, statuses);
      var again := EnsureSelectedStatusFilters(r.0, h, projectKey, statuses);
      && again.0 == r.0
      && (h.searchUp ==> again.1 == r.1)
  {
    var r := EnsureSelectedStatusFilters(st, h, projectKey, statuses);
    var steps := SetupSteps(projectKey, statuses);
    var u := EnsureSteps(r.0, h, map[], steps);
    if h.createUp {
      RecordedFound(r.0, h, r.1, StepCategories(steps));
      EnsureStepsReuses(r.0, h, map[], steps);
    }
    if h.searchUp {
      RecordedUnique(r.0, h, u.1, r.1);
    }
  }
}
