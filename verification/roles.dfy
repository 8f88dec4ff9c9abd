/** Filter share permissions, `backend/roles.py`: finding a project role's
    id, the payloads that grant a role view or edit access, removing one
    project-role grant, and removing every viewer grant. The tracker's
    grants of one filter are an explicit state value. */
module Roles {
  import opened Wrappers
  import Text
  import Seqs

  /** Python's `str` of a JSON id that may be missing: None renders as "None". */
  function Str(id: Option<string>): (r: string)
    ensures id.Some? ==> r == id.value
    ensures id.None? ==> r == "None"
  {
    match id
    case Some(s) => s
    case None => "None"
  }

  // ---------------------------------------------------------------------
  // Role lookup (`get_project_role_id`).

  /** The answer of `GET /project/{key}/role`: role names with their links,
      in the order the tracker lists them. */
  datatype RolesReply = RolesReply(code: int, roles: seq<(string, string)>)

  /** The last `/`-separated segment of a link, ignoring trailing slashes. */
  function LastSegment(link: string): string {
    var parts := Text.Split(Text.RStrip(link, '/'), '/');
    parts[|parts| - 1]
  }

  predicate RoleNamed(role: (string, string), name: string) {
    Text.Lower(role.0) == Text.Lower(name)
  }

  /** The id of the first role whose name equals `name` ignoring case, read
      from the end of its link; nothing on a non-200 reply or when no role
      has that name. */
  function GetProjectRoleId(reply: RolesReply, name: string): (r: Option<string>)
    ensures reply.code != 200 ==> r.None?
    ensures reply.code == 200 ==>
      (r.None? <==> forall i :: 0 <= i < |reply.roles| ==> !RoleNamed(reply.roles[i], name))
    ensures r.Some? ==> exists i :: (0 <= i < |reply.roles| && RoleNamed(reply.roles[i], name)
      && r.value == LastSegment(reply.roles[i].1)
      && forall j :: 0 <= j < i ==> !RoleNamed(reply.roles[j], name))
  {
    if reply.code != 200 then None
    else
      match Seqs.FirstIndex(reply.roles, (role: (string, string)) => RoleNamed(role, name))
      case Some(i) => Some(LastSegment(reply.roles[i].1))
      case None => None
  }

  /** The role link `base/id`, with or without one trailing slash, yields
      `id` when `id` is a non-empty segment. */
  lemma LastSegmentOfRoleLink(base: string, id: string, trailing: bool)
    requires |id| > 0 && '/' !in id
    ensures LastSegment(base + "/" + id + (if trailing then "/" else "")) == id
  {
    var plain := base + "/" + id;
    var link := plain + (if trailing then "/" else "");
    assert plain[|plain| - 1] == id[|id| - 1];
    if trailing {
      assert link[..|link| - 1] == plain;
    }
    assert Text.RStrip(link, '/') == plain;
    LastPieceOfSplit(base, id, '/');
  }

  /** Splitting `a + sep + b` ends with the piece `b` when `b` has no `sep`. */
  lemma {:induction false} LastPieceOfSplit(a: string, b: string, sep: char)
    requires sep !in b
    ensures var parts := Text.Split(a + [sep] + b, sep); parts[|parts| - 1] == b
    decreases |a|
  {
    var s := a + [sep] + b;
    var parts := Text.Split(s, sep);
    if sep in a {
      var i := Text.IndexOf(a, sep);
      assert s[..i] == a[..i];
      var rest := a[i + 1..] + [sep] + b;
      assert s[i + 1..] == rest;
      Text.SplitAt(s, sep, i);
      LastPieceOfSplit(a[i + 1..], b, sep);
      var restParts := Text.Split(rest, sep);
      assert parts == [s[..i]] + restParts;
      assert parts[|parts| - 1] == restParts[|restParts| - 1];
    } else {
      assert s[..|a|] == a;
      assert s[|a| + 1..] == b;
      Text.SplitAt(s, sep, |a|);
      assert Text.Split(b, sep) == [b];
      assert parts == [a, b];
    }
  }

  // ---------------------------------------------------------------------
  // Grant payloads (`add_viewer_permission`, `add_editor_permission`).

  /** The body posted to `/filter/{id}/permission`. */
  datatype Payload = Payload(kind: string, projectId: Option<string>, projectRoleId: Option<string>,
                             view: Option<bool>, edit: Option<bool>)

  /** A project-role share that does not mention editing. */
  function ViewerPayload(projectId: Option<string>, roleId: Option<string>): (p: Payload)
    ensures p.kind == "projectRole" && p.projectId == projectId && p.projectRoleId == roleId
    ensures p.view.None? && p.edit.None?
  {
    Payload("projectRole", projectId, roleId, None, None)
  }

  /** The same share, also granting view and edit. */
  function EditorPayload(projectId: Option<string>, roleId: Option<string>): (p: Payload)
    ensures p.kind == "projectRole" && p.projectId == projectId && p.projectRoleId == roleId
    ensures p.view == Some(true) && p.edit == Some(true)
  {
    Payload("projectRole", projectId, roleId, Some(true), Some(true))
  }

  /** The editor payload is the viewer payload plus the two flags; the two
      differ in nothing else. */
  lemma EditorExtendsViewer(projectId: Option<string>, roleId: Option<string>)
    ensures EditorPayload(projectId, roleId) == ViewerPayload(projectId, roleId).(view := Some(true), edit := Some(true))
    ensures EditorPayload(projectId, roleId) != ViewerPayload(projectId, roleId)
  {
  }

  // ---------------------------------------------------------------------
  // The grants of one filter and their removal.

  /** The "type" of a share permission: the five types the backend names,
      and any other. `OtherType` stands for a spelling none of the five
      has; a type string is read with `TypeOf`, which never builds an
      `OtherType` under one of those five spellings. */
  datatype GrantType = ProjectType | ProjectRoleType | UserType | GroupType | GlobalType | OtherType(name: string)
  {
    /** The JSON spelling of the type. */
    function Name(): string {
      match this
      case ProjectType => "project"
      case ProjectRoleType => "projectRole"
      case UserType => "user"
      case GroupType => "group"
      case GlobalType => "global"
      case OtherType(n) => n
    }
  }

  /** Reads a JSON "type" string. */
  function TypeOf(s: string): (t: GrantType)
    ensures t.Name() == s
    ensures t.OtherType? ==> t.name !in {"project", "projectRole", "user", "group", "global"}
  {
    if s == "project" then ProjectType
    else if s == "projectRole" then ProjectRoleType
    else if s == "user" then UserType
    else if s == "group" then GroupType
    else if s == "global" then GlobalType
    else OtherType(s)
  }

  /** Reading the spelling of a named type gives the type back, so two
      different types never share a spelling. */
  lemma TypeOfName(t: GrantType)
    requires t.OtherType? ==> t.name !in {"project", "projectRole", "user", "group", "global"}
    ensures TypeOf(t.Name()) == t
  {
  }

  /** One share permission as the tracker lists it. `kind` is None when the
      entry has no "type"; `projectId` is None when it has no project or the
      project has no id; `role` is None when it has no "role" key, and
      Some(None) when the role has no id. Ids are the `str` of the JSON values. */
  datatype Grant = Grant(id: nat, kind: Option<GrantType>, projectId: Option<string>, role: Option<Option<string>>)

  /** The grants of one filter, and whether the tracker lets them be listed. */
  datatype Perms = Perms(listable: bool, grants: seq<Grant>)

  /** Permission ids are distinct. */
  ghost predicate UniqueIds(grants: seq<Grant>) {
    forall i, j :: 0 <= i < j < |grants| ==> grants[i].id != grants[j].id
  }

  /** `list_filter_permissions`: the grants, or none when listing fails. */
  function Listing(st: Perms): (r: seq<Grant>)
    ensures st.listable ==> r == st.grants
    ensures !st.listable ==> r == []
  {
    if st.listable then st.grants else []
  }

  /** `DELETE /filter/{id}/permission/{pid}`: the grant with that id goes. */
  function Delete(st: Perms, pid: nat): (r: Perms)
    ensures r.listable == st.listable
    ensures forall i :: 0 <= i < |r.grants| ==> r.grants[i] in st.grants && r.grants[i].id != pid
    ensures forall i :: 0 <= i < |st.grants| && st.grants[i].id != pid ==> st.grants[i] in r.grants
  {
    Seqs.FilterMembers(st.grants, (g: Grant) => g.id != pid);
    st.(grants := Seqs.Filter(st.grants, (g: Grant) => g.id != pid))
  }

  /** Deleting the grant at `i` when ids are distinct removes exactly it. */
  lemma DeleteAt(st: Perms, i: nat)
    requires UniqueIds(st.grants) && i < |st.grants|
    ensures Delete(st, st.grants[i].id).grants == st.grants[..i] + st.grants[i + 1..]
    ensures UniqueIds(Delete(st, st.grants[i].id).grants)
  {
    var pid := st.grants[i].id;
    Seqs.FilterDropOne(st.grants, (g: Grant) => g.id != pid, i);
    var r := st.grants[..i] + st.grants[i + 1..];
    forall a, b | 0 <= a < b < |r| ensures r[a].id != r[b].id {
      var a' := if a < i then a else a + 1;
      var b' := if b < i then b else b + 1;
      assert r[a] == st.grants[a'] && r[b] == st.grants[b'];
    }
  }

  /** The test of `remove_editor_permission`: a "project" grant that has a
      "role" key, whose project id and role id render as the given ones. */
  predicate EditorMatch(g: Grant, projectId: Option<string>, roleId: Option<string>) {
    && g.kind == Some(ProjectType)
    && Str(g.projectId) == Str(projectId)
    && g.role.Some?
    && Str(g.role.value) == Str(roleId)
  }

  /** The test of `remove_viewer_permission`: the same without requiring
      the "role" key (a missing role renders its id as "None"). */
  predicate ViewerMatch(g: Grant, projectId: Option<string>, roleId: Option<string>) {
    && g.kind == Some(ProjectType)
    && Str(g.projectId) == Str(projectId)
    && Str(if g.role.Some? then g.role.value else None) == Str(roleId)
  }

  /** Every grant the editor test accepts, the viewer test accepts too. */
  lemma EditorMatchIsViewerMatch(g: Grant, projectId: Option<string>, roleId: Option<string>)
    requires EditorMatch(g, projectId, roleId)
    ensures ViewerMatch(g, projectId, roleId)
  {
  }

  /** `i` is the first grant the editor test accepts. */
  ghost predicate FirstEditorMatch(grants: seq<Grant>, projectId: Option<string>, roleId: Option<string>, i: int) {
    && 0 <= i < |grants|
    && EditorMatch(grants[i], projectId, roleId)
    && forall j :: 0 <= j < i ==> !EditorMatch(grants[j], projectId, roleId)
  }

  /** `i` is where the viewer loop stops reading: the first grant that has
      no type or passes the viewer test. */
  ghost predicate FirstViewerStop(grants: seq<Grant>, projectId: Option<string>, roleId: Option<string>, i: int) {
    && 0 <= i < |grants|
    && (grants[i].kind.None? || ViewerMatch(grants[i], projectId, roleId))
    && forall j :: 0 <= j < i ==> grants[j].kind.Some? && !ViewerMatch(grants[j], projectId, roleId)
  }

  /** The first grant the editor test accepts is where the editor loop
      stops. */
  lemma EditorStopIs(grants: seq<Grant>, projectId: Option<string>, roleId: Option<string>)
    ensures var f := Seqs.FirstIndex(grants, (g: Grant) => EditorMatch(g, projectId, roleId));
      forall k :: FirstEditorMatch(grants, projectId, roleId, k) <==> f == Some(k)
  {
  }

  /** The first grant without a type or accepted by the viewer test is
      where the viewer loop stops. */
  lemma ViewerStopIs(grants: seq<Grant>, projectId: Option<string>, roleId: Option<string>)
    ensures var f := Seqs.FirstIndex(grants, (g: Grant) => g.kind.None? || ViewerMatch(g, projectId, roleId));
      forall k :: FirstViewerStop(grants, projectId, roleId, k) <==> f == Some(k)
  {
  }

  /** `remove_editor_permission`: deletes the first grant the editor test
      accepts and nothing else; deletes nothing when none does or when the
      grants cannot be listed. */
  function RemoveEditorPermission(st: Perms, projectId: Option<string>, roleId: Option<string>): (r: Perms)
    requires UniqueIds(st.grants)
    ensures UniqueIds(r.grants) && r.listable == st.listable
    ensures st.listable ==> forall i :: FirstEditorMatch(st.grants, projectId, roleId, i) ==>
      r.grants == st.grants[..i] + st.grants[i + 1..]
    ensures (!st.listable || forall i :: 0 <= i < |st.grants| ==> !EditorMatch(st.grants[i], projectId, roleId)) ==> r == st
    ensures st.listable && r != st ==> exists i :: (0 <= i < |st.grants|
      && EditorMatch(st.grants[i], projectId, roleId)
      && (forall j :: 0 <= j < i ==> !EditorMatch(st.grants[j], projectId, roleId))
      && r.grants == st.grants[..i] + st.grants[i + 1..])
  {
    var listed := Listing(st);
    EditorStopIs(st.grants, projectId, roleId);
    match Seqs.FirstIndex(listed, (g: Grant) => EditorMatch(g, projectId, roleId))
    case None => st
    case Some(i) =>
      DeleteAt(st, i);
      Delete(st, listed[i].id)
  }

  /** Counted against the editor test, a removal with a listing and a
      match takes away exactly one matching grant and one grant overall;
      otherwise nothing goes. */
  lemma RemoveEditorCount(st: Perms, projectId: Option<string>, roleId: Option<string>)
    requires UniqueIds(st.grants)
    ensures
      var r := RemoveEditorPermission(st, projectId, roleId);
      var before := Seqs.Count(st.grants, (g: Grant) => EditorMatch(g, projectId, roleId));
      var after := Seqs.Count(r.grants, (g: Grant) => EditorMatch(g, projectId, roleId));
      if st.listable && before > 0 then after == before - 1 && |r.grants| == |st.grants| - 1
      else r == st
  {
    var m := (g: Grant) => EditorMatch(g, projectId, roleId);
    if st.listable {
      match Seqs.FirstIndex(st.grants, m)
      case None =>
        Seqs.FilterNone(st.grants, m);
      case Some(i) =>
        assert FirstEditorMatch(st.grants, projectId, roleId, i);
        Seqs.CountDropOne(st.grants, m, i);
    }
  }

  /** The error of reading the "type" of an entry that has none. */
  const MissingTypeError: string := "KeyError: 'type'"

  /** `remove_viewer_permission`: the same first-match-only deletion with
      the viewer test. Entries are read in order and an entry without a
      "type" met before any match raises, having deleted nothing. */
  function RemoveViewerPermission(st: Perms, projectId: Option<string>, roleId: Option<string>): (r: Result<Perms>)
    requires UniqueIds(st.grants)
    ensures r.Success? ==> UniqueIds(r.value.grants) && r.value.listable == st.listable
    ensures !st.listable ==> r == Success(st)
    ensures r.Failure? ==> r.error == MissingTypeError && exists i :: 0 <= i < |st.grants| && st.grants[i].kind.None?
    ensures r.Failure? <==> st.listable && exists i :: FirstViewerStop(st.grants, projectId, roleId, i) && st.grants[i].kind.None?
    ensures st.listable ==> forall i :: FirstViewerStop(st.grants, projectId, roleId, i) && st.grants[i].kind.Some? ==>
      r.Success? && r.value.grants == st.grants[..i] + st.grants[i + 1..]
    ensures r.Success? && r.value != st ==> exists i :: (0 <= i < |st.grants|
      && ViewerMatch(st.grants[i], projectId, roleId)
      && (forall j :: 0 <= j < i ==> !ViewerMatch(st.grants[j], projectId, roleId))
      && r.value.grants == st.grants[..i] + st.grants[i + 1..])
    ensures (forall i :: 0 <= i < |st.grants| ==> st.grants[i].kind.Some? && !ViewerMatch(st.grants[i], projectId, roleId)) ==>
      r == Success(st)
  {
    var listed := Listing(st);
    ViewerStopIs(st.grants, projectId, roleId);
    match Seqs.FirstIndex(listed, (g: Grant) => g.kind.None? || ViewerMatch(g, projectId, roleId))
    case None => Success(st)
    case Some(i) =>
      if listed[i].kind.None? then Failure(MissingTypeError)
      else
        DeleteAt(st, i);
        Success(Delete(st, listed[i].id))
  }
  /** Counted against the viewer test, a successful removal from a listing
      with a match takes away exactly one matching grant and one grant
      overall. */
  lemma RemoveViewerCount(st: Perms, projectId: Option<string>, roleId: Option<string>)
    requires UniqueIds(st.grants)
    ensures
      var r := RemoveViewerPermission(st, projectId, roleId);
      var before := Seqs.Count(st.grants, (g: Grant) => ViewerMatch(g, projectId, roleId));
      r.Success? && st.listable && before > 0 ==>
        && Seqs.Count(r.value.grants, (g: Grant) => ViewerMatch(g, projectId, roleId)) == before - 1
        && |r.value.grants| == |st.grants| - 1
  {
    var m := (g: Grant) => ViewerMatch(g, projectId, roleId);
    var stop := (g: Grant) => g.kind.None? || ViewerMatch(g, projectId, roleId);
    if st.listable {
      match Seqs.FirstIndex(st.grants, stop)
      case None =>
        Seqs.FilterNone(st.grants, m);
      case Some(i) =>
        assert FirstViewerStop(st.grants, projectId, roleId, i);
        Seqs.CountDropOne(st.grants, m, i);
    }
  }


  /** The grants `remove_all_viewers` deletes: those whose type is one of
      "project", "projectRole", "user", "group" and "global". */
  predicate Deletable(g: Grant) {
    g.kind.Some? && !g.kind.value.OtherType?
  }

  /** The grants `remove_all_viewers` leaves alone. */
  predicate Kept(g: Grant) {
    !Deletable(g)
  }

  /** Where one pass of `remove_all_viewers` stops reading: at a deletable
      grant, or at an entry without a "type", which raises. */
  predicate Halts(g: Grant) {
    g.kind.None? || Deletable(g)
  }

  /** The grants left when `remove_all_viewers` raises at the entry `k`,
      the first one without a "type": the kept grants before it, then it
      and everything after it. */
  predicate StopsAt(gs: seq<Grant>, k: nat, left: seq<Grant>) {
    && k < |gs|
    && gs[k].kind.None?
    && (forall i :: 0 <= i < k ==> gs[i].kind.Some?)
    && left == Seqs.Filter(gs[..k], Kept) + gs[k..]
  }

  /** What `remove_all_viewers` ends with: the grants left, how many were
      deleted, and whether it raised on an entry without a "type". */
  datatype Outcome = Outcome(left: seq<Grant>, deleted: nat, raised: bool)

  /** The outcome of `remove_all_viewers` on the grants `gs`, read front to
      back: a deletable grant goes, any other grant with a "type" stays, and
      an entry without a "type" stops everything where it stands. */
  function Run(gs: seq<Grant>): Outcome
  {
    if |gs| == 0 then Outcome([], 0, false)
    else if gs[0].kind.None? then Outcome(gs, 0, true)
    else
      var o := Run(gs[1..]);
      if Deletable(gs[0]) then o.(deleted := o.deleted + 1) else o.(left := [gs[0]] + o.left)
  }

  /** The outcome in terms of selection and counting: without a missing
      "type" exactly the kept grants stay and the deletable ones are
      counted; otherwise the run raises at the first entry without one. */
  lemma RunFilters(gs: seq<Grant>)
    ensures !Run(gs).raised <==> forall i :: 0 <= i < |gs| ==> gs[i].kind.Some?
    ensures !Run(gs).raised ==>
      Run(gs).left == Seqs.Filter(gs, Kept) && Run(gs).deleted == Seqs.Count(gs, Deletable)
    ensures Run(gs).raised ==> exists k :: StopsAt(gs, k, Run(gs).left)
  {
    RunRaisesIff(gs);
    if Run(gs).raised {
      var k := RunRaises(gs);
    } else {
      RunSelects(gs);
    }
  }

  /** The run raises exactly when some entry has no "type". */
  lemma {:induction false} RunRaisesIff(gs: seq<Grant>)
    ensures !Run(gs).raised <==> forall i :: 0 <= i < |gs| ==> gs[i].kind.Some?
    decreases |gs|
  {
    if |gs| > 0 && gs[0].kind.Some? {
      var rest := gs[1..];
      RunRaisesIff(rest);
      assert forall i :: 0 <= i < |rest| ==> rest[i] == gs[i + 1];
    }
  }

  /** Without a missing "type" the run is selection and counting. */
  lemma {:induction false} RunSelects(gs: seq<Grant>)
    requires !Run(gs).raised
    ensures Run(gs).left == Seqs.Filter(gs, Kept) && Run(gs).deleted == Seqs.Count(gs, Deletable)
    decreases |gs|
  {
    if |gs| > 0 {
      var g, rest := gs[0], gs[1..];
      assert gs == [g] + rest;
      RunSelects(rest);
      Seqs.FilterCons(g, rest, Kept);
      Seqs.CountCons(g, rest, Deletable);
    }
  }

  /** A run that raises does so at the first entry without a "type". */
  lemma RunRaises(gs: seq<Grant>) returns (k: nat)
    requires Run(gs).raised
    ensures StopsAt(gs, k, Run(gs).left)
  {
    RunRaisesIff(gs);
    match Seqs.FirstIndex(gs, (g: Grant) => g.kind.None?)
    case Some(i) =>
      k := i;
      RaisedLeft(gs, k);
    case None =>
      assert false;
  }

  /** What a run leaves when the first entry without a "type" is at `k`. */
  lemma {:induction false} RaisedLeft(gs: seq<Grant>, k: nat)
    requires k < |gs| && gs[k].kind.None?
    requires forall i :: 0 <= i < k ==> gs[i].kind.Some?
    ensures Run(gs).left == Seqs.Filter(gs[..k], Kept) + gs[k..]
    decreases k
  {
    if k == 0 {
      assert gs[..0] == [];
    } else {
      var rest := gs[1..];
      forall i | 0 <= i < k - 1 ensures rest[i].kind.Some? {
        assert rest[i] == gs[i + 1];
      }
      assert rest[k - 1] == gs[k];
      RaisedLeft(rest, k - 1);
      assert gs[..k] == [gs[0]] + rest[..k - 1];
      Seqs.FilterCons(gs[0], rest[..k - 1], Kept);
      assert rest[k - 1..] == gs[k..];
    }
  }

  /** A pass that finds nothing to stop at: the run keeps every grant. */
  lemma {:induction false} RunClear(cur: seq<Grant>)
    requires forall k :: 0 <= k < |cur| ==> !Halts(cur[k])
    ensures Run(cur) == Outcome(cur, 0, false)
    decreases |cur|
  {
    if |cur| > 0 {
      RunClear(cur[1..]);
      assert [cur[0]] + cur[1..] == cur;
    }
  }

  /** A pass that stops at an entry without a "type": the run raises and
      leaves the grants as they are. */
  lemma {:induction false} RunStuck(cur: seq<Grant>, i: nat)
    requires i < |cur| && cur[i].kind.None?
    requires forall k :: 0 <= k < i ==> !Halts(cur[k])
    ensures Run(cur) == Outcome(cur, 0, true)
    decreases i
  {
    if i > 0 {
      RunStuck(cur[1..], i - 1);
      assert [cur[0]] + cur[1..] == cur;
    }
  }

  /** A pass that deletes the deletable grant it stops at changes the run's
      outcome only by that one deletion. */
  lemma {:induction false} RunSkip(cur: seq<Grant>, i: nat)
    requires i < |cur| && Deletable(cur[i])
    requires forall k :: 0 <= k < i ==> !Halts(cur[k])
    ensures var o := Run(cur[..i] + cur[i + 1..]);
      Run(cur) == o.(deleted := o.deleted + 1)
    decreases i
  {
    var next := cur[..i] + cur[i + 1..];
    if i == 0 {
      assert next == cur[1..];
    } else {
      var tail := cur[1..];
      RunSkip(tail, i - 1);
      assert next == [cur[0]] + (tail[..i - 1] + tail[i..]);
      assert next[1..] == tail[..i - 1] + tail[i..];
    }
  }

  /** `remove_all_viewers`: pass after pass, lists the grants and deletes
      the first deletable one, until a pass finds none. When no entry lacks
      a "type", exactly the deletable grants are removed, one per pass, and
      every other grant stays in order. An entry without a "type" raises
      once every deletable grant before it is gone. Nothing is deleted when
      the grants cannot be listed. */
  method RemoveAllViewers(st: Perms) returns (r: Perms, deleted: nat, error: Option<string>)
    requires UniqueIds(st.grants)
    ensures r.listable == st.listable
    ensures !st.listable ==> r == st && deleted == 0 && error.None?
    ensures st.listable ==>
      && r.grants == Run(st.grants).left
      && deleted == Run(st.grants).deleted
      && (error.Some? <==> Run(st.grants).raised)
    ensures st.listable && error.None? ==>
      && (forall i :: 0 <= i < |st.grants| ==> st.grants[i].kind.Some?)
      && r.grants == Seqs.Filter(st.grants, Kept)
      && deleted == Seqs.Count(st.grants, Deletable)
    ensures st.listable && error.Some? ==>
      error == Some(MissingTypeError) && exists k :: StopsAt(st.grants, k, r.grants)
  {
    r := st;
    deleted := 0;
    error := None;
    if !st.listable {
      return;
    }
    RunFilters(st.grants);
    while true
      invariant r.listable && UniqueIds(r.grants) && error.None?
      invariant Run(r.grants).left == Run(st.grants).left
      invariant Run(r.grants).raised == Run(st.grants).raised
      invariant deleted + Run(r.grants).deleted == Run(st.grants).deleted
      decreases |r.grants|
    {
      var listed := Listing(r);
      var next := Seqs.FirstIndex(listed, Halts);
      if next.None? {
        RunClear(listed);
        return;
      }
      var i := next.value;
      if listed[i].kind.None? {
        RunStuck(listed, i);
        error := Some(MissingTypeError);
        return;
      }
      RunSkip(listed, i);
      DeleteAt(r, i);
      r := Delete(r, listed[i].id);
      deleted := deleted + 1;
    }
  }
}
