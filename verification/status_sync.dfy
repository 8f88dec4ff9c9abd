/** `backend/status.py`: status files named `KEY_Status.txt` move their
    issue to that status and become the issue's only attachment. The tracker
    is an abstract store of issues; the requests the script sends are
    recorded as a list of actions. */
module StatusSync {
  import opened Wrappers
  import Text
  import Seqs

  /** The issue key and the target status a file name carries. */
  datatype FileTarget = FileTarget(key: string, status: string)

  /** The file name test of `process_txt_files`: the name ends in ".txt" and
      splits on "_" into exactly two parts; the key is the first part and
      the status is the second with every ".txt" removed. */
  function ParseFilename(name: string): (r: Option<FileTarget>)
    ensures r.Some? ==> Text.EndsWith(name, ".txt")
  {
    if !Text.EndsWith(name, ".txt") then None
    else
      var parts := Text.Split(name, '_');
      if |parts| != 2 then None
      else Some(FileTarget(parts[0], Text.RemoveAll(parts[1], ".txt")))
  }

  /** The key of a processed name is everything before its one "_". */
  lemma ParseFilenameKey(name: string)
    requires ParseFilename(name).Some?
    ensures var key := ParseFilename(name).value.key;
      && '_' !in key
      && |key| < |name| && name[..|key| + 1] == key + "_"
  {
    var parts := Text.Split(name, '_');
    Text.SplitSpec(name, '_');
    assert parts[1..] == [parts[1]];
    assert name == parts[0] + "_" + parts[1];
  }

  /** A name is processed exactly when it ends in ".txt" and holds exactly one "_". */
  lemma ParseFilenameAccepts(name: string)
    ensures ParseFilename(name).Some? <==> Text.EndsWith(name, ".txt") && Text.Occurrences(name, '_') == 1
  {
    Text.SplitCount(name, '_');
  }

  /** The name written for a key and a status reads back as that key and
      status, as long as neither holds "_" and the status holds no ".". */
  lemma ParseFilenameRoundTrip(key: string, status: string)
    requires '_' !in key && '_' !in status && '.' !in status
    ensures ParseFilename(key + "_" + status + ".txt") == Some(FileTarget(key, status))
  {
    var name := key + "_" + status + ".txt";
    var parts := [key, status + ".txt"];
    assert '_' !in status + ".txt" by {
      assert forall i :: 0 <= i < |status| ==> (status + ".txt")[i] == status[i];
    }
    assert Text.Join(parts, '_') == name by {
      assert parts[1..] == [status + ".txt"];
    }
    Text.SplitJoin(parts, '_');
    assert name[|name| - 4..] == ".txt";
    Text.RemoveTxtSuffix(status);
  }

  /** One transition an issue offers: its id and the name of the status it leads to. */
  datatype Transition = Transition(id: string, to: string)

  /** Whether a transition leads to `target`, compared in lower case. */
  predicate LeadsTo(t: Transition, target: string) {
    Text.Lower(t.to) == Text.Lower(target)
  }

  /** Whether position `i` holds the first transition leading to `target`. */
  predicate FirstLeadingTo(transitions: seq<Transition>, target: string, i: nat) {
    && i < |transitions| && LeadsTo(transitions[i], target)
    && forall j :: 0 <= j < i ==> !LeadsTo(transitions[j], target)
  }

  /** Position of the first transition leading to `target`. */
  function TransitionIndex(transitions: seq<Transition>, target: string): (r: Option<nat>)
    ensures r.None? <==> forall i :: 0 <= i < |transitions| ==> !LeadsTo(transitions[i], target)
    ensures r.Some? ==> r.value < |transitions| && LeadsTo(transitions[r.value], target)
    ensures r.Some? ==> forall j :: 0 <= j < r.value ==> !LeadsTo(transitions[j], target)
  {
    Seqs.FirstIndex(transitions, (t: Transition) => LeadsTo(t, target))
  }

  /** `get_transition_id`: the id of the first transition whose destination
      matches `target` case-insensitively, or None. */
  function GetTransitionId(transitions: seq<Transition>, target: string): (r: Option<string>)
    ensures r.None? <==> forall i :: 0 <= i < |transitions| ==> !LeadsTo(transitions[i], target)
    ensures r.Some? ==> exists i: nat :: FirstLeadingTo(transitions, target, i) && transitions[i].id == r.value
  {
    match TransitionIndex(transitions, target)
    case Some(i) => Some(transitions[i].id)
    case None => None
  }

  /** The lookup does not depend on the case of the target. */
  lemma GetTransitionIdIgnoresCase(transitions: seq<Transition>, a: string, b: string)
    requires Text.Lower(a) == Text.Lower(b)
    ensures GetTransitionId(transitions, a) == GetTransitionId(transitions, b)
  {
    Seqs.FirstIndexAgree(transitions, (t: Transition) => LeadsTo(t, a), (t: Transition) => LeadsTo(t, b));
  }

  /** An attachment of an issue. */
  datatype Attachment = Attachment(id: nat, fileName: string)

  /** What the tracker knows of one issue: its status, the transitions it
      offers, and its attachments. */
  datatype IssueRec = IssueRec(status: string, transitions: seq<Transition>, attachments: seq<Attachment>)

  /** The tracker: issues by key, the id the next upload gets, and the
      attachments whose deletion it refuses (any answer other than 204). */
  datatype Tracker = Tracker(issues: map<string, IssueRec>, nextAttachment: nat, refuses: set<nat>)

  /** The requests that change something, in the order they are sent. */
  datatype Action =
    | PostTransition(key: string, id: string)
    | DeleteAttachment(key: string, attachment: nat)
    | Upload(key: string, fileName: string)
  {
    /** The issue the request is about. */
    function Key(): string {
      match this
      case PostTransition(k, _) => k
      case DeleteAttachment(k, _) => k
      case Upload(k, _) => k
    }

    /** The phase of `process_txt_files` the request belongs to. */
    function Phase(): nat {
      match this
      case PostTransition(_, _) => 0
      case DeleteAttachment(_, _) => 1
      case Upload(_, _) => 2
    }
  }

  /** Whether the requests come in phase order: transitions, then deletions, then uploads. */
  predicate Ordered(actions: seq<Action>) {
    forall i, j :: 0 <= i < j < |actions| ==> actions[i].Phase() <= actions[j].Phase()
  }

  /** Transitions followed by requests of a later phase stay in order. */
  lemma OrderedAppend(moves: seq<Action>, rest: seq<Action>)
    requires forall i :: 0 <= i < |moves| ==> moves[i].PostTransition?
    requires Ordered(rest)
    ensures Ordered(moves + rest)
  {
    var all := moves + rest;
    forall i, j | 0 <= i < j < |all| ensures all[i].Phase() <= all[j].Phase() {
      if i >= |moves| {
        assert all[i] == rest[i - |moves|] && all[j] == rest[j - |moves|];
      } else {
        assert all[i] == moves[i];
      }
    }
  }

  /** The transitions an issue offers; an unknown key answers none. */
  function TransitionsOf(tr: Tracker, key: string): seq<Transition> {
    if key in tr.issues then tr.issues[key].transitions else []
  }

  /** `transition_issue`: posts the first matching transition when its id
      is not empty, which moves the issue to that transition's status. */
  function TransitionIssue(tr: Tracker, key: string, target: string): (r: (Tracker, seq<Action>))
    ensures (forall k :: k in r.0.issues <==> k in tr.issues) && r.0.nextAttachment == tr.nextAttachment
    ensures r.0.refuses == tr.refuses
    ensures forall k :: k in tr.issues && k != key ==> r.0.issues[k] == tr.issues[k]
    ensures key in tr.issues ==>
      r.0.issues[key] == tr.issues[key].(status := r.0.issues[key].status)
    ensures GetTransitionId(TransitionsOf(tr, key), target) in {None, Some("")} ==> r == (tr, [])
    ensures GetTransitionId(TransitionsOf(tr, key), target) !in {None, Some("")} ==>
      && r.1 == [PostTransition(key, GetTransitionId(TransitionsOf(tr, key), target).value)]
      && Text.Lower(r.0.issues[key].status) == Text.Lower(target)
  {
    var transitions := TransitionsOf(tr, key);
    match TransitionIndex(transitions, target)
    case None => (tr, [])
    case Some(i) =>
      var t := transitions[i];
      if t.id == "" then (tr, [])
      else
        var issue := tr.issues[key];
        (tr.(issues := tr.issues[key := issue.(status := t.to)]), [PostTransition(key, t.id)])
  }

  /** Whether the tracker refuses to delete an attachment. */
  predicate Refused(tr: Tracker, a: Attachment) {
    a.id in tr.refuses
  }

  /** The test of whether the tracker refuses to delete an attachment,
      given the ids it refuses. */
  function RefusedBy(refuses: set<nat>): Attachment -> bool {
    (a: Attachment) => a.id in refuses
  }

  /** `delete_all_attachments`: one delete request per attachment the issue
      has, in order; the attachments the tracker refuses stay. */
  function DeleteAllAttachments(tr: Tracker, key: string): (r: (Tracker, seq<Action>))
    ensures (forall k :: k in r.0.issues <==> k in tr.issues) && r.0.nextAttachment == tr.nextAttachment
    ensures r.0.refuses == tr.refuses
    ensures forall k :: k in tr.issues && k != key ==> r.0.issues[k] == tr.issues[k]
    ensures key !in tr.issues ==> r == (tr, [])
    ensures key in tr.issues ==>
      && |r.1| == |tr.issues[key].attachments|
      && (forall i :: 0 <= i < |r.1| ==> r.1[i] == DeleteAttachment(key, tr.issues[key].attachments[i].id))
      && r.0.issues[key].status == tr.issues[key].status
      && r.0.issues[key].transitions == tr.issues[key].transitions
      && (forall a :: a in r.0.issues[key].attachments <==> a in tr.issues[key].attachments && Refused(tr, a))
      && r.0.issues[key].attachments == Seqs.Filter(tr.issues[key].attachments, RefusedBy(tr.refuses))
  {
    if key !in tr.issues then (tr, [])
    else
      var issue := tr.issues[key];
      var atts := issue.attachments;
      var kept := Seqs.Filter(atts, RefusedBy(tr.refuses));
      Seqs.FilterMembers(atts, RefusedBy(tr.refuses));
      (tr.(issues := tr.issues[key := issue.(attachments := kept)]),
       seq(|atts|, i requires 0 <= i < |atts| => DeleteAttachment(key, atts[i].id)))
  }

  /** `attach_file`: deletes the issue's attachments, then uploads the file,
      which becomes the issue's last attachment. The upload is sent for an
      unknown key too, and changes nothing there. */
  function AttachFile(tr: Tracker, key: string, fileName: string): (r: (Tracker, seq<Action>))
    ensures (forall k :: k in r.0.issues <==> k in tr.issues) && r.0.refuses == tr.refuses
    ensures forall k :: k in tr.issues && k != key ==> r.0.issues[k] == tr.issues[k]
    ensures |r.1| >= 1 && r.1[|r.1| - 1] == Upload(key, fileName)
    ensures forall i :: 0 <= i < |r.1| - 1 ==> r.1[i].DeleteAttachment? && r.1[i].Key() == key
    ensures Ordered(r.1)
    ensures key in tr.issues ==>
      var atts := r.0.issues[key].attachments;
      && atts == Seqs.Filter(tr.issues[key].attachments, RefusedBy(tr.refuses)) + [Attachment(tr.nextAttachment, fileName)]
      && r.0.issues[key].status == tr.issues[key].status
  {
    var (t1, deletes) := DeleteAllAttachments(tr, key);
    if key !in t1.issues then (t1, deletes + [Upload(key, fileName)])
    else
      var issue := t1.issues[key];
      var atts := issue.attachments + [Attachment(t1.nextAttachment, fileName)];
      (t1.(issues := t1.issues[key := issue.(attachments := atts)], nextAttachment := t1.nextAttachment + 1),
       deletes + [Upload(key, fileName)])
  }

  /** One file of `process_txt_files`: a name that does not parse is
      skipped; otherwise the issue is transitioned and the file attached,
      in that order. */
  function ProcessFile(tr: Tracker, name: string): (r: (Tracker, seq<Action>))
    ensures (forall k :: k in r.0.issues <==> k in tr.issues) && r.0.refuses == tr.refuses
    ensures ParseFilename(name).None? ==> r == (tr, [])
    ensures ParseFilename(name).Some? ==>
      forall k :: k in tr.issues && k != ParseFilename(name).value.key ==> r.0.issues[k] == tr.issues[k]
  {
    match ParseFilename(name)
    case None => (tr, [])
    case Some(ft) =>
      var moved := TransitionIssue(tr, ft.key, ft.status);
      var attached := AttachFile(moved.0, ft.key, name);
      (attached.0, moved.1 + attached.1)
  }

  /** The requests for a processed file are all about its issue, come in
      phase order (the transition before the attachment work), and end
      with the upload of the file. */
  lemma ProcessFileRequests(tr: Tracker, name: string)
    requires ParseFilename(name).Some?
    ensures
      var key := ParseFilename(name).value.key;
      var actions := ProcessFile(tr, name).1;
      && |actions| >= 1 && actions[|actions| - 1] == Upload(key, name)
      && (forall i :: 0 <= i < |actions| ==> actions[i].Key() == key)
      && Ordered(actions)
  {
    var ft := ParseFilename(name).value;
    var (t1, moves) := TransitionIssue(tr, ft.key, ft.status);
    var attach := AttachFile(t1, ft.key, name).1;
    assert ProcessFile(tr, name).1 == moves + attach;
    OrderedAppend(moves, attach);
  }

  /** After a file is processed for an issue that exists, the issue's
      attachments are the refused old ones followed by the file, and the
      file is its only attachment when the tracker refused nothing. */
  lemma ProcessFileAttachments(tr: Tracker, name: string)
    requires ParseFilename(name).Some? && ParseFilename(name).value.key in tr.issues
    ensures
      var key := ParseFilename(name).value.key;
      var atts := ProcessFile(tr, name).0.issues[key].attachments;
      && |atts| >= 1 && atts[|atts| - 1] == Attachment(tr.nextAttachment, name)
      && (forall a :: a in atts[..|atts| - 1] <==> a in tr.issues[key].attachments && Refused(tr, a))
      && ((forall a :: a in tr.issues[key].attachments ==> !Refused(tr, a)) ==> atts == [Attachment(tr.nextAttachment, name)])
  {
    var ft := ParseFilename(name).value;
    var key := ft.key;
    var t1 := TransitionIssue(tr, key, ft.status).0;
    var t2 := AttachFile(t1, key, name).0;
    assert ProcessFile(tr, name).0 == t2;
    assert t1.issues[key].attachments == tr.issues[key].attachments;
    var atts := t2.issues[key].attachments;
    var before := tr.issues[key].attachments;
    var kept := Seqs.Filter(before, RefusedBy(tr.refuses));
    assert atts == kept + [Attachment(tr.nextAttachment, name)];
    assert (kept + [Attachment(tr.nextAttachment, name)])[..|kept|] == kept;
    Seqs.FilterMembers(before, RefusedBy(tr.refuses));
    if forall a :: a in before ==> !Refused(tr, a) {
      Seqs.FilterNone(before, RefusedBy(tr.refuses));
    }
  }

  /** The file just processed is the last attachment of its issue. */
  lemma ProcessFileUploadsLast(tr: Tracker, name: string)
    requires ParseFilename(name).Some? && ParseFilename(name).value.key in tr.issues
    ensures
      var atts := ProcessFile(tr, name).0.issues[ParseFilename(name).value.key].attachments;
      |atts| >= 1 && atts[|atts| - 1].fileName == name
  {
    ProcessFileAttachments(tr, name);
  }

  /** `process_txt_files` over the names in directory order. */
  function ProcessFiles(tr: Tracker, names: seq<string>): (r: (Tracker, seq<Action>))
    ensures (forall k :: k in r.0.issues <==> k in tr.issues) && r.0.refuses == tr.refuses
    decreases |names|
  {
    if |names| == 0 then (tr, [])
    else
      var first := ProcessFile(tr, names[0]);
      var rest := ProcessFiles(first.0, names[1..]);
      (rest.0, first.1 + rest.1)
  }

  /** Whether a name is processed for the issue `key`. */
  predicate NamesIssue(name: string, key: string) {
    ParseFilename(name).Some? && ParseFilename(name).value.key == key
  }

  /** An issue no name refers to is left as it was. */
  lemma {:induction false} ProcessFilesUntouched(tr: Tracker, names: seq<string>, key: string)
    requires key in tr.issues
    requires forall i :: 0 <= i < |names| ==> !NamesIssue(names[i], key)
    ensures ProcessFiles(tr, names).0.issues[key] == tr.issues[key]
    decreases |names|
  {
    if |names| > 0 {
      assert !NamesIssue(names[0], key);
      var t1 := ProcessFile(tr, names[0]).0;
      assert forall i :: 0 <= i < |names| - 1 ==> names[1..][i] == names[i + 1];
      ProcessFilesUntouched(t1, names[1..], key);
    }
  }

  /** Whether the last attachment of the issue `key` is the file `name`. */
  predicate LastAttached(tr: Tracker, key: string, name: string) {
    && key in tr.issues
    && |tr.issues[key].attachments| >= 1
    && tr.issues[key].attachments[|tr.issues[key].attachments| - 1].fileName == name
  }

  /** Processing two runs of names one after the other is processing them together. */
  lemma {:induction false} ProcessFilesAppend(tr: Tracker, a: seq<string>, b: seq<string>)
    ensures
      var first := ProcessFiles(tr, a);
      var second := ProcessFiles(first.0, b);
      ProcessFiles(tr, a + b) == (second.0, first.1 + second.1)
    decreases |a|
  {
    if |a| == 0 {
      assert a + b == b;
      assert ProcessFiles(tr, a).1 + ProcessFiles(tr, b).1 == ProcessFiles(tr, b).1;
    } else {
      assert (a + b)[0] == a[0] && (a + b)[1..] == a[1..] + b;
      var t1 := ProcessFile(tr, a[0]);
      ProcessFilesAppend(t1.0, a[1..], b);
      var first := ProcessFiles(t1.0, a[1..]);
      var second := ProcessFiles(first.0, b);
      assert t1.1 + (first.1 + second.1) == (t1.1 + first.1) + second.1;
    }
  }

  /** The last file named after an existing issue is that issue's last
      attachment once every file is processed. */
  lemma ProcessFilesLastWins(tr: Tracker, names: seq<string>, key: string, i: nat)
    requires key in tr.issues
    requires i < |names| && NamesIssue(names[i], key)
    requires forall j :: i < j < |names| ==> !NamesIssue(names[j], key)
    ensures LastAttached(ProcessFiles(tr, names).0, key, names[i])
  {
    var before, after := names[..i], names[i..];
    assert names == before + after;
    ProcessFilesAppend(tr, before, after);
    var t := ProcessFiles(tr, before).0;
    assert ProcessFiles(tr, names).0 == ProcessFiles(t, after).0;
    assert after[0] == names[i];
    forall j | 0 < j < |after| ensures !NamesIssue(after[j], key) {
      assert after[j] == names[i + j];
    }
    LastWinsFirst(t, after, key);
  }

  /** The case of `ProcessFilesLastWins` where the last such file comes first. */
  lemma LastWinsFirst(tr: Tracker, names: seq<string>, key: string)
    requires key in tr.issues
    requires |names| > 0 && NamesIssue(names[0], key)
    requires forall j :: 0 < j < |names| ==> !NamesIssue(names[j], key)
    ensures LastAttached(ProcessFiles(tr, names).0, key, names[0])
  {
    var t1 := ProcessFile(tr, names[0]).0;
    var rest := names[1..];
    assert ProcessFiles(tr, names).0 == ProcessFiles(t1, rest).0;
    ProcessFileUploadsLast(tr, names[0]);
    forall j | 0 <= j < |rest| ensures !NamesIssue(rest[j], key) {
      assert rest[j] == names[j + 1];
    }
    ProcessFilesUntouched(t1, rest, key);
  }

  /** Names that do not parse cause no request and no change. */
  lemma {:induction false} ProcessFilesSkips(tr: Tracker, names: seq<string>)
    requires forall i :: 0 <= i < |names| ==> ParseFilename(names[i]).None?
    ensures ProcessFiles(tr, names) == (tr, [])
    decreases |names|
  {
    if |names| > 0 {
      assert ParseFilename(names[0]).None?;
      assert ProcessFile(tr, names[0]) == (tr, []);
      assert forall i :: 0 <= i < |names| - 1 ==> names[1..][i] == names[i + 1];
      ProcessFilesSkips(tr, names[1..]);
      var none: seq<Action> := [];
      assert none + none == none;
    }
  }
}
