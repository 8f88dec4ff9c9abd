/** The filter registry client of `backend/filters.py`: look a saved filter
    up by exact name, replace a filter's JQL, create a filter, and the
    idempotent create-or-update built from them. */
module Filters {
  import opened Wrappers
  import opened Tracker

  /** Description given to filters created through this client. */
  const DefaultDescription: string := "Created via API"

  /** `find_filter_by_name`: the id of the first listed filter whose name is
      exactly `name` (case-sensitive); nothing on a non-200 reply or when no
      name matches. */
  function FindFilterByName(reply: SearchReply, name: string): (r: Option<FilterId>)
    ensures reply.code != 200 ==> r.None?
    ensures reply.code == 200 && (forall i :: 0 <= i < |reply.values| ==> reply.values[i].name != name) ==> r.None?
    ensures r.Some? ==> exists i :: (0 <= i < |reply.values| && reply.values[i].name == name
      && reply.values[i].id == r.value
      && forall j :: 0 <= j < i ==> reply.values[j].name != name)
    ensures reply.code == 200 && (exists i :: 0 <= i < |reply.values| && reply.values[i].name == name) ==> r.Some?
  {
    if reply.code == 200 then FirstIdNamed(reply.values, name) else None
  }

  /** `find_filter_by_name` against the tracker's search endpoint: the id
      of the first stored filter of that name when the search answers, and
      nothing when it does not. */
  function Lookup(st: Store, h: Health, name: string): (r: Option<FilterId>)
    ensures h.searchUp ==> r == FirstIdNamed(st.filters, name)
    ensures !h.searchUp ==> r.None?
  {
    SearchFindsFirst(st, h, name);
    FindFilterByName(SearchByName(st, h, name), name)
  }

  /** `update_filter_jql`: sends only the new JQL for the given id. The
      filter keeps its id, name and description and every other filter is
      untouched; a refused update is only logged and changes nothing, so
      the caller always continues. */
  function UpdateFilterJql(st: Store, h: Health, id: FilterId, jql: string): (r: Store)
    requires Valid(st)
    ensures Valid(r) && r.nextId == st.nextId && |r.filters| == |st.filters|
    ensures forall i :: 0 <= i < |st.filters| ==>
      && r.filters[i].id == st.filters[i].id
      && r.filters[i].name == st.filters[i].name
      && r.filters[i].description == st.filters[i].description
      && r.filters[i].favourite == st.filters[i].favourite
    ensures h.updateUp ==> forall i :: 0 <= i < |st.filters| ==>
      r.filters[i].jql == (if st.filters[i].id == id then jql else st.filters[i].jql)
    ensures !h.updateUp ==> r == st
  {
    UpdateJql(st, h, id, jql).0
  }

  /** The error of reading the id of a creation reply that has none. */
  const MissingIdError: string := "KeyError: 'id'"

  /** `create_filter`: posts a non-favourite filter and returns the filter
      the tracker answers with; reading the id of any other answer fails. */
  function CreateFilter(st: Store, h: Health, name: string, jql: string, description: string): (r: Result<(Store, Filter)>)
    requires Valid(st)
    ensures r.Success? <==> FirstNamed(st.filters, name).None? && h.createUp
    ensures r.Success? ==>
      && r.value.1 == Filter(st.nextId, name, jql, description, false)
      && r.value.0 == Store(st.filters + [r.value.1], st.nextId + 1)
      && Valid(r.value.0)
    ensures r.Failure? ==> r.error == MissingIdError
  {
    var created := Create(st, h, name, jql, description, false);
    match created.1.id
    case Some(id) => Success((created.0, Filter(id, name, jql, description, false)))
    case None => Failure(MissingIdError)
  }

  /** `create_or_update_filter`: when the search finds the name, that
      filter's JQL is replaced in place under the same id, or left as it
      was when the update is refused, and nothing is created; otherwise the filter is created, and the call fails reading
      the id when the tracker refuses it, which happens for a taken name
      whose search failed and for a creation that does not work. */
  function CreateOrUpdateFilter(st: Store, h: Health, name: string, jql: string): (r: Result<Store>)
    requires Valid(st)
    ensures r.Success? ==> Valid(r.value)
    ensures r.Success? <==> if FirstNamed(st.filters, name).Some? then h.searchUp else h.createUp
    ensures r.Failure? ==> r.error == MissingIdError
    ensures FirstNamed(st.filters, name).Some? && h.searchUp && h.updateUp ==>
      var i := FirstNamed(st.filters, name).value;
      r.value == Store(st.filters[i := st.filters[i].(jql := jql)], st.nextId)
    ensures FirstNamed(st.filters, name).Some? && h.searchUp && !h.updateUp ==> r == Success(st)
    ensures FirstNamed(st.filters, name).None? && h.createUp ==>
      r.value == Store(st.filters + [Filter(st.nextId, name, jql, DefaultDescription, false)], st.nextId + 1)
  {
    match Lookup(st, h, name)
    case Some(id) =>
      var i := FirstNamed(st.filters, name).value;
      var st' := UpdateFilterJql(st, h, id, jql);
      assert h.updateUp ==> st'.filters == st.filters[i := st.filters[i].(jql := jql)];
      Success(st')
    case None =>
      match CreateFilter(st, h, name, jql, DefaultDescription) {
        case Success(created) => Success(created.0)
        case Failure(e) => Failure(e)
      }
  }

  /** Calling `create_or_update_filter` twice with one name, the first call
      succeeding. The second call succeeds exactly when the search answers:
      otherwise it cannot see the filter the first call left and its
      creation is refused. When it succeeds it finds that filter; with
      updates that work it replaces its JQL under the same id, so the store
      ends with the single filter of that name holding the second JQL, or,
      when the name was already taken, with the first filter of that name
      updated in place and every other filter as it was; with updates
      refused the second call changes nothing. */
  lemma CreateOrUpdateConverges(st: Store, h: Health, name: string, jqlA: string, jqlB: string)
    requires Valid(st)
    ensures
      var r1 := CreateOrUpdateFilter(st, h, name, jqlA);
      r1.Success? ==>
        var r2 := CreateOrUpdateFilter(r1.value, h, name, jqlB);
        && (r2.Success? <==> h.searchUp)
        && (r2.Success? ==> FirstIdNamed(r2.value.filters, name) == FirstIdNamed(r1.value.filters, name))
        && (r2.Success? && !h.updateUp ==> r2.value == r1.value)
        && (r2.Success? && h.updateUp ==>
              && (FirstNamed(st.filters, name).None? ==>
                    && r2.value.filters == st.filters + [Filter(st.nextId, name, jqlB, DefaultDescription, false)]
                    && forall j :: 0 <= j < |r2.value.filters| && r2.value.filters[j].name == name ==> j == |st.filters|)
              && (FirstNamed(st.filters, name).Some? ==>
                    var i := FirstNamed(st.filters, name).value;
                    r2.value.filters == st.filters[i := st.filters[i].(jql := jqlB)]))
  {
    var r1 := CreateOrUpdateFilter(st, h, name, jqlA);
    if r1.Success? {
      if FirstNamed(st.filters, name).None? {
        AppendedIsFirst(st.filters, Filter(st.nextId, name, jqlA, DefaultDescription, false), name);
        if h.searchUp && h.updateUp {
          ConvergesFromAbsent(st, h, name, jqlA, jqlB);
        }
      } else if h.searchUp && h.updateUp {
        ConvergesFromPresent(st, h, name, jqlA, jqlB);
      }
    }
  }

  /** From a free name, with a tracker that searches and creates, the first
      call appends the filter and the second updates that same filter. */
  lemma ConvergesFromAbsent(st: Store, h: Health, name: string, jqlA: string, jqlB: string)
    requires Valid(st) && FirstNamed(st.filters, name).None? && h.searchUp && h.createUp && h.updateUp
    ensures
      var st1 := CreateOrUpdateFilter(st, h, name, jqlA).value;
      var st2 := CreateOrUpdateFilter(st1, h, name, jqlB).value;
      && st1.filters == st.filters + [Filter(st.nextId, name, jqlA, DefaultDescription, false)]
      && st2.filters == st.filters + [Filter(st.nextId, name, jqlB, DefaultDescription, false)]
      && FirstNamed(st1.filters, name) == Some(|st.filters|)
      && FirstNamed(st2.filters, name) == Some(|st.filters|)
  {
    var f := Filter(st.nextId, name, jqlA, DefaultDescription, false);
    var st1 := CreateOrUpdateFilter(st, h, name, jqlA).value;
    AppendedIsFirst(st.filters, f, name);
    var st2 := CreateOrUpdateFilter(st1, h, name, jqlB).value;
    UpdatedAt(st1, h, name, jqlB, |st.filters|);
    ReplaceLast(st.filters, f, jqlB);
    AppendedIsFirst(st.filters, f.(jql := jqlB), name);
  }

  lemma AppendedIsFirst(fs: seq<Filter>, f: Filter, name: string)
    requires FirstNamed(fs, name).None? && f.name == name
    ensures FirstNamed(fs + [f], name) == Some(|fs|)
  {
    FirstNamedAppend(fs, [f], name);
    assert FirstNamed([f], name) == Some(0);
  }

  lemma UpdatedAt(st: Store, h: Health, name: string, jql: string, k: nat)
    requires Valid(st) && FirstNamed(st.filters, name) == Some(k) && h.searchUp && h.updateUp
    ensures CreateOrUpdateFilter(st, h, name, jql).value.filters == st.filters[k := st.filters[k].(jql := jql)]
  {
  }

  lemma ReplaceLast(fs: seq<Filter>, f: Filter, jql: string)
    ensures (fs + [f])[|fs| := f.(jql := jql)] == fs + [f.(jql := jql)]
  {
  }

  lemma ConvergesFromPresent(st: Store, h: Health, name: string, jqlA: string, jqlB: string)
    requires Valid(st) && FirstNamed(st.filters, name).Some? && h.searchUp && h.updateUp
    ensures
      var i := FirstNamed(st.filters, name).value;
      var st1 := CreateOrUpdateFilter(st, h, name, jqlA).value;
      var st2 := CreateOrUpdateFilter(st1, h, name, jqlB).value;
      && st1.filters == st.filters[i := st.filters[i].(jql := jqlA)]
      && FirstNamed(st1.filters, name) == Some(i)
      && st2.filters == st.filters[i := st.filters[i].(jql := jqlB)]
      && FirstNamed(st2.filters, name) == Some(i)
  {
    var i := FirstNamed(st.filters, name).value;
    var st1 := CreateOrUpdateFilter(st, h, name, jqlA).value;
    UpdateKeepsFirst(st, h, name, jqlA);
    UpdateKeepsFirst(st1, h, name, jqlB);
    ReplaceTwice(st.filters, i, jqlA, jqlB);
  }

  lemma UpdateKeepsFirst(st: Store, h: Health, name: string, jql: string)
    requires Valid(st) && FirstNamed(st.filters, name).Some? && h.searchUp && h.updateUp
    ensures
      var i := FirstNamed(st.filters, name).value;
      var st1 := CreateOrUpdateFilter(st, h, name, jql).value;
      && Valid(st1)
      && st1.filters == st.filters[i := st.filters[i].(jql := jql)]
      && FirstNamed(st1.filters, name) == Some(i)
  {
    var i := FirstNamed(st.filters, name).value;
    var st1 := CreateOrUpdateFilter(st, h, name, jql).value;
    UpdatedAt(st, h, name, jql, i);
    SameNamesSameFirst(st.filters, st1.filters, name);
  }

  lemma ReplaceTwice(fs: seq<Filter>, i: nat, jqlA: string, jqlB: string)
    requires i < |fs|
    ensures fs[i := fs[i].(jql := jqlA)][i := fs[i].(jql := jqlA).(jql := jqlB)] == fs[i := fs[i].(jql := jqlB)]
  {
  }

  /** Two listings with the same names position by position find a name at
      the same place. */
  lemma SameNamesSameFirst(a: seq<Filter>, b: seq<Filter>, name: string)
    requires |a| == |b| && forall j :: 0 <= j < |a| ==> a[j].name == b[j].name
    ensures FirstNamed(a, name) == FirstNamed(b, name)
  {
    if FirstNamed(a, name).Some? {
      assert b[FirstNamed(a, name).value].name == name;
    }
    if FirstNamed(b, name).Some? {
      assert a[FirstNamed(b, name).value].name == name;
    }
  }
}
