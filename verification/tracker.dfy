/** An abstract issue tracker as far as saved filters are concerned: the
    filters it stores, the id it hands out next, and how its filter search,
    filter creation and filter update endpoints answer. Request building,
    authentication and transport are not modelled. */
module Tracker {
  import opened Wrappers
  import Text
  import Seqs

  type FilterId = nat

  /** A saved filter ("saved query"): identity is `id`, `name` is a
      case-sensitive secondary key. */
  datatype Filter = Filter(id: FilterId, name: string, jql: string, description: string, favourite: bool)

  /** The tracker's filters in listing order and the id of the next filter it creates. */
  datatype Store = Store(filters: seq<Filter>, nextId: FilterId)

  /** Ids are distinct and all below the next id to hand out. */
  ghost predicate Valid(st: Store) {
    && (forall i :: 0 <= i < |st.filters| ==> st.filters[i].id < st.nextId)
    && (forall i, j :: 0 <= i < j < |st.filters| ==> st.filters[i].id != st.filters[j].id)
  }

  /** Position of the first filter whose name is exactly `name`. */
  function FirstNamed(fs: seq<Filter>, name: string): (r: Option<nat>)
    ensures r.None? <==> forall i :: 0 <= i < |fs| ==> fs[i].name != name
    ensures r.Some? ==> r.value < |fs| && fs[r.value].name == name
    ensures r.Some? ==> forall j :: 0 <= j < r.value ==> fs[j].name != name
  {
    if |fs| == 0 then None
    else if fs[0].name == name then Some(0)
    else
      match FirstNamed(fs[1..], name)
      case None => None
      case Some(i) => Some(i + 1)
  }

  /** Id of the first filter named exactly `name`, if there is one. */
  function FirstIdNamed(fs: seq<Filter>, name: string): Option<FilterId> {
    match FirstNamed(fs, name)
    case Some(i) => Some(fs[i].id)
    case None => None
  }

  /** Position of the first filter with the given id. */
  function IndexOfId(fs: seq<Filter>, id: FilterId): (r: Option<nat>)
    ensures r.None? <==> forall i :: 0 <= i < |fs| ==> fs[i].id != id
    ensures r.Some? ==> r.value < |fs| && fs[r.value].id == id
    ensures r.Some? ==> forall j :: 0 <= j < r.value ==> fs[j].id != id
  {
    Seqs.FirstIndex(fs, (f: Filter) => f.id == id)
  }

  /** Appending filters does not change which one a name finds first,
      unless the name was absent before. */
  lemma {:induction false} FirstNamedAppend(fs: seq<Filter>, more: seq<Filter>, name: string)
    ensures FirstNamed(fs, name).Some? ==> FirstNamed(fs + more, name) == FirstNamed(fs, name)
    ensures FirstNamed(fs, name).None? && FirstNamed(more, name).Some? ==>
      FirstNamed(fs + more, name) == Some(|fs| + FirstNamed(more, name).value)
    ensures FirstNamed(fs, name).None? && FirstNamed(more, name).None? ==> FirstNamed(fs + more, name).None?
    decreases |fs|
  {
    if |fs| == 0 {
      assert fs + more == more;
    } else {
      var all := fs + more;
      assert all[0] == fs[0];
      if fs[0].name != name {
        var t := fs[1..];
        assert all[1..] == t + more;
        FirstNamedAppend(t, more, name);
        assert FirstNamed(all, name) == if FirstNamed(t + more, name).Some? then Some(FirstNamed(t + more, name).value + 1) else None;
        assert FirstNamed(fs, name) == if FirstNamed(t, name).Some? then Some(FirstNamed(t, name).value + 1) else None;
      }
    }
  }

  /** The tracker's filter search: a case-insensitive substring match on names. */
  predicate NameMatches(f: Filter, query: string) {
    Text.Contains(Text.Lower(f.name), Text.Lower(query))
  }

  lemma {:induction false} ContainsSelf(s: string)
    ensures Text.Contains(s, s)
  {
    assert s[..|s|] == s;
  }

  /** Whether the tracker's filter endpoints do their job: the search
      answers 200, a creation under a free name is stored, and an update of
      an existing filter is applied. A tracker that is down, refuses the
      credentials or fails internally answers otherwise, and the client
      sees only the status code. */
  datatype Health = Health(searchUp: bool, createUp: bool, updateUp: bool)

  /** A tracker whose filter endpoints all do their job. */
  const Healthy: Health := Health(true, true, true)

  /** The status code of a failed request. */
  const ServerError: int := 500

  /** The answer of `GET /filter/search?filterName=...`. */
  datatype SearchReply = SearchReply(code: int, values: seq<Filter>)

  /** The search lists the stored filters whose names contain the query,
      ignoring case, in store order; a search that does not answer lists
      nothing. */
  function SearchByName(st: Store, h: Health, query: string): (r: SearchReply)
    ensures r.code == 200 <==> h.searchUp
    ensures !h.searchUp ==> r.values == []
    ensures forall i :: 0 <= i < |r.values| ==> r.values[i] in st.filters && NameMatches(r.values[i], query)
    ensures h.searchUp ==> forall i :: 0 <= i < |st.filters| && NameMatches(st.filters[i], query) ==> st.filters[i] in r.values
  {
    if h.searchUp then
      Seqs.FilterMembers(st.filters, f => NameMatches(f, query));
      SearchReply(200, Seqs.Filter(st.filters, f => NameMatches(f, query)))
    else SearchReply(ServerError, [])
  }

  /** A filter in front is found first when it has the name, and is
      skipped otherwise. */
  lemma FirstIdNamedCons(x: Filter, fs: seq<Filter>, name: string)
    ensures FirstIdNamed([x] + fs, name) == if x.name == name then Some(x.id) else FirstIdNamed(fs, name)
  {
    var s := [x] + fs;
    assert s[0] == x && s[1..] == fs;
    if x.name != name {
      match FirstNamed(fs, name)
      case Some(i) => assert s[i + 1] == fs[i];
      case None =>
    }
  }

  /** Narrowing a listing to entries that keep every exact match does not
      change the first exact match. */
  lemma {:induction false} FirstIdNamedFilter(fs: seq<Filter>, keep: Filter -> bool, name: string)
    requires forall i :: 0 <= i < |fs| && fs[i].name == name ==> keep(fs[i])
    ensures FirstIdNamed(Seqs.Filter(fs, keep), name) == FirstIdNamed(fs, name)
    decreases |fs|
  {
    if |fs| > 0 {
      var x, rest := fs[0], fs[1..];
      assert fs == [x] + rest;
      assert forall i :: 0 <= i < |rest| ==> rest[i] == fs[i + 1];
      FirstIdNamedFilter(rest, keep, name);
      FirstIdNamedCons(x, rest, name);
      if keep(x) {
        FirstIdNamedCons(x, Seqs.Filter(rest, keep), name);
      }
    }
  }

  /** A search that answers always lists the filter a name finds first
      ahead of any other filter of exactly that name. */
  lemma SearchFindsFirst(st: Store, h: Health, name: string)
    ensures h.searchUp ==> FirstIdNamed(SearchByName(st, h, name).values, name) == FirstIdNamed(st.filters, name)
  {
    if h.searchUp {
      forall i | 0 <= i < |st.filters| && st.filters[i].name == name
        ensures NameMatches(st.filters[i], name)
      {
        ContainsSelf(Text.Lower(name));
      }
      FirstIdNamedFilter(st.filters, f => NameMatches(f, name), name);
    }
  }

  /** The message the tracker answers a duplicate filter name with. */
  const DuplicateNameMessage: string := "A filter with this name already exists"

  /** The answer of `POST /filter`: status code, body text, and the new id. */
  datatype CreateReply = CreateReply(code: int, text: string, id: Option<FilterId>)

  /** `POST /filter`: refuses a name that is already taken with 400 and the
      duplicate-name message; a free name is stored under a fresh id with
      201 when creation works, and answers a server error otherwise. Only
      201 carries an id. */
  function Create(st: Store, h: Health, name: string, jql: string, description: string, favourite: bool)
    : (r: (Store, CreateReply))
    requires Valid(st)
    ensures Valid(r.0)
    ensures r.1.id.Some? <==> r.1.code == 201
    ensures FirstNamed(st.filters, name).Some? ==>
      r.0 == st && r.1.code == 400 && Text.Contains(r.1.text, DuplicateNameMessage)
    ensures FirstNamed(st.filters, name).None? && h.createUp ==>
      && r.0 == Store(st.filters + [Filter(st.nextId, name, jql, description, favourite)], st.nextId + 1)
      && r.1.code == 201 && r.1.id == Some(st.nextId)
    ensures FirstNamed(st.filters, name).None? && !h.createUp ==> r.0 == st && r.1.code == ServerError
  {
    if FirstNamed(st.filters, name).Some? then
      DuplicateMessageFound();
      (st, CreateReply(400, DuplicateNameMessage + ".", None))
    else if !h.createUp then
      (st, CreateReply(ServerError, "", None))
    else
      (Store(st.filters + [Filter(st.nextId, name, jql, description, favourite)], st.nextId + 1),
       CreateReply(201, "", Some(st.nextId)))
  }

  lemma DuplicateMessageFound()
    ensures Text.Contains(DuplicateNameMessage + ".", DuplicateNameMessage)
  {
    assert (DuplicateNameMessage + ".")[..|DuplicateNameMessage|] == DuplicateNameMessage;
  }

  /** `PUT /filter/{id}` with a new JQL: 200 and the JQL replaced when the id
      exists and updates work, 404 for an unknown id, and a server error
      otherwise; only 200 changes anything. */
  function UpdateJql(st: Store, h: Health, id: FilterId, jql: string): (r: (Store, int))
    requires Valid(st)
    ensures Valid(r.0) && r.0.nextId == st.nextId && |r.0.filters| == |st.filters|
    ensures r.1 == 200 <==> IndexOfId(st.filters, id).Some? && h.updateUp
    ensures r.1 != 200 ==> r.0 == st
    ensures r.1 == 200 ==> forall i :: 0 <= i < |st.filters| ==>
      r.0.filters[i] == (if st.filters[i].id == id then st.filters[i].(jql := jql) else st.filters[i])
  {
    match IndexOfId(st.filters, id)
    case Some(i) =>
      if h.updateUp then (st.(filters := st.filters[i := st.filters[i].(jql := jql)]), 200)
      else (st, ServerError)
    case None => (st, 404)
  }
}
