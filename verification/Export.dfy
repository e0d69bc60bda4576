/** The export pipeline of `main.py`: collect the person ids tagged with
    `TagId` (`get_people_ids`), resolve each id to a cleaned first/last name
    row (`get_people_names`), in that order (`main`). Each step also returns
    the CRM requests it issued, so that what is fetched — and what is never
    fetched — is part of the contract. */
module Export {
  import opened Wrappers
  import opened Text
  import opened Paths
  import opened Crm

  // ---------------------------------------------------------------------
  // Person ids of a taggings page
  // ---------------------------------------------------------------------

  /** The tagging has `_links` and `_links["osdi:person"]`; every other entry
      is skipped by `get_people_ids`. */
  predicate HasPersonLink(t: Tagging) {
    t.links.Some? && t.links.value.person.Some?
  }

  /** The person id of a linked tagging: the last `/`-segment of its href. */
  function PersonIdOf(t: Tagging): string
    requires HasPersonLink(t)
  {
    LastSegment(t.links.value.person.value.href)
  }

  /** Positions of the linked taggings of `ts`, in increasing order. */
  function LinkedPositions(ts: seq<Tagging>): (ps: seq<int>)
    ensures forall k :: 0 <= k < |ps| ==> 0 <= ps[k] < |ts| && HasPersonLink(ts[ps[k]])
    ensures forall k, l :: 0 <= k < l < |ps| ==> ps[k] < ps[l]
    ensures forall i :: 0 <= i < |ts| && HasPersonLink(ts[i]) ==> i in ps
    decreases |ts|
  {
    if |ts| == 0 then []
    else
      var init := ts[..|ts| - 1];
      var ps := LinkedPositions(init);
      assert forall i :: 0 <= i < |init| ==> ts[i] == init[i];
      var extra := if HasPersonLink(ts[|ts| - 1]) then [|ts| - 1] else [];
      assert forall k :: 0 <= k < |ps| ==> (ps + extra)[k] == ps[k];
      ps + extra
  }

  /** The ids one taggings page contributes, as the `for item in taggings`
      loop of `get_people_ids` appends them. */
  function ExtractIds(ts: seq<Tagging>): (ids: seq<string>)
    ensures |ids| <= |ts|
    decreases |ts|
  {
    if |ts| == 0 then []
    else
      var t := ts[|ts| - 1];
      var ids := ExtractIds(ts[..|ts| - 1]);
      if HasPersonLink(t) then ids + [PersonIdOf(t)] else ids
  }

  /** The k-th extracted id is the person id of the k-th linked tagging:
      unlinked taggings contribute nothing, every linked one exactly one id,
      in page order, with no deduplication. */
  lemma {:induction false} ExtractIdsByPosition(ts: seq<Tagging>)
    ensures |ExtractIds(ts)| == |LinkedPositions(ts)|
    ensures forall k :: 0 <= k < |ExtractIds(ts)| ==> ExtractIds(ts)[k] == PersonIdOf(ts[LinkedPositions(ts)[k]])
    decreases |ts|
  {
    if |ts| > 0 {
      var init := ts[..|ts| - 1];
      var t := ts[|ts| - 1];
      ExtractIdsByPosition(init);
      var ps := LinkedPositions(init);
      var ids := ExtractIds(init);
      var extra := if HasPersonLink(t) then [PersonIdOf(t)] else [];
      var extraPs := if HasPersonLink(t) then [|ts| - 1] else [];
      assert ExtractIds(ts) == ids + extra;
      assert LinkedPositions(ts) == ps + extraPs;
      forall k | 0 <= k < |ExtractIds(ts)|
        ensures ExtractIds(ts)[k] == PersonIdOf(ts[LinkedPositions(ts)[k]])
      {
        if k < |ids| {
          assert ExtractIds(ts)[k] == ids[k];
          assert LinkedPositions(ts)[k] == ps[k];
          assert ts[ps[k]] == init[ps[k]];
        }
      }
    }
  }

  /** Ids are collected entry by entry: the ids of a concatenation are the
      ids of the parts, concatenated. */
  lemma {:induction false} ExtractIdsAppend(a: seq<Tagging>, b: seq<Tagging>)
    ensures ExtractIds(a + b) == ExtractIds(a) + ExtractIds(b)
    decreases |b|
  {
    if |b| == 0 {
      assert a + b == a;
    } else {
      var b' := b[..|b| - 1];
      var t := b[|b| - 1];
      var extra := if HasPersonLink(t) then [PersonIdOf(t)] else [];
      ExtractIdsAppend(a, b');
      assert (a + b)[..|a + b| - 1] == a + b';
      assert (a + b)[|a + b| - 1] == t;
      assert ExtractIds(b) == ExtractIds(b') + extra;
      assert ExtractIds(a + b) == ExtractIds(a + b') + extra;
    }
  }

  /** Every id extracted from a page is a `/`-free suffix of some link on it. */
  lemma ExtractedIdsAreSegments(ts: seq<Tagging>, k: int)
    requires 0 <= k < |ExtractIds(ts)|
    ensures var id := ExtractIds(ts)[k];
            '/' !in id && exists i :: 0 <= i < |ts| && HasPersonLink(ts[i]) && id == PersonIdOf(ts[i])
  {
    ExtractIdsByPosition(ts);
    var i := LinkedPositions(ts)[k];
    LastSegmentIsSuffix(ts[i].links.value.person.value.href);
    assert HasPersonLink(ts[i]) && ExtractIds(ts)[k] == PersonIdOf(ts[i]);
  }

  // ---------------------------------------------------------------------
  // get_people_ids
  // ---------------------------------------------------------------------

  /** `get_people_ids()`: the pagination loop as written. It requests page 1;
      an error aborts; an empty page ends the loop; otherwise the ids of the
      page are collected and the loop ends unconditionally. So only page 1 is
      ever requested and the result depends on page 1 alone. */
  method GetPeopleIds(fetchPage: nat -> TaggingsPage) returns (ids: Result<seq<string>, string>, requested: seq<Request>)
    ensures requested == [TaggingsRequest(TagId, 1)]
    ensures ids.Failure? <==> SignalsError(fetchPage(1).error)
    ensures ids.Failure? ==> Some(ids.error) == fetchPage(1).error
    ensures ids.Success? ==> ids.value == ExtractIds(fetchPage(1).taggings)
  {
    var people: seq<string> := [];
    var page: nat := 0;
    requested := [];
    var done := false;  // `break` of the `while True:` loop
    while !done
      invariant !done ==> page == 0 && people == [] && requested == []
      invariant done ==> page == 1 && requested == [TaggingsRequest(TagId, 1)]
      invariant done ==> !SignalsError(fetchPage(1).error) && people == ExtractIds(fetchPage(1).taggings)
      decreases !done
    {
      page := page + 1;
      requested := requested + [TaggingsRequest(TagId, page)];
      var fetched := GetTaggingsPage(fetchPage, page);
      if fetched.Failure? {
        ids := Failure(fetched.error);
        return;
      }
      var taggings := fetched.value;
      if |taggings| == 0 {
        done := true;
      } else {
        var i := 0;
        while i < |taggings|
          invariant 0 <= i <= |taggings|
          invariant people == ExtractIds(taggings[..i])
        {
          var item := taggings[i];
          assert taggings[..i + 1] == taggings[..i] + [item];
          assert taggings[..i + 1][..i] == taggings[..i];
          if item.links.None? || item.links.value.person.None? {
            i := i + 1;
            continue;
          }
          var personId := LastSegment(item.links.value.person.value.href);
          people := people + [personId];
          i := i + 1;
        }
        assert taggings[..|taggings|] == taggings;
        done := true;
      }
    }
    ids := Success(people);
  }

  // ---------------------------------------------------------------------
  // get_people_names
  // ---------------------------------------------------------------------

  /** One output row: `[firstname, lastname]`. */
  datatype NameRow = NameRow(first: string, last: string)

  /** The row built from a fetched person: each name field, `""` when absent,
      passed through `clean_name`. */
  function NameRowOf(p: Person): NameRow
  {
    NameRow(CleanName(p.givenName.GetOr("")), CleanName(p.familyName.GetOr("")))
  }

  /** One cell of a row, `clean_name(data.get(field, ""))`: trimmed, no longer
      than the field, and empty when the field is absent. */
  lemma NameCell(field: Option<string>)
    ensures var cell := CleanName(field.GetOr(""));
            && IsTrimmed(cell)
            && |cell| <= |field.GetOr("")|
            && (field.None? ==> cell == "")
            && (field.Some? ==> cell == CleanName(field.value))
  {
  }

  /** Both cells of a row are trimmed, and a cell is empty when its field
      is absent. */
  lemma NameRowOfCells(p: Person)
    ensures IsTrimmed(NameRowOf(p).first) && IsTrimmed(NameRowOf(p).last)
    ensures p.givenName.None? ==> NameRowOf(p).first == ""
    ensures p.familyName.None? ==> NameRowOf(p).last == ""
  {
    NameCell(p.givenName);
    NameCell(p.familyName);
  }

  /** `[f(x) for x in xs]`, built from the right as the loops append. */
  function Map<A, B>(f: A -> B, xs: seq<A>): seq<B>
    decreases |xs|
  {
    if |xs| == 0 then [] else Map(f, xs[..|xs| - 1]) + [f(xs[|xs| - 1])]
  }

  lemma {:induction false} MapAt<A, B>(f: A -> B, xs: seq<A>)
    ensures |Map(f, xs)| == |xs|
    ensures forall k :: 0 <= k < |xs| ==> Map(f, xs)[k] == f(xs[k])
    decreases |xs|
  {
    if |xs| > 0 {
      var init := xs[..|xs| - 1];
      MapAt(f, init);
      assert forall k :: 0 <= k < |init| ==> init[k] == xs[k];
    }
  }

  /** The requests for the persons `ids`, in order. */
  function PersonRequests(ids: seq<string>): seq<Request> {
    Map((id: string) => PersonRequest(id), ids)
  }

  /** The rows of the persons `ids`, in order. */
  function NameRows(fetchPerson: string -> Person, ids: seq<string>): seq<NameRow> {
    Map((id: string) => NameRowOf(fetchPerson(id)), ids)
  }

  /** What resolving `ids` one by one produces: persons are requested in id
      order; the first person whose body signals an error aborts the run with
      that message and nothing after it is requested; otherwise there is one
      row per id, in id order. */
  ghost predicate NamesOutcome(fetchPerson: string -> Person, ids: seq<string>,
                               names: Result<seq<NameRow>, string>, requested: seq<Request>)
  {
    && |requested| <= |ids|
    && (forall k :: 0 <= k < |requested| ==> requested[k] == PersonRequest(ids[k]))
    && (names.Success? <==> forall k :: 0 <= k < |ids| ==> !SignalsError(fetchPerson(ids[k]).error))
    && (names.Success? ==>
          && |requested| == |ids|
          && |names.value| == |ids|
          && forall k :: 0 <= k < |ids| ==> names.value[k] == NameRowOf(fetchPerson(ids[k])))
    && (names.Failure? ==>
          && |requested| > 0
          && SignalsError(fetchPerson(ids[|requested| - 1]).error)
          && Some(names.error) == fetchPerson(ids[|requested| - 1]).error
          && forall k :: 0 <= k < |requested| - 1 ==> !SignalsError(fetchPerson(ids[k]).error))
  }

  /** No person among the first `n` ids signals an error. */
  ghost predicate NoErrorBefore(fetchPerson: string -> Person, ids: seq<string>, n: int)
    requires 0 <= n <= |ids|
  {
    forall k :: 0 <= k < n ==> !SignalsError(fetchPerson(ids[k]).error)
  }

  /** Resolving every id without error yields one row per id. */
  lemma NamesOutcomeOnSuccess(fetchPerson: string -> Person, ids: seq<string>)
    requires NoErrorBefore(fetchPerson, ids, |ids|)
    ensures NamesOutcome(fetchPerson, ids, Success(NameRows(fetchPerson, ids)), PersonRequests(ids))
  {
    MapAt((id: string) => PersonRequest(id), ids);
    MapAt((id: string) => NameRowOf(fetchPerson(id)), ids);
  }

  /** The first id whose person signals an error ends the run with its message. */
  lemma NamesOutcomeOnFailure(fetchPerson: string -> Person, ids: seq<string>, i: int)
    requires 0 <= i < |ids| && NoErrorBefore(fetchPerson, ids, i)
    requires SignalsError(fetchPerson(ids[i]).error)
    ensures NamesOutcome(fetchPerson, ids, Failure(fetchPerson(ids[i]).error.value), PersonRequests(ids[..i + 1]))
  {
    MapAt((id: string) => PersonRequest(id), ids[..i + 1]);
  }

  /** `get_people_names(ids)`: fetch each person in turn and build its row. */
  method GetPeopleNames(fetchPerson: string -> Person, ids: seq<string>)
    returns (names: Result<seq<NameRow>, string>, requested: seq<Request>)
    ensures NamesOutcome(fetchPerson, ids, names, requested)
  {
    var rows: seq<NameRow> := [];
    requested := [];
    var i := 0;
    while i < |ids|
      invariant 0 <= i <= |ids|
      invariant requested == PersonRequests(ids[..i])
      invariant rows == NameRows(fetchPerson, ids[..i])
      invariant NoErrorBefore(fetchPerson, ids, i)
    {
      var personId := ids[i];
      requested := requested + [PersonRequest(personId)];
      assert ids[..i + 1][..i] == ids[..i];
      assert requested == PersonRequests(ids[..i + 1]);
      var data := GetPersonData(fetchPerson, personId);
      if data.Failure? {
        names := Failure(data.error);
        NamesOutcomeOnFailure(fetchPerson, ids, i);
        return;
      }
      rows := rows + [NameRowOf(data.value)];
      assert rows == NameRows(fetchPerson, ids[..i + 1]);
      i := i + 1;
    }
    assert ids[..i] == ids;
    names := Success(rows);
    NamesOutcomeOnSuccess(fetchPerson, ids);
  }

  // ---------------------------------------------------------------------
  // main
  // ---------------------------------------------------------------------

  /** `main()` up to the CSV write: collect the ids, then resolve them. A
      taggings error aborts before any person is requested; otherwise the
      persons requested are exactly those of page 1's linked taggings, up to
      the first failing one. The rows returned are what `save_names_to_csv`
      writes. */
  method Run(fetchPage: nat -> TaggingsPage, fetchPerson: string -> Person)
    returns (names: Result<seq<NameRow>, string>, requested: seq<Request>)
    ensures |requested| >= 1 && requested[0] == TaggingsRequest(TagId, 1)
    ensures SignalsError(fetchPage(1).error) ==>
              && requested == [TaggingsRequest(TagId, 1)]
              && names.Failure?
              && Some(names.error) == fetchPage(1).error
    ensures !SignalsError(fetchPage(1).error) ==>
              NamesOutcome(fetchPerson, ExtractIds(fetchPage(1).taggings), names, requested[1..])
  {
    var ids, pageRequests := GetPeopleIds(fetchPage);
    if ids.Failure? {
      names := Failure(ids.error);
      requested := pageRequests;
      return;
    }
    var personRequests;
    names, personRequests := GetPeopleNames(fetchPerson, ids.value);
    requested := pageRequests + personRequests;
    assert requested[1..] == personRequests;
  }
}
