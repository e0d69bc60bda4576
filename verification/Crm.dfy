/** The two CRM resources the export reads, as the JSON bodies it receives,
    and the error check the script applies to each body before using it.
    The HTTP transport itself is a parameter: a fetcher function from the
    page number or person id to the decoded body. */
module Crm {
  import opened Wrappers

  /** The CRM tag "wants to become a founding member" whose taggings are exported. */
  const TagId: string := "7698c2db-4593-429e-82e1-ef699c1c41d9"

  /** `_links["osdi:person"]` of a tagging; only `href` is read. */
  datatype PersonLink = PersonLink(href: string)

  /** `_links` of a tagging: the person link may be missing. */
  datatype Links = Links(person: Option<PersonLink>)

  /** One entry of `_embedded["osdi:taggings"]`: `_links` may be missing. */
  datatype Tagging = Tagging(links: Option<Links>)

  /** Body of `GET tags/{TagId}/taggings?page=N`: an optional `error` and the
      page's taggings. */
  datatype TaggingsPage = TaggingsPage(error: Option<string>, taggings: seq<Tagging>)

  /** Body of `GET people/{id}`: an optional `error` and the two name fields,
      each of which may be absent. */
  datatype Person = Person(error: Option<string>, givenName: Option<string>, familyName: Option<string>)

  /** One request the script sends to the CRM, in the order it sends them. */
  datatype Request = TaggingsRequest(tag: string, page: nat) | PersonRequest(id: string)

  /** `if data.get("error"):` — the body carries an error value that Python
      treats as true, i.e. a present, non-empty message. */
  predicate SignalsError(error: Option<string>) {
    error.Some? && error.value != ""
  }

  /** `get_taggings_page(page)`: fetch one page of taggings of `TagId`; an error
      in the body raises, otherwise the page's taggings are returned. */
  function GetTaggingsPage(fetchPage: nat -> TaggingsPage, page: nat): (r: Result<seq<Tagging>, string>)
    ensures r.Failure? <==> SignalsError(fetchPage(page).error)
    ensures r.Failure? ==> Some(r.error) == fetchPage(page).error
    ensures r.Success? ==> r.value == fetchPage(page).taggings
  {
    var data := fetchPage(page);
    if SignalsError(data.error) then Failure(data.error.value) else Success(data.taggings)
  }

  /** `get_person_data(person_id)`: fetch one person; an error in the body
      raises, otherwise the whole body is returned. */
  function GetPersonData(fetchPerson: string -> Person, personId: string): (r: Result<Person, string>)
    ensures r.Failure? <==> SignalsError(fetchPerson(personId).error)
    ensures r.Failure? ==> Some(r.error) == fetchPerson(personId).error
    ensures r.Success? ==> r.value == fetchPerson(personId) && !SignalsError(r.value.error)
  {
    var data := fetchPerson(personId);
    if SignalsError(data.error) then Failure(data.error.value) else Success(data)
  }
}
