# Founders export: a Dafny model

`main.py` is a batch script. It exports the founding-member candidates of a
CRM, meaning the people who carry one fixed tag, to a CSV file. The script:

1. fetches the taggings of the tag `7698c2db-…` (`get_taggings_page`);
2. takes a person id from every tagging that links to a person, namely the
   last `/`-segment of the link's `href` (`get_people_ids`);
3. fetches each person in turn (`get_person_data`) and cleans the given and
   family names with `clean_name`, which is `name.replace("  ", " ").strip()`
   (`get_people_names`);
4. writes the resulting `[firstname, lastname]` rows (`main`).

A CRM body whose `error` field is truthy aborts the run, at either fetch.

The model has five modules:

- `Wrappers`: the `Option` and `Result` datatypes.
- `Text`: Python's `str.strip()` and one pass of `str.replace("  ", " ")`,
  and `clean_name` built from them.
- `Paths`: Python's `str.split` on a single character, `str.join`, and the
  last segment of a link.
- `Crm`: the two response bodies, the `error` check, and the request log.
- `Export`: id extraction, the pagination loop as written, the per-person
  loop, and `main` up to the CSV write.

The HTTP transport is a parameter. `fetchPage: nat -> TaggingsPage` and
`fetchPerson: string -> Person` stand for "GET this URL and decode the
JSON". Every method also returns the list of requests it issued. This puts
the requests that are never sent, such as page 2 or any person after a
failing one, into the contracts.

Pagination is modelled as the code runs. The loop in `get_people_ids` is
shaped for paging until an empty page: `while True:` with `page += 1` and a
`break` on an empty page (main.py:40-45). The unconditional `break` at
main.py:51 ends it after the first non-empty page. So the script only ever
requests page 1, and `Export.GetPeopleIds` states exactly that.

## Model

| member | source | states |
|---|---|---|
| Text.Strip | main.py:70 | `strip()` returns a string that neither starts nor ends with whitespace and is no longer than its input |
| Text.StripCut | main.py:70 | the result of `strip()` is the middle of a cut of the input into a whitespace head, a trimmed middle and a whitespace tail |
| Text.StripUnique | main.py:70 | any such head/middle/tail cut gives the result of `strip()`, which pins `strip()` down completely |
| Text.StripNoOp | main.py:70 | `strip()` leaves a string unchanged if and only if it is already trimmed |
| Text.CollapseDoubleSpaces | main.py:70 | `replace("  ", " ")` never lengthens a string |
| Text.CollapseChangesIffDoubleSpace | main.py:70 | the replace pass changes its input if and only if the input contains two adjacent spaces, and then it shortens it |
| Text.CollapseKeepsNonSpaces | main.py:70 | the replace pass removes only spaces: the other characters survive in order |
| Text.CollapseLeavesDoubleIffTriple | main.py:70 | after one replace pass, two adjacent spaces remain if and only if the input had three in a row |
| Text.CleanName | main.py:69-70 | a cleaned name is trimmed and no longer than the original |
| Text.CleanNameFixedPoint | main.py:69-70 | `clean_name(s) == s` if and only if `s` is trimmed and has no two adjacent spaces |
| Text.CleanNameTwiceIff | main.py:69-70 | cleaning a second time changes nothing if and only if the first result has no double space |
| Text.CleanNameIdempotentWithoutTripleSpace | main.py:69-70 | `clean_name` is idempotent on every name with no three spaces in a row |
| Text.CleanNameWithoutDoubleSpace | main.py:69-70 | on a name with no double space, `clean_name` is `strip()` and is idempotent |
| Text.CleanNameSpacedWords | main.py:69-70 | " Jane  Doe " becomes "Jane Doe", for any two words |
| Text.CleanNameDoubleSpacedWords | main.py:69-70 | "Jane  Doe" becomes "Jane Doe", for any two words |
| Text.CollapseTripleSpacedWords | main.py:70 | one replace pass turns three spaces between two words into two |
| Text.CleanNameTripleSpacedWords | main.py:69-70 | "Jane   Doe" becomes "Jane  Doe", and cleaning again gives "Jane Doe", so `clean_name` is not idempotent |
| Paths.Split | main.py:49 | `split("/")` always yields at least one piece |
| Paths.SplitPiecesAreSeparatorFree | main.py:49 | no piece of a split contains the separator |
| Paths.JoinSplit | main.py:49 | joining the pieces of a split with the separator gives back the string |
| Paths.SplitJoin | main.py:49 | splitting the join of separator-free pieces gives back the pieces |
| Paths.LastSegment | main.py:49 | `href.split("/")[-1]` contains no `/` and is a suffix of the link |
| Paths.LastSegmentIsSuffix | main.py:49 | `href.split("/")[-1]` is a `/`-free suffix of the link that is the whole link or follows a `/`; a link without `/` is its own id |
| Paths.LastSegmentUnique | main.py:49 | every `/`-free suffix that is the whole link or follows a `/` equals `href.split("/")[-1]` |
| Crm.GetTaggingsPage | main.py:22-33 | a taggings fetch fails if and only if the body's `error` is truthy, with that message; otherwise it yields the page's taggings |
| Crm.GetPersonData | main.py:55-66 | a person fetch fails if and only if the body's `error` is truthy, with that message; otherwise it yields the whole body |
| Export.LinkedPositions | main.py:46-48 | the positions of the taggings that have a person link, all of them, in increasing order |
| Export.ExtractIds | main.py:46-50 | a page contributes at most one id per tagging |
| Export.ExtractIdsByPosition | main.py:46-50 | the k-th collected id is the id of the k-th linked tagging: unlinked entries are skipped, order is kept, duplicates are kept |
| Export.ExtractIdsAppend | main.py:46-50 | ids are collected entry by entry: the ids of a concatenation are the concatenated ids |
| Export.ExtractedIdsAreSegments | main.py:46-50 | every collected id is `/`-free and is the last segment of some linked tagging's href |
| Export.GetPeopleIds | main.py:36-52 | only page 1 of `TagId` is requested; an error in it aborts with its message; otherwise the ids are those of page 1's linked taggings |
| Export.NameRowOfCells | main.py:78-81 | both cells of a row are trimmed, and a cell is `""` when its name field is absent |
| Export.NameCell | main.py:79-80 | a row cell is the cleaned field: trimmed, no longer than the field, and `""` when the field is absent |
| Export.GetPeopleNames | main.py:73-82 | persons are requested in id order; the first error aborts with its message and nothing after it is requested; otherwise there is one cleaned row per id, in order |
| Export.Run | main.py:93-96 | page 1 is requested first; a taggings error aborts before any person is requested; otherwise the person phase behaves as `GetPeopleNames` on page 1's ids |

## Left out

- HTTP and JSON (main.py:23-30, 56-63): the request, its headers and the
  decoding are replaced by the fetcher parameters. Each decoded body is a
  datatype.
- Transport and decoding failures (main.py:23-30, 56-63): the fetchers are
  total, so a connection error from `requests.get` or a body that
  `response.json()` cannot decode never happens in the model. In the script
  either one aborts the run at that request. The contracts of
  `Export.GetPeopleIds`, `Export.GetPeopleNames` and `Export.Run` hold for
  runs in which every request gets a decodable answer.
- Configuration (main.py:15-19, 101-106): the `API_URL` and `API_KEY`
  environment checks and the output path resolution. They run before any
  request and do not affect the exported data.
- The CSV writer `save_names_to_csv` (main.py:85-90): file I/O. `Export.Run`
  returns the rows it would write.
- Progress prints (main.py:37, 42, 76, 97): console output only.
- Missing-key crashes: a body without `_embedded` or `osdi:taggings`, or a
  person link without `href`, raises `KeyError` in the script. The model's
  datatypes always hold those fields.
- Crm.SignalsError: only string `error` values are modelled. The value is
  truthy when present and non-empty. Non-string JSON errors such as numbers
  or lists are not modelled.
- Export.NameCell: a `given_name` or `family_name` that is present but
  `null` makes the script crash inside `clean_name`. The model treats it
  like an absent field and yields `""`.
- Export.GetPeopleNames: for the same reason, a person whose `given_name` or
  `family_name` is present but `null` aborts the script, but the model
  returns a row with an empty cell. The Success cases of this method and of
  `Export.Run` cover only persons whose name fields are strings or absent.
- Text.IsSpace: the whitespace set of `str.strip()` is CPython's `str.isspace`
  table. It is written out character by character and is not derived from a
  Unicode database.
- Export.GetPeopleIds: models the single-page loop as written. Paging on to
  later pages, which the loop's shape would allow, is not modelled.
