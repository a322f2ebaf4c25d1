# Symptom selector model

A Dafny model of the symptom picker in `script.js`, the browser front end of a
disease-prediction page. The page loads a symptom vocabulary from a backend,
lets the user pick symptoms from a searchable dropdown (click to toggle, Enter
to pick the first match, chips to remove), and submits the selection for a
prediction.

The model keeps what the page computes and what it stores:

- `Text` (`text.dfy`): the string primitives the page uses. These are
  `toLowerCase`, `trim`, `includes` and the order of the default `sort`. Case
  and white space are taken over ASCII.
- `SymptomSet` (`symptom_set.dfy`): the JavaScript `Set` of selected symptoms.
  It is a duplicate-free sequence in insertion order, with `add`, `delete` and
  the toggle a dropdown click performs.
- `Vocabulary` (`vocabulary.dfy`): the vocabulary derived from the diseases
  (script.js line 28). It is flattened, de-duplicated through a `Set` in
  first-occurrence order, then sorted (an insertion sort; on distinct strings
  every sort gives the same result).
- `Dropdown` (`dropdown.dfy`): the dropdown filter and its active flags, plus
  the first-match search of the Enter key.
- `Results` (`results.dfy`): the submit guard and payload, and the choice
  between the "no match" panel and the prediction cards.
- `Selector` (`selector.dfy`): a class `SymptomSelector` that holds the mutable
  state. Its fields are `allSymptoms` (`vocab`), `selectedSymptoms`
  (`selection`), the search box text, the rendered dropdown items and the
  results panel. Each event handler is a method that changes these fields.
  `Valid()` is the invariant every handler keeps: the vocabulary is sorted,
  the selection has no duplicates, and every rendered item is active exactly
  when its symptom is selected.

The click handler (script.js line 60) tests the clicked item's `active` class,
not the set. `Click` does the same. Its contract shows that, under `Valid()`,
this is the same as toggling membership in the selection.

Network calls are parameters. `LoadVocabulary` and `ReceivePredictions` take
the outcome of the `fetch` as a `Fetched` value: either the decoded data or a
failure.

Some behaviour of the code may not be what was meant; the model keeps it as written:

- On Enter the code picks the first vocabulary entry whose lowercase form
  contains the term. The equality test at script.js line 103 is implied by the
  containment test beside it, so an exact match is not preferred, whatever the
  comment at line 101 says. `Dropdown.EarlierPartialMatchWins` shows a case.
- The dropdown filter lowercases only the search text, not the entries
  (script.js line 44). A capitalised entry can therefore be hidden by its own
  name (`Dropdown.EntriesNotLowercased`). Symptoms are not case-normalised
  anywhere.
- On Enter the box is cleared whenever a match is found, also when the match
  was already selected (script.js line 113).
- When Enter adds a symptom, the dropdown is rendered before the box is
  cleared (script.js lines 111 and 113). It stays filtered by the old text
  while the box shows nothing. `PressEnter` states this.

## Model

| member | source | states |
|---|---|---|
| `Vocabulary.DeriveVocabulary` | script.js:28 | the vocabulary is strictly sorted and duplicate-free, and holds a string exactly when some disease lists it among its symptoms |
| `Vocabulary.FlatMap` | script.js:28 | the flattened list holds exactly the symptoms some disease mentions |
| `Vocabulary.Dedupe` | script.js:28 | passing the list through a `Set` leaves each member once and keeps exactly the members of the list |
| `Vocabulary.Insert` | script.js:28 | inserting adds exactly one occurrence of the string and changes no other count |
| `Vocabulary.Sort` | script.js:28 | sorting is a permutation of its input |
| `Vocabulary.InsertSpec` | script.js:28 | inserting a new string into a sorted list keeps it sorted and adds just that string |
| `Vocabulary.SortSpec` | script.js:28 | sorting a duplicate-free list gives a strictly sorted permutation of it |
| `Vocabulary.StrictlySortedNoDup` | script.js:28 | a strictly sorted list has no duplicates |
| `Vocabulary.StrictlySortedUnique` | script.js:28 | two strictly sorted lists with the same members are equal |
| `Vocabulary.DeriveVocabularyCanonical` | script.js:28 | the vocabulary depends only on which symptoms are mentioned, not on disease order or repetition |
| `Vocabulary.DeriveExample` | script.js:28 | the symptom list ["fever", "cough"] gives the vocabulary ["cough", "fever"] |
| `Text.Below` | script.js:28 | a proper prefix sorts before the longer string; the lemmas below show the order is strict and total |
| `Text.BelowIrreflexive` | script.js:28 | no string sorts before itself |
| `Text.BelowTransitive` | script.js:28 | the sort order is transitive |
| `Text.BelowTotal` | script.js:28 | of two different strings one sorts before the other |
| `Text.BelowAsymmetric` | script.js:28 | two strings never sort before each other |
| `Text.Lower` | script.js:42 | lowercasing keeps the length and maps each character on its own |
| `Text.LowerIdempotent` | script.js:42 | lowercasing twice is lowercasing once |
| `Text.Contains` | script.js:44 | a string contains only terms no longer than itself; `ContainsAt` gives the full meaning |
| `Text.ContainsAt` | script.js:44 | `includes` holds exactly when the term occurs at some position of the string |
| `Text.ContainsEmpty` | script.js:42-45 | every string contains the empty term |
| `Text.ContainsSelf` | script.js:103-104 | every string contains itself, so the equality test is implied by the containment test |
| `Text.MissingFirstChar` | script.js:44 | a string lacking the term's first character does not contain the term |
| `Text.TrimStart` | script.js:99 | dropping leading white space leaves a suffix that does not start with white space |
| `Text.TrimEnd` | script.js:99 | dropping trailing white space leaves a prefix that does not end with white space |
| `Text.Trim` | script.js:99 | the trimmed text is a slice of the input, everything cut off is white space, and it neither starts nor ends with white space |
| `Text.TrimEmpty` | script.js:99-100 | the trimmed text is empty exactly when the input is all white space |
| `Text.TrimKeeps` | script.js:99 | text without white space at either end is kept as it is |
| `Text.TrimIdempotent` | script.js:99 | trimming twice is trimming once |
| `SymptomSet.Add` | script.js:64 | `add` leaves exactly the old members and the new one, and keeps the old insertion order as a prefix |
| `SymptomSet.Delete` | script.js:85 | after `delete` the symptom is gone and the set is no larger |
| `SymptomSet.Toggle` | script.js:59-66 | the symptom is a member after the toggle exactly when it was not before |
| `SymptomSet.AddSpec` | script.js:64 | `add` keeps the set duplicate-free, adds exactly the symptom, and appends it only when it is new |
| `SymptomSet.DeleteMembers` | script.js:61 | after `delete` exactly the other members remain |
| `SymptomSet.DeleteAbsent` | script.js:85 | deleting a symptom that is not selected changes nothing |
| `SymptomSet.DeleteAt` | script.js:84-85 | deleting a selected symptom cuts out its position and keeps the rest in order |
| `SymptomSet.DeleteNoDup` | script.js:85 | `delete` keeps the set duplicate-free |
| `SymptomSet.ToggleSpec` | script.js:59-66 | a toggle flips the symptom's membership, no other membership, and keeps the set duplicate-free |
| `SymptomSet.ToggleTwiceFromAbsent` | script.js:59-66 | selecting and then deselecting a symptom gives back the identical selection |
| `SymptomSet.ToggleTwiceFromPresent` | script.js:59-66 | deselecting and then reselecting gives back the same members, with that symptom moved to the end |
| `Dropdown.Filter` | script.js:43-45 | the filter keeps no more entries than the vocabulary has, and each kept entry contains the term |
| `Dropdown.FilterMembers` | script.js:43-45 | the filter keeps exactly the entries that contain the term |
| `Dropdown.FilterAppend` | script.js:43-45 | the filter works entry by entry and keeps vocabulary order |
| `Dropdown.FilterEmptyTerm` | script.js:42-45 | an empty search text shows the whole vocabulary |
| `Dropdown.FilterSorted` | script.js:43-45 | the filtered list of a sorted vocabulary is sorted |
| `Dropdown.FilterNoDup` | script.js:43-45 | the filtered list of a duplicate-free vocabulary is duplicate-free |
| `Dropdown.Render` | script.js:47-53 | one item per filtered entry, in order, each active exactly when its symptom is selected |
| `Dropdown.RenderShows` | script.js:42-49 | the dropdown lists, sorted, exactly the vocabulary entries containing the lowercased search text, whatever the text's case |
| `Dropdown.FilterExample` | script.js:42-45 | the text "fe" against ["fever", "cough"] shows just "fever" |
| `Dropdown.EntriesNotLowercased` | script.js:42-45 | the entry "Fever" is not shown for the text "Fever", because entries are not lowercased |
| `Dropdown.FindMatch` | script.js:102-105 | the result is the first entry whose lowercase form contains the term, or none when no entry does |
| `Dropdown.FindMatchFirst` | script.js:102-105 | when some entry is the first to contain the term, the search returns that entry |
| `Dropdown.EnterMatch` | script.js:99-105 | blank text picks nothing; otherwise the pick is the first entry whose lowercase form contains the trimmed, lowercased text, or nothing when no entry does |
| `Dropdown.EnterMatchExample` | script.js:99-105 | the text "Fever" against ["cough", "fever"] picks "fever" |
| `Dropdown.EarlierPartialMatchWins` | script.js:101-105 | an earlier partial match is found before an exact match |
| `Results.Payload` | script.js:123-141 | an empty selection gives no request; otherwise the request lists every selected symptom once, in insertion order |
| `Results.DisplayResults` | script.js:161-171 | a missing or empty prediction list gives the "no match" panel; otherwise one card per prediction, never an empty list of cards |
| `Selector.SymptomSelector.Valid` | script.js:47-53 | in a valid state each rendered item carries the active class exactly when its symptom is selected |
| `Selector.SymptomSelector.constructor` | script.js:9-10 | the page starts with an empty vocabulary, selection and search box |
| `Selector.SymptomSelector.UpdateDropdown` | script.js:41-53 | the dropdown becomes the rendering for the current search text and selection |
| `Selector.SymptomSelector.LoadVocabulary` | script.js:13-38 | on a response the vocabulary is derived and the dropdown re-rendered; on failure only the error panel changes |
| `Selector.SymptomSelector.Input` | script.js:93 | the dropdown follows the new search text |
| `Selector.SymptomSelector.Click` | script.js:57-67 | testing the item's active class toggles the selection; only that item's flag flips; the invariant is kept |
| `Selector.SymptomSelector.RemoveChip` | script.js:83-88 | the symptom is deleted from the selection and the dropdown re-rendered |
| `Selector.SymptomSelector.PressEnter` | script.js:96-117 | blank text or no match changes nothing; a match is added if new, the dropdown is re-rendered for the old text only then, and the box is cleared |
| `Selector.SymptomSelector.Submit` | script.js:120-142 | an empty selection shows the warning and makes no request; otherwise the request is the payload of the selection; the invariant is kept |
| `Selector.SymptomSelector.ReceivePredictions` | script.js:143-157 | a failed request shows the error panel; otherwise the panel is what `displayResults` chooses; the invariant is kept |
| `Selector.ClickTwice` | script.js:57-67 | clicking an inactive item twice restores both the selection and the item's flag |
| `Selector.TypedFever` | script.js:13-29 | loading the symptoms "fever" and "cough" and typing "Fever" gives the vocabulary ["cough", "fever"], an empty selection and the text "Fever" |
| `Selector.EnterFever` | script.js:96-117 | Enter with "Fever" against ["cough", "fever"] selects "fever" once and clears the box |
| `Selector.EnterOnEmptyBox` | script.js:96-100 | Enter on an empty box changes neither the selection nor the dropdown |

## Left out

- The `fetch` calls, the HTTP status check and JSON decoding (script.js lines 15-27 and 133-148) are network I/O. They become the `Fetched` parameter, and a network error, a bad status or a body that is not JSON is `Failed`.
- A `/diseases` body without a `diseases` array throws at script.js line 28 before `allSymptoms` changes. The model counts it as `Failed`.
- A `/predict` body without `predictions` is not an error. `displayResults` gets `undefined` (script.js lines 149 and 162) and shows "no match", which is `Received(None)`.
- A prediction missing `match_percentage`, `precautions` or `medications` throws at script.js line 175, 181 or 185. The request's catch block shows the error panel, which the model counts as `Failed`.
- A disease whose `symptoms` is not an array of strings is not modelled. `flatMap` keeps such a value as one element, so `allSymptoms` is replaced at script.js line 28. Then `includes` throws at line 44, reached through line 29. The page shows the error panel with the new, malformed `allSymptoms` kept. `Disease` holds only string sequences.
- The text of the error and warning messages, and `console.error`, are not modelled.
- The HTML templating is left out, including the card markup and `match_percentage.toFixed(1)` (floating-point formatting). The panel keeps the prediction list, and `matchPercentage` is a `real`.
- Symptom names are put into the `data-symptom` attributes without escaping. A name containing a double quote would come back changed from the DOM. The model assumes names survive the round trip.
- The chip list (`updateSelectedSymptoms`) is re-rendered after every change to the selection, so it always equals `selection` and is not a separate field.
- Overlapping submits race, and the last response to arrive wins. The model has no concurrency: `Submit` and `ReceivePredictions` are separate steps, and a response may come at any time.
- Key presses other than Enter do nothing in the handler at script.js line 96, so the model has no method for them.
- Text.Lower: maps only ASCII capitals, not Unicode case mapping.
- Text.Trim: removes only ASCII white space, not the other Unicode white space that `trim` also removes.
- Text.Below: compares characters by code point. The default `sort` compares UTF-16 code units, and the two orders differ only for characters outside the Basic Multilingual Plane.
