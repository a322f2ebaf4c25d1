/**
 * The state behind the symptom picker and the event handlers that change it
 * (script.js): the vocabulary `allSymptoms`, the `selectedSymptoms` set, the
 * search box, the rendered dropdown items and the results panel.
 */
module Selector {
  import opened Optional
  import opened Text
  import opened SymptomSet
  import opened Vocabulary
  import opened Dropdown
  import opened Results

  class SymptomSelector {
    var vocab: seq<string>            // allSymptoms
    var selection: seq<string>        // selectedSymptoms, in insertion order
    var searchText: string            // the value of the search box
    var dropdown: seq<Entry>          // the items currently rendered in the dropdown
    var results: Panel                // what the results panel shows
    ghost var renderedQuery: string   // the search text the dropdown was last rendered for

    /**
     * The vocabulary is sorted, the selection is a set, and the dropdown is
     * the rendering of the vocabulary for the last rendered search text with
     * the CURRENT selection: an item is active exactly when its symptom is
     * selected.
     */
    ghost predicate Valid()
      reads this
      ensures Valid() ==> forall i :: 0 <= i < |dropdown| ==> (dropdown[i].active <==> dropdown[i].symptom in selection)
    {
      && StrictlySorted(vocab)
      && NoDup(selection)
      && dropdown == Render(vocab, renderedQuery, selection)
    }

    /** Every selected symptom is a vocabulary entry. */
    ghost predicate SelectionInVocab()
      reads this
    {
      forall x :: x in selection ==> x in vocab
    }

    /** The page as loaded: empty vocabulary, selection and search box (script.js lines 9-10). */
    constructor ()
      ensures Valid() && SelectionInVocab()
      ensures vocab == [] && selection == [] && searchText == [] && dropdown == [] && results == Blank
    {
      vocab, selection, searchText, dropdown, results := [], [], [], [], Blank;
      renderedQuery := [];
    }

    /** `updateSymptomsDropdown`: renders the dropdown for the current search text. */
    method UpdateDropdown()
      requires StrictlySorted(vocab) && NoDup(selection)
      modifies this`dropdown, this`renderedQuery
      ensures Valid()
      ensures dropdown == Render(vocab, searchText, selection) && renderedQuery == searchText
    {
      dropdown := Render(vocab, searchText, selection);
      renderedQuery := searchText;
    }

    /**
     * `loadSymptoms`: on a response, the vocabulary becomes the sorted union
     * of the diseases' symptoms and the dropdown is rendered again; on a
     * failure only the error panel is shown.
     */
    method LoadVocabulary(response: Fetched<seq<Disease>>)
      requires Valid()
      modifies this`vocab, this`dropdown, this`renderedQuery, this`results
      ensures Valid()
      ensures response.Failed? ==>
        vocab == old(vocab) && dropdown == old(dropdown) && results == LoadError
      ensures response.Received? ==>
        && vocab == DeriveVocabulary(response.data)
        && dropdown == Render(vocab, searchText, selection)
        && results == old(results)
    {
      match response
      case Failed =>
        results := LoadError;
      case Received(diseases) =>
        vocab := DeriveVocabulary(diseases);
        UpdateDropdown();
    }

    /** The `input` event of the search box: the dropdown follows the new text. */
    method Input(text: string)
      requires Valid()
      modifies this`searchText, this`dropdown, this`renderedQuery
      ensures Valid()
      ensures searchText == text && dropdown == Render(vocab, text, selection)
    {
      searchText := text;
      UpdateDropdown();
    }

    /**
     * A click on dropdown item `i`: the handler tests the item's `active` class;
     * by `Valid()` that is membership in the selection, so the selection is
     * toggled, and only that item's class flips.
     */
    method Click(i: nat)
      requires Valid() && i < |dropdown|
      modifies this`selection, this`dropdown
      ensures Valid()
      ensures selection == Toggle(old(selection), old(dropdown[i].symptom))
      ensures dropdown == old(dropdown)[i := Entry(old(dropdown[i].symptom), !old(dropdown[i].active))]
      ensures old(SelectionInVocab()) ==> SelectionInVocab()
    {
      var symptom := dropdown[i].symptom;
      ghost var before := selection;
      ghost var shown := Filter(vocab, Lower(renderedQuery));
      if dropdown[i].active {
        selection := Delete(selection, symptom);
        dropdown := dropdown[i := Entry(symptom, false)];
      } else {
        selection := Add(selection, symptom);
        dropdown := dropdown[i := Entry(symptom, true)];
      }
      StrictlySortedNoDup(vocab);
      FilterNoDup(vocab, Lower(renderedQuery));
      FilterMembers(vocab, Lower(renderedQuery));
      ToggleSpec(before, symptom);
      assert shown[i] == symptom;
      forall j | 0 <= j < |dropdown|
        ensures dropdown[j] == Render(vocab, renderedQuery, selection)[j]
      {
        if j != i {
          assert shown[j] != symptom;
        }
      }
    }

    /** The remove button of a chip: the symptom leaves the selection and the dropdown is rendered again. */
    method RemoveChip(symptom: string)
      requires Valid()
      modifies this`selection, this`dropdown, this`renderedQuery
      ensures Valid()
      ensures selection == Delete(old(selection), symptom)
      ensures dropdown == Render(vocab, searchText, selection)
      ensures old(SelectionInVocab()) ==> SelectionInVocab()
    {
      DeleteNoDup(selection, symptom);
      DeleteMembers(selection, symptom);
      selection := Delete(selection, symptom);
      UpdateDropdown();
    }

    /**
     * The Enter key in the search box. The trimmed, lowercased text picks the
     * first vocabulary entry containing it; a new match is added and the
     * dropdown rendered (still for the uncleared text); the box is cleared
     * whenever there is a match. Blank text or no match changes nothing.
     */
    method PressEnter()
      requires Valid()
      modifies this`selection, this`searchText, this`dropdown, this`renderedQuery
      ensures Valid()
      ensures EnterMatch(vocab, old(searchText)).None? ==>
        selection == old(selection) && searchText == old(searchText) && dropdown == old(dropdown)
      ensures EnterMatch(vocab, old(searchText)).Some? ==>
        selection == Add(old(selection), EnterMatch(vocab, old(searchText)).value) && searchText == []
      ensures EnterMatch(vocab, old(searchText)).Some? && EnterMatch(vocab, old(searchText)).value in old(selection) ==>
        dropdown == old(dropdown)
      ensures EnterMatch(vocab, old(searchText)).Some? && EnterMatch(vocab, old(searchText)).value !in old(selection) ==>
        dropdown == Render(vocab, old(searchText), selection)
      ensures old(SelectionInVocab()) ==> SelectionInVocab()
    {
      var term := Lower(Trim(searchText));
      if term != [] {
        var found := FindMatch(vocab, term);
        if found.Some? {
          var symptom := found.value;
          if symptom !in selection {
            AddSpec(selection, symptom);
            selection := selection + [symptom];
            UpdateDropdown();
          }
          searchText := [];
        }
      }
    }

    /**
     * The form's submit: with nothing selected the warning is shown and no
     * request is made; otherwise the request lists the selection.
     */
    method Submit() returns (request: Option<seq<string>>)
      requires Valid()
      modifies this`results
      ensures Valid()
      ensures request == Payload(selection)
      ensures request.None? ==> results == SelectionWarning
      ensures request.Some? ==> results == old(results)
    {
      if |selection| == 0 {
        results := SelectionWarning;
        return None;
      }
      request := Some(selection);
    }

    /** The answer to the prediction request: an error panel, or what `displayResults` shows. */
    method ReceivePredictions(response: Fetched<Option<seq<Prediction>>>)
      requires Valid()
      modifies this`results
      ensures Valid()
      ensures response.Failed? ==> results == RequestError
      ensures response.Received? ==> results == DisplayResults(response.data)
    {
      match response
      case Failed =>
        results := RequestError;
      case Received(predictions) =>
        results := DisplayResults(predictions);
    }
  }

  /**
   * Clicking the same inactive dropdown item twice restores both the selection
   * sequence and the item's `active` flag.
   */
  method ClickTwice(ui: SymptomSelector, i: nat)
    requires ui.Valid() && i < |ui.dropdown| && !ui.dropdown[i].active
    modifies ui
    ensures ui.Valid()
    ensures ui.selection == old(ui.selection) && ui.dropdown == old(ui.dropdown)
  {
    ghost var symptom := ui.dropdown[i].symptom;
    assert symptom !in ui.selection;
    ui.Click(i);
    ui.Click(i);
    ToggleTwiceFromAbsent(old(ui.selection), symptom);
  }

  /** The page after loading the symptoms "fever" and "cough" and typing "Fever" into the box. */
  method TypedFever() returns (ui: SymptomSelector)
    ensures fresh(ui) && ui.Valid()
    ensures ui.vocab == ["cough", "fever"] && ui.selection == [] && ui.searchText == "Fever"
  {
    ui := new SymptomSelector();
    ui.LoadVocabulary(Received([Disease(["fever", "cough"])]));
    DeriveExample();
    ui.Input("Fever");
  }

  /**
   * Enter with "Fever" in the box, against the vocabulary ["cough", "fever"]:
   * "fever" is selected once and the box is cleared.
   */
  method EnterFever(ui: SymptomSelector)
    requires ui.Valid()
    requires ui.vocab == ["cough", "fever"] && ui.selection == [] && ui.searchText == "Fever"
    modifies ui
    ensures ui.Valid()
    ensures ui.selection == ["fever"] && ui.searchText == []
  {
    EnterMatchExample();
    ui.PressEnter();
  }

  /** A second Enter on the cleared box changes nothing. */
  method EnterOnEmptyBox(ui: SymptomSelector)
    requires ui.Valid() && ui.searchText == []
    modifies ui
    ensures ui.Valid()
    ensures ui.selection == old(ui.selection) && ui.searchText == [] && ui.dropdown == old(ui.dropdown)
  {
    TrimKeeps([]);
    ui.PressEnter();
  }
}
