/**
 * What the dropdown shows for the search text (`updateSymptomsDropdown`,
 * script.js lines 41-53) and which vocabulary entry the Enter key picks
 * (script.js lines 99-105).
 */
module Dropdown {
  import opened Optional
  import opened Text
  import opened SymptomSet
  import opened Vocabulary

  /** One rendered dropdown item: the symptom and whether it carries the `active` class. */
  datatype Entry = Entry(symptom: string, active: bool)

  /**
   * `allSymptoms.filter(symptom => symptom.includes(term))`: the vocabulary
   * entries containing `term`, in vocabulary order. The entries themselves are
   * compared as they are, not lowercased.
   */
  function Filter(vocab: seq<string>, term: string): (r: seq<string>)
    ensures |r| <= |vocab|
    ensures forall i :: 0 <= i < |r| ==> Contains(r[i], term)
  {
    if vocab == [] then []
    else (if Contains(vocab[0], term) then [vocab[0]] else []) + Filter(vocab[1..], term)
  }

  /** The filter keeps exactly the entries that contain the term. */
  lemma {:induction false} FilterMembers(vocab: seq<string>, term: string)
    ensures forall x :: x in Filter(vocab, term) <==> x in vocab && Contains(x, term)
  {
    if vocab != [] {
      FilterMembers(vocab[1..], term);
      assert vocab == [vocab[0]] + vocab[1..];
    }
  }

  /**
   * The filter works entry by entry and keeps the vocabulary order: filtering a
   * concatenation is concatenating the filtered parts.
   */
  lemma {:induction false} FilterAppend(a: seq<string>, b: seq<string>, term: string)
    ensures Filter(a + b, term) == Filter(a, term) + Filter(b, term)
  {
    if a != [] {
      FilterAppend(a[1..], b, term);
      assert (a + b)[0] == a[0] && (a + b)[1..] == a[1..] + b;
    } else {
      assert a + b == b;
    }
  }

  /** An empty search text keeps the whole vocabulary. */
  lemma {:induction false} FilterEmptyTerm(vocab: seq<string>)
    ensures Filter(vocab, Lower("")) == vocab
  {
    if vocab != [] {
      ContainsEmpty(vocab[0]);
      FilterEmptyTerm(vocab[1..]);
    }
  }

  /** Filtering a strictly sorted vocabulary gives a strictly sorted list. */
  lemma {:induction false} FilterSorted(vocab: seq<string>, term: string)
    requires StrictlySorted(vocab)
    ensures StrictlySorted(Filter(vocab, term))
  {
    if vocab != [] {
      FilterSorted(vocab[1..], term);
      FilterMembers(vocab[1..], term);
      var rest := Filter(vocab[1..], term);
      forall j | 0 <= j < |rest| ensures Below(vocab[0], rest[j]) {
        assert rest[j] in vocab[1..];
      }
    }
  }

  /** Filtering a duplicate-free vocabulary gives a duplicate-free list. */
  lemma {:induction false} FilterNoDup(vocab: seq<string>, term: string)
    requires NoDup(vocab)
    ensures NoDup(Filter(vocab, term))
  {
    if vocab != [] {
      FilterNoDup(vocab[1..], term);
      FilterMembers(vocab[1..], term);
      assert vocab[0] !in vocab[1..];
    }
  }

  /**
   * The dropdown for a search text: the vocabulary filtered by the lowercased
   * text, each entry marked active exactly when it is selected.
   */
  function Render(vocab: seq<string>, query: string, selection: seq<string>): (r: seq<Entry>)
    ensures |r| == |Filter(vocab, Lower(query))|
    ensures forall i :: 0 <= i < |r| ==> r[i].symptom == Filter(vocab, Lower(query))[i]
    ensures forall i :: 0 <= i < |r| ==> (r[i].active <==> r[i].symptom in selection)
  {
    var shown := Filter(vocab, Lower(query));
    seq(|shown|, i requires 0 <= i < |shown| => Entry(shown[i], shown[i] in selection))
  }

  /** What the dropdown lists: the symptoms of its entries, in order. */
  function Symptoms(entries: seq<Entry>): seq<string> {
    seq(|entries|, i requires 0 <= i < |entries| => entries[i].symptom)
  }

  /**
   * The dropdown lists exactly the vocabulary entries containing the lowercased
   * search text, sorted; the text's case does not matter.
   */
  lemma RenderShows(vocab: seq<string>, query: string, selection: seq<string>)
    requires StrictlySorted(vocab)
    ensures StrictlySorted(Symptoms(Render(vocab, query, selection)))
    ensures forall x :: x in Symptoms(Render(vocab, query, selection)) <==> x in vocab && Contains(x, Lower(query))
    ensures Render(vocab, query, selection) == Render(vocab, Lower(query), selection)
  {
    var shown := Filter(vocab, Lower(query));
    assert Symptoms(Render(vocab, query, selection)) == shown;
    FilterSorted(vocab, Lower(query));
    FilterMembers(vocab, Lower(query));
    LowerIdempotent(query);
  }

  /**
   * `allSymptoms.find(s => s.toLowerCase() === term || s.toLowerCase().includes(term))`:
   * the first vocabulary entry whose lowercase form contains the term, or `None`
   * when there is none.
   */
  function FindMatch(vocab: seq<string>, term: string): (r: Option<string>)
    ensures r.None? <==> forall k :: 0 <= k < |vocab| ==> !Contains(Lower(vocab[k]), term)
    ensures r.Some? ==> exists k :: FirstMatchAt(vocab, term, k) && vocab[k] == r.value
  {
    if vocab == [] then None
    else if Lower(vocab[0]) == term || Contains(Lower(vocab[0]), term) then
      ContainsSelf(term);
      assert FirstMatchAt(vocab, term, 0);
      Some(vocab[0])
    else
      var r := FindMatch(vocab[1..], term);
      assert r.Some? ==> exists k :: FirstMatchAt(vocab, term, k) && vocab[k] == r.value by {
        if r.Some? {
          var k :| FirstMatchAt(vocab[1..], term, k) && vocab[1..][k] == r.value;
          assert FirstMatchAt(vocab, term, k + 1);
        }
      }
      r
  }

  /**
   * What Enter picks for the text in the box (script.js lines 99-105): nothing
   * for blank text, otherwise the first entry containing the trimmed,
   * lowercased text.
   */
  function EnterMatch(vocab: seq<string>, text: string): (r: Option<string>)
    ensures Trim(text) == [] ==> r == None
    ensures r.None? && Trim(text) != [] ==> forall k :: 0 <= k < |vocab| ==> !Contains(Lower(vocab[k]), Lower(Trim(text)))
    ensures r.Some? ==> exists k :: FirstMatchAt(vocab, Lower(Trim(text)), k) && vocab[k] == r.value
  {
    var term := Lower(Trim(text));
    if term == [] then None else FindMatch(vocab, term)
  }

  /** `vocab[k]` contains the term and no earlier entry does. */
  ghost predicate FirstMatchAt(vocab: seq<string>, term: string, k: int) {
    && 0 <= k < |vocab|
    && Contains(Lower(vocab[k]), term)
    && forall j :: 0 <= j < k ==> !Contains(Lower(vocab[j]), term)
  }

  /**
   * An entry equal to the term is not preferred: an earlier entry that merely
   * contains the term is found first.
   */
  lemma EarlierPartialMatchWins()
    ensures FindMatch(["body chills", "chills"], "chills") == Some("body chills")
  {
    var v: seq<string> := ["body chills", "chills"];
    assert Lower(v[0]) == v[0];
    assert Lower(v[0])[5..] == "chills";
    ContainsAt(Lower(v[0]), "chills");
    assert OccursAt(Lower(v[0]), "chills", 5);
  }

  /** With vocabulary ["fever", "cough"], the search text "fe" shows just "fever". */
  lemma FilterExample()
    ensures Filter(["fever", "cough"], Lower("fe")) == ["fever"]
  {
    assert Lower("fe") == "fe";
    assert StartsWith("fever", "fe");
    MissingFirstChar("cough", "fe");
  }

  /**
   * Whenever `k` is the first entry containing the term, the search returns
   * that entry: the first match is unique, so this follows from the contract
   * of `FindMatch`.
   */
  lemma FindMatchFirst(vocab: seq<string>, term: string, k: int)
    requires FirstMatchAt(vocab, term, k)
    ensures FindMatch(vocab, term) == Some(vocab[k])
  {
  }

  /** Enter with "Fever" against the vocabulary ["cough", "fever"] picks "fever". */
  lemma EnterMatchExample()
    ensures EnterMatch(["cough", "fever"], "Fever") == Some("fever")
  {
    var v: seq<string> := ["cough", "fever"];
    TrimKeeps("Fever");
    assert Lower("Fever") == v[1];
    assert Lower(v[1]) == v[1];
    assert 'f' !in Lower(v[0]);
    MissingFirstChar(Lower(v[0]), v[1]);
    ContainsSelf(v[1]);
    assert FirstMatchAt(v, v[1], 1);
    FindMatchFirst(v, v[1], 1);
  }

  /** The vocabulary entries are not lowercased: "Fever" is not shown for the text "Fever". */
  lemma EntriesNotLowercased()
    ensures Filter(["Fever"], Lower("Fever")) == []
  {
    assert Lower("Fever") == "fever";
    MissingFirstChar("Fever", "fever");
  }
}
