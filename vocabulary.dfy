/**
 * The symptom vocabulary: the sorted, de-duplicated union of the symptom lists
 * of every disease the backend returns (`loadSymptoms`, script.js line 28).
 */
module Vocabulary {
  import opened Text
  import opened SymptomSet

  /** A disease as the vocabulary sees it: only its symptom list is read. */
  datatype Disease = Disease(symptoms: seq<string>)

  /** Some disease lists `x` among its symptoms. */
  ghost predicate Mentioned(diseases: seq<Disease>, x: string) {
    exists i :: 0 <= i < |diseases| && x in diseases[i].symptoms
  }

  /** Every element comes before every later one: sorted and duplicate-free. */
  predicate StrictlySorted(s: seq<string>) {
    forall i, j :: 0 <= i < j < |s| ==> Below(s[i], s[j])
  }

  /** `flatMap(disease => disease.symptoms)`: the symptom lists, one after the other. */
  function FlatMap(diseases: seq<Disease>): (r: seq<string>)
    ensures forall x :: x in r <==> Mentioned(diseases, x)
  {
    if diseases == [] then []
    else
      var rest := FlatMap(diseases[1..]);
      assert forall x :: Mentioned(diseases[1..], x) ==> Mentioned(diseases, x) by {
        forall x | Mentioned(diseases[1..], x) ensures Mentioned(diseases, x) {
          var i :| 0 <= i < |diseases[1..]| && x in diseases[1..][i].symptoms;
          assert x in diseases[i + 1].symptoms;
        }
      }
      assert forall x :: Mentioned(diseases, x) ==> x in diseases[0].symptoms || Mentioned(diseases[1..], x) by {
        forall x | Mentioned(diseases, x) ensures x in diseases[0].symptoms || Mentioned(diseases[1..], x) {
          var i :| 0 <= i < |diseases| && x in diseases[i].symptoms;
          if i > 0 {
            assert x in diseases[1..][i - 1].symptoms;
          }
        }
      }
      diseases[0].symptoms + rest
  }

  /**
   * `new Set(list)`: the members of `list` in order of first occurrence, each
   * once; each element is `add`ed in turn.
   */
  function Dedupe(list: seq<string>): (r: seq<string>)
    ensures NoDup(r)
    ensures forall x :: x in r <==> x in list
  {
    if list == [] then []
    else
      var prefix := Dedupe(list[..|list| - 1]);
      AddSpec(prefix, list[|list| - 1]);
      assert list == list[..|list| - 1] + [list[|list| - 1]];
      Add(prefix, list[|list| - 1])
  }

  /** Puts `x` in front of the first element it is not below. */
  function Insert(x: string, s: seq<string>): (r: seq<string>)
    ensures multiset(r) == multiset(s) + multiset{x}
    ensures forall y :: y in r <==> y == x || y in s
  {
    if s == [] then [x]
    else if Below(s[0], x) then
      assert s == [s[0]] + s[1..];
      [s[0]] + Insert(x, s[1..])
    else [x] + s
  }

  /** The default `sort`, as an insertion sort; on distinct strings every sorting algorithm gives the same result. */
  function Sort(s: seq<string>): (r: seq<string>)
    ensures multiset(r) == multiset(s)
  {
    if s == [] then []
    else
      assert s == [s[0]] + s[1..];
      Insert(s[0], Sort(s[1..]))
  }

  /** Inserting a new string into a sorted sequence keeps it sorted and adds just that string. */
  lemma {:induction false} InsertSpec(x: string, s: seq<string>)
    requires StrictlySorted(s) && x !in s
    ensures StrictlySorted(Insert(x, s))
    ensures multiset(Insert(x, s)) == multiset(s) + multiset{x}
  {
    if s == [] {
    } else if Below(s[0], x) {
      InsertSpec(x, s[1..]);
      assert s == [s[0]] + s[1..];
      InsertBehind(x, s);
    } else {
      assert x != s[0];
      BelowTotal(x, s[0]);
      forall j | 1 <= j < |s| ensures Below(x, s[j]) {
        BelowTransitive(x, s[0], s[j]);
      }
    }
  }

  /** Insertion behind the first element of a sorted sequence keeps it sorted. */
  lemma InsertBehind(x: string, s: seq<string>)
    requires StrictlySorted(s) && s != [] && Below(s[0], x)
    requires StrictlySorted(Insert(x, s[1..]))
    ensures StrictlySorted(Insert(x, s))
  {
    var rest := Insert(x, s[1..]);
    forall j | 0 <= j < |rest| ensures Below(s[0], rest[j]) {
      if rest[j] != x {
        assert rest[j] in s[1..];
      }
    }
  }

  /** Sorting a duplicate-free sequence gives a strictly sorted permutation of it. */
  lemma {:induction false} SortSpec(s: seq<string>)
    requires NoDup(s)
    ensures StrictlySorted(Sort(s))
    ensures multiset(Sort(s)) == multiset(s)
  {
    if s != [] {
      SortSpec(s[1..]);
      assert s == [s[0]] + s[1..];
      assert s[0] !in multiset(Sort(s[1..]));
      InsertSpec(s[0], Sort(s[1..]));
    }
  }

  /** A strictly sorted sequence holds no element twice. */
  lemma StrictlySortedNoDup(s: seq<string>)
    requires StrictlySorted(s)
    ensures NoDup(s)
  {
    forall i, j | 0 <= i < j < |s| ensures s[i] != s[j] {
      BelowIrreflexive(s[i]);
    }
  }

  /** A strictly sorted sequence is determined by its elements. */
  lemma {:induction false} StrictlySortedUnique(a: seq<string>, b: seq<string>)
    requires StrictlySorted(a) && StrictlySorted(b)
    requires forall x :: x in a <==> x in b
    ensures a == b
  {
    if a != [] {
      assert a[0] in b;
    }
    if b != [] {
      assert b[0] in a;
    }
    if a != [] && b != [] {
      if a[0] != b[0] {
        var i :| 0 <= i < |a| && a[i] == b[0];
        var j :| 0 <= j < |b| && b[j] == a[0];
        assert Below(b[0], a[0]) by {
          assert i > 0;
        }
        assert Below(a[0], b[0]) by {
          assert j > 0;
        }
        BelowAsymmetric(a[0], b[0]);
      }
      StrictlySortedNoDup(a);
      StrictlySortedNoDup(b);
      forall x ensures x in a[1..] <==> x in b[1..] {
        assert x in a[1..] <==> x in a && x != a[0];
        assert x in b[1..] <==> x in b && x != b[0];
      }
      StrictlySortedUnique(a[1..], b[1..]);
      assert a == [a[0]] + a[1..] && b == [b[0]] + b[1..];
    }
  }

  /**
   * `[...new Set(data.diseases.flatMap(d => d.symptoms))].sort()`: strictly
   * sorted, and holding exactly the symptoms some disease mentions.
   */
  function DeriveVocabulary(diseases: seq<Disease>): (v: seq<string>)
    ensures StrictlySorted(v) && NoDup(v)
    ensures forall x :: x in v <==> Mentioned(diseases, x)
  {
    var unique := Dedupe(FlatMap(diseases));
    SortSpec(unique);
    var v := Sort(unique);
    assert forall x :: x in v <==> x in multiset(unique);
    StrictlySortedNoDup(v);
    v
  }

  /**
   * The vocabulary depends only on which symptoms are mentioned, not on the
   * order of the diseases or how often a symptom recurs.
   */
  lemma DeriveVocabularyCanonical(d1: seq<Disease>, d2: seq<Disease>)
    requires forall x :: Mentioned(d1, x) <==> Mentioned(d2, x)
    ensures DeriveVocabulary(d1) == DeriveVocabulary(d2)
  {
    StrictlySortedUnique(DeriveVocabulary(d1), DeriveVocabulary(d2));
  }

  /** The diseases' symptom lists ["fever", "cough"] give the vocabulary ["cough", "fever"]. */
  lemma DeriveExample()
    ensures DeriveVocabulary([Disease(["fever", "cough"])]) == ["cough", "fever"]
  {
    var diseases := [Disease(["fever", "cough"])];
    var w: seq<string> := ["cough", "fever"];
    assert StrictlySorted(w) by {
      assert Below(w[0], w[1]);
    }
    assert forall x :: x in w <==> Mentioned(diseases, x) by {
      assert w[0] in diseases[0].symptoms && w[1] in diseases[0].symptoms;
      assert Mentioned(diseases, w[0]) && Mentioned(diseases, w[1]);
      forall x | Mentioned(diseases, x) ensures x in w {
        var i :| 0 <= i < |diseases| && x in diseases[i].symptoms;
      }
    }
    StrictlySortedUnique(DeriveVocabulary(diseases), w);
  }
}
