/**
 * The JavaScript `Set` of symptom names, as the selection uses it: a
 * duplicate-free sequence in insertion order (`Array.from` of a `Set` lists
 * its members in the order they were added).
 */
module SymptomSet {

  predicate NoDup(s: seq<string>) {
    forall i, j :: 0 <= i < j < |s| ==> s[i] != s[j]
  }

  /** `set.add(x)`: appends `x` unless it is already a member. */
  function Add(s: seq<string>, x: string): (r: seq<string>)
    ensures forall y :: y in r <==> y == x || y in s
    ensures |s| <= |r| && r[..|s|] == s
  {
    if x in s then s else s + [x]
  }

  /** `set.delete(x)`: drops `x`; the other members keep their order. */
  function Delete(s: seq<string>, x: string): (r: seq<string>)
    ensures x !in r && |r| <= |s|
  {
    if s == [] then []
    else (if s[0] == x then [] else [s[0]]) + Delete(s[1..], x)
  }

  /** A click on a dropdown entry: remove the symptom if selected, add it otherwise. */
  function Toggle(s: seq<string>, x: string): (r: seq<string>)
    ensures x in r <==> x !in s
  {
    if x in s then Delete(s, x) else Add(s, x)
  }

  /** `add` keeps the set property and adds exactly `x`, at the end when it is new. */
  lemma AddSpec(s: seq<string>, x: string)
    requires NoDup(s)
    ensures NoDup(Add(s, x))
    ensures forall y :: y in Add(s, x) <==> y == x || y in s
    ensures x in s ==> Add(s, x) == s
    ensures x !in s ==> Add(s, x) == s + [x]
  {
  }

  /** After `delete`, exactly the members other than `x` remain. */
  lemma {:induction false} DeleteMembers(s: seq<string>, x: string)
    ensures forall y :: y in Delete(s, x) <==> y in s && y != x
  {
    if s != [] {
      DeleteMembers(s[1..], x);
      assert s == [s[0]] + s[1..];
    }
  }

  /** Deleting a symptom that is not selected changes nothing. */
  lemma {:induction false} DeleteAbsent(s: seq<string>, x: string)
    requires x !in s
    ensures Delete(s, x) == s
  {
    if s != [] {
      DeleteAbsent(s[1..], x);
      assert s == [s[0]] + s[1..];
    }
  }

  /**
   * Deleting the member at position `k` cuts out exactly that position: the
   * members before and after it keep their relative order.
   */
  lemma {:induction false} DeleteAt(s: seq<string>, k: nat)
    requires NoDup(s) && k < |s|
    ensures Delete(s, s[k]) == s[..k] + s[k + 1..]
  {
    if k == 0 {
      DeleteAbsent(s[1..], s[0]);
    } else {
      DeleteAt(s[1..], k - 1);
      assert s[1..][k - 1] == s[k];
      assert s[1..][..k - 1] == s[1..k] && s[1..][k..] == s[k + 1..];
      assert s[..k] == [s[0]] + s[1..k];
    }
  }

  /** `delete` keeps the set property. */
  lemma {:induction false} DeleteNoDup(s: seq<string>, x: string)
    requires NoDup(s)
    ensures NoDup(Delete(s, x))
  {
    if s != [] {
      var rest := Delete(s[1..], x);
      DeleteNoDup(s[1..], x);
      DeleteMembers(s[1..], x);
      if s[0] != x {
        assert s[0] !in s[1..];
        assert Delete(s, x) == [s[0]] + rest;
      }
    }
  }

  /**
   * A toggle flips the membership of `x` and of nothing else, and keeps the
   * set property.
   */
  lemma ToggleSpec(s: seq<string>, x: string)
    requires NoDup(s)
    ensures NoDup(Toggle(s, x))
    ensures x in Toggle(s, x) <==> x !in s
    ensures forall y :: y != x ==> (y in Toggle(s, x) <==> y in s)
  {
    DeleteMembers(s, x);
    DeleteNoDup(s, x);
  }

  /** Selecting a symptom that was not selected and deselecting it again gives back the very same sequence. */
  lemma ToggleTwiceFromAbsent(s: seq<string>, x: string)
    requires NoDup(s) && x !in s
    ensures Toggle(Toggle(s, x), x) == s
  {
    var t := s + [x];
    assert Toggle(s, x) == t && x in t;
    assert NoDup(t);
    DeleteAt(t, |s|);
    assert t[..|s|] == s;
  }

  /**
   * Deselecting a selected symptom and selecting it again gives back the same
   * members, but the symptom moves to the end of the insertion order.
   */
  lemma ToggleTwiceFromPresent(s: seq<string>, k: nat)
    requires NoDup(s) && k < |s|
    ensures Toggle(Toggle(s, s[k]), s[k]) == s[..k] + s[k + 1..] + [s[k]]
    ensures forall y :: y in Toggle(Toggle(s, s[k]), s[k]) <==> y in s
  {
    var x := s[k];
    DeleteAt(s, k);
    DeleteMembers(s, x);
  }
}
