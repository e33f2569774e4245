/** Sequence operations that several modules share. */
module Sequences {
  function Front<T>(s: seq<T>): seq<T>
    requires s != []
  {
    s[..|s| - 1]
  }

  function Last<T>(s: seq<T>): T
    requires s != []
  {
    s[|s| - 1]
  }

  function Concat<T>(chunks: seq<seq<T>>): seq<T> {
    if chunks == [] then [] else Concat(Front(chunks)) + Last(chunks)
  }

  /** No element occurs twice. */
  ghost predicate Distinct<T>(s: seq<T>) {
    forall i, j :: 0 <= i < j < |s| ==> s[i] != s[j]
  }

  ghost predicate Ascending(at: seq<nat>) {
    forall i, j :: 0 <= i < j < |at| ==> at[i] < at[j]
  }

  lemma NothingAscends()
    ensures Ascending([])
  {
  }

  lemma AscendingNext(at: seq<nat>, n: nat)
    requires Ascending(at) && forall x :: x in at ==> x < n
    ensures Ascending(at + [n])
    ensures forall x :: x in at + [n] <==> x in at || x == n
  {
    assert forall i :: 0 <= i < |at| ==> at[i] in at;
  }

  /** The element at i does not occur before. */
  ghost predicate FirstAt<T>(s: seq<T>, i: nat) {
    i < |s| && forall j :: 0 <= j < i ==> s[j] != s[i]
  }

  lemma FirstAtInFront<T>(s: seq<T>)
    requires s != []
    ensures forall i: nat :: i < |s| - 1 ==> (FirstAt(s, i) <==> FirstAt(Front(s), i))
    ensures FirstAt(s, |s| - 1) <==> Last(s) !in Front(s)
  {
    if Last(s) in Front(s) {
      var j :| 0 <= j < |s| - 1 && Front(s)[j] == Last(s);
      assert s[j] == s[|s| - 1];
    }
  }

  lemma LastIsGreatest(a: seq<nat>)
    requires a != [] && Ascending(a)
    ensures Last(a) in a && Ascending(Front(a))
    ensures forall x :: x in a ==> x <= Last(a)
    ensures forall x :: x in Front(a) <==> x in a && x != Last(a)
  {
    assert a == Front(a) + [Last(a)];
  }

  lemma HasElement(a: seq<nat>)
    ensures a != [] <==> exists x :: x in a
  {
    if a != [] {
      assert a[0] in a;
    }
  }

  /** A set of indices is listed in ascending order in one way only. */
  lemma {:induction false} OneListing(a: seq<nat>, b: seq<nat>)
    requires Ascending(a) && Ascending(b)
    requires forall x :: x in a <==> x in b
    ensures a == b
  {
    hide Ascending;
    HasElement(a);
    HasElement(b);
    if a != [] {
      LastIsGreatest(a);
      LastIsGreatest(b);
      assert Last(a) == Last(b);
      OneListing(Front(a), Front(b));
      assert a == Front(a) + [Last(a)] && b == Front(b) + [Last(b)];
    }
  }
}
