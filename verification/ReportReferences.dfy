/**
 The bibliography of docs/report/src/build.py and the citations that point into it. Every file
 has references under local numbers; references with one key share one bibliography number, and
 the bibliography only grows. `refKey` is ref_key.
 */
module ReportReferences {
  import opened Options
  import opened Sequences

  /** The bibliography and its index: one entry for each key, numbered from 1. */
  ghost predicate Indexed(order: seq<string>, index: map<string, nat>, refKey: string -> string) {
    && (forall k :: k in index ==> 1 <= index[k] <= |order| && refKey(order[index[k] - 1]) == k)
    && (forall i :: 0 <= i < |order| ==> refKey(order[i]) in index && index[refKey(order[i])] == i + 1)
  }

  /** The text of local reference n; a dictionary has one for each number. */
  function TextOf(refs: seq<(int, string)>, n: int): (text: Option<string>)
    ensures text.Some? ==> (n, text.value) in refs
    ensures text.None? ==> forall r :: r in refs ==> r.0 != n
  {
    if refs == [] then None
    else
      var last := Last(refs);
      if last.0 == n then Some(last.1) else TextOf(Front(refs), n)
  }

  /** The local numbers of a file's references, mapped to the bibliography. */
  ghost predicate Local(localMap: map<int, nat>, refs: seq<(int, string)>, index: map<string, nat>,
                        refKey: string -> string)
  {
    forall n :: if TextOf(refs, n).Some?
                then n in localMap && refKey(TextOf(refs, n).value) in index
                     && localMap[n] == index[refKey(TextOf(refs, n).value)]
                else n !in localMap
  }

  predicate HasKey(order: seq<string>, key: string, refKey: string -> string) {
    exists i :: 0 <= i < |order| && refKey(order[i]) == key
  }

  /** The bibliography after one more file: a reference is added when its key is new. */
  function Deduped(order: seq<string>, refs: seq<(int, string)>, refKey: string -> string): seq<string> {
    if refs == [] then order
    else
      var before, text := Deduped(order, Front(refs), refKey), Last(refs).1;
      if HasKey(before, refKey(text), refKey) then before else before + [text]
  }

  // ---------------------------------------------------------------- citations

  function Insert(s: seq<nat>, n: nat): (r: seq<nat>)
    requires Ascending(s)
    ensures Ascending(r) && forall x :: x in r <==> x in s || x == n
  {
    if s == [] then [n]
    else
      var front, last := Front(s), Last(s);
      assert s == front + [last];
      if n == last then s
      else if n > last then s + [n]
      else
        var more := Insert(front, n);
        assert forall i :: 0 <= i < |front| ==> front[i] < last;
        assert forall i :: 0 <= i < |more| ==> more[i] in more && (more[i] in front || more[i] == n);
        more + [last]
  }

  /** Python's sorted(set(s)). */
  function SortedSet(s: seq<nat>): (r: seq<nat>)
    ensures Ascending(r) && forall x :: x in r <==> x in s
  {
    if s == [] then []
    else
      assert s == Front(s) + [Last(s)];
      Insert(SortedSet(Front(s)), Last(s))
  }

  /** The keys of the references that one bracket cites; a number without a reference cites
      nothing. */
  function CitedKeys(refs: seq<(int, string)>, nums: seq<int>, refKey: string -> string): set<string> {
    set n | n in nums && TextOf(refs, n).Some? :: refKey(TextOf(refs, n).value)
  }

  function Unresolved(refs: seq<(int, string)>, nums: seq<int>): nat {
    if nums == [] then 0
    else Unresolved(refs, Front(nums)) + (if TextOf(refs, Last(nums)).None? then 1 else 0)
  }

  lemma UnresolvedNext(refs: seq<(int, string)>, nums: seq<int>, i: nat)
    requires i < |nums|
    ensures Unresolved(refs, nums[..i + 1]) ==
            Unresolved(refs, nums[..i]) + (if TextOf(refs, nums[i]).None? then 1 else 0)
  {
    hide TextOf;
    assert Front(nums[..i + 1]) == nums[..i];
  }

  /** The numbers without a reference are counted once for each place where they stand. */
  lemma {:induction false} UnresolvedCount(refs: seq<(int, string)>, nums: seq<int>) returns (at: seq<nat>)
    ensures Ascending(at) && |at| == Unresolved(refs, nums)
    ensures forall i: nat :: i in at <==> i < |nums| && TextOf(refs, nums[i]).None?
  {
    hide Ascending;
    hide TextOf;
    at := [];
    if nums == [] {
      NothingAscends();
    } else {
      var n := |nums| - 1;
      var before := UnresolvedCount(refs, Front(nums));
      assert Unresolved(refs, nums) == Unresolved(refs, Front(nums)) + (if TextOf(refs, nums[n]).None? then 1 else 0);
      hide Unresolved;
      AscendingNext(before, n);
      at := if TextOf(refs, nums[n]).None? then before + [n] else before;
      forall i: nat ensures i in at <==> i < |nums| && TextOf(refs, nums[i]).None? {
        if i < n {
          assert Front(nums)[i] == nums[i];
        }
      }
    }
  }

  /** The key of the reference that a bibliography number names. */
  function KeyAt(order: seq<string>, n: nat, refKey: string -> string): Option<string> {
    if 1 <= n <= |order| then Some(refKey(order[n - 1])) else None
  }

  /** The numbers printed for a bracket, in ascending order, name exactly the references of the
      given keys. */
  ghost predicate CitesExactly(order: seq<string>, numbers: seq<nat>, keys: set<string>, refKey: string -> string) {
    && Ascending(numbers)
    && (forall n :: n in numbers ==> KeyAt(order, n, refKey).Some? && KeyAt(order, n, refKey).value in keys)
    && (forall k :: k in keys ==> exists n :: n in numbers && KeyAt(order, n, refKey) == Some(k))
  }

  ghost predicate AllExact(order: seq<string>, citations: seq<seq<nat>>, keys: seq<set<string>>,
                           refKey: string -> string)
  {
    && |citations| == |keys|
    && forall b :: 0 <= b < |keys| ==> CitesExactly(order, citations[b], keys[b], refKey)
  }

  lemma ExactAppends(order: seq<string>, a: seq<seq<nat>>, b: seq<seq<nat>>, keysA: seq<set<string>>,
                     keysB: seq<set<string>>, refKey: string -> string)
    requires AllExact(order, a, keysA, refKey) && AllExact(order, b, keysB, refKey)
    ensures AllExact(order, a + b, keysA + keysB, refKey)
  {
  }

  lemma KeyAtStays(order: seq<string>, order': seq<string>, n: nat, refKey: string -> string)
    requires order <= order' && KeyAt(order, n, refKey).Some?
    ensures KeyAt(order', n, refKey) == KeyAt(order, n, refKey)
  {
  }

  lemma OneExactStays(order: seq<string>, order': seq<string>, numbers: seq<nat>, keys: set<string>,
                      refKey: string -> string)
    requires order <= order' && CitesExactly(order, numbers, keys, refKey)
    ensures CitesExactly(order', numbers, keys, refKey)
  {
    hide Ascending;
    hide KeyAt;
    forall n | n in numbers ensures KeyAt(order', n, refKey) == KeyAt(order, n, refKey) {
      KeyAtStays(order, order', n, refKey);
    }
  }

  /** A number that was printed names the same reference when the bibliography has grown. */
  lemma ExactStays(order: seq<string>, order': seq<string>, citations: seq<seq<nat>>, keys: seq<set<string>>,
                   refKey: string -> string)
    requires order <= order' && AllExact(order, citations, keys, refKey)
    ensures AllExact(order', citations, keys, refKey)
  {
    hide CitesExactly;
    forall b | 0 <= b < |keys| ensures CitesExactly(order', citations[b], keys[b], refKey) {
      OneExactStays(order, order', citations[b], keys[b], refKey);
    }
  }

  /** The brackets printed since `base`, and those printed next with a bibliography that has grown. */
  lemma ExactGrows(base: nat, order: seq<string>, order': seq<string>, citations: seq<seq<nat>>,
                   citations': seq<seq<nat>>, keys: seq<set<string>>, more: seq<set<string>>, refKey: string -> string)
    requires order <= order' && base <= |citations| && citations <= citations'
    requires AllExact(order, citations[base..], keys, refKey)
    requires AllExact(order', citations'[|citations|..], more, refKey)
    ensures AllExact(order', citations'[base..], keys + more, refKey)
  {
    hide AllExact;
    ExactStays(order, order', citations[base..], keys, refKey);
    ExactAppends(order', citations[base..], citations'[|citations|..], keys, more, refKey);
    assert citations'[base..] == citations[base..] + citations'[|citations|..];
  }

  /** What a printed number names, on the references themselves. */
  lemma ExactOnRefs(order: seq<string>, refs: seq<(int, string)>, nums: seq<int>, numbers: seq<nat>,
                    refKey: string -> string)
    requires CitesExactly(order, numbers, CitedKeys(refs, nums, refKey), refKey)
    ensures forall i, j :: 0 <= i < j < |numbers| ==> numbers[i] < numbers[j]
    ensures forall g :: g in numbers ==>
              && 1 <= g <= |order|
              && exists r :: r in refs && r.0 in nums && refKey(r.1) == refKey(order[g - 1])
    ensures forall n, r :: n in nums && r in refs && r.0 == n && TextOf(refs, n) == Some(r.1) ==>
              exists g :: g in numbers && KeyAt(order, g, refKey) == Some(refKey(r.1))
  {
    hide TextOf;
    forall g | g in numbers
      ensures 1 <= g <= |order| && exists r :: r in refs && r.0 in nums && refKey(r.1) == refKey(order[g - 1])
    {
      var n := CitedBy(refs, nums, refKey, KeyAt(order, g, refKey).value);
      assert (n, TextOf(refs, n).value) in refs;
    }
    forall n, r | n in nums && r in refs && r.0 == n && TextOf(refs, n) == Some(r.1)
      ensures exists g :: g in numbers && KeyAt(order, g, refKey) == Some(refKey(r.1))
    {
      assert refKey(r.1) in CitedKeys(refs, nums, refKey);
    }
  }

  /** The bibliography numbers of the references that a bracket cites. */
  ghost predicate Finds(found: seq<nat>, localMap: map<int, nat>, nums: seq<int>) {
    && (forall g :: g in found ==> exists n :: n in nums && n in localMap && localMap[n] == g)
    && (forall n :: n in nums && n in localMap ==> localMap[n] in found)
  }

  lemma FindsNext(found: seq<nat>, localMap: map<int, nat>, nums: seq<int>, n: int)
    requires Finds(found, localMap, nums)
    ensures Finds(if n in localMap then found + [localMap[n]] else found, localMap, nums + [n])
  {
    var more := if n in localMap then found + [localMap[n]] else found;
    forall g | g in more ensures exists m :: m in nums + [n] && m in localMap && localMap[m] == g {
      if g in found {
        var m :| m in nums && m in localMap && localMap[m] == g;
        assert m in nums + [n];
      } else {
        assert n in nums + [n] && localMap[n] == g;
      }
    }
  }

  lemma FoundIsExact(order: seq<string>, index: map<string, nat>, localMap: map<int, nat>,
                     refs: seq<(int, string)>, nums: seq<int>, found: seq<nat>, refKey: string -> string)
    requires Indexed(order, index, refKey) && Local(localMap, refs, index, refKey) && Finds(found, localMap, nums)
    ensures CitesExactly(order, SortedSet(found), CitedKeys(refs, nums, refKey), refKey)
  {
    hide TextOf;
    hide Ascending;
    hide SortedSet;
    hide Indexed;
    hide Local;
    hide CitedKeys;
    var numbers, keys := SortedSet(found), CitedKeys(refs, nums, refKey);
    hide KeyAt;
    forall g | g in numbers ensures KeyAt(order, g, refKey).Some? && KeyAt(order, g, refKey).value in keys {
      var n :| n in nums && n in localMap && localMap[n] == g;
      LocalNames(order, index, localMap, refs, nums, n, refKey);
    }
    forall k | k in keys ensures exists g :: g in numbers && KeyAt(order, g, refKey) == Some(k) {
      var n := CitedBy(refs, nums, refKey, k);
      LocalNames(order, index, localMap, refs, nums, n, refKey);
      assert localMap[n] in found;
    }
  }

  lemma CitedBy(refs: seq<(int, string)>, nums: seq<int>, refKey: string -> string, k: string) returns (n: int)
    requires k in CitedKeys(refs, nums, refKey)
    ensures n in nums && TextOf(refs, n).Some? && refKey(TextOf(refs, n).value) == k
  {
    n :| n in nums && TextOf(refs, n).Some? && refKey(TextOf(refs, n).value) == k;
  }

  /** The bibliography number of a local reference names that reference. */
  lemma LocalNames(order: seq<string>, index: map<string, nat>, localMap: map<int, nat>, refs: seq<(int, string)>,
                   nums: seq<int>, n: int, refKey: string -> string)
    requires Indexed(order, index, refKey) && Local(localMap, refs, index, refKey)
    requires n in nums && (n in localMap || TextOf(refs, n).Some?)
    ensures n in localMap && TextOf(refs, n).Some?
    ensures KeyAt(order, localMap[n], refKey) == Some(refKey(TextOf(refs, n).value))
    ensures refKey(TextOf(refs, n).value) in CitedKeys(refs, nums, refKey)
  {
    hide TextOf;
    assert n in localMap <==> TextOf(refs, n).Some?;
  }

  lemma IndexedNext(order: seq<string>, index: map<string, nat>, refKey: string -> string, text: string)
    requires Indexed(order, index, refKey) && refKey(text) !in index
    ensures Indexed(order + [text], index[refKey(text) := |order| + 1], refKey)
  {
  }

  lemma KeyIndexed(order: seq<string>, index: map<string, nat>, refKey: string -> string, key: string)
    requires Indexed(order, index, refKey)
    ensures key in index <==> HasKey(order, key, refKey)
  {
    if key in index {
      assert refKey(order[index[key] - 1]) == key;
    }
  }

  lemma KeyStays(order: seq<string>, order': seq<string>, key: string, refKey: string -> string)
    requires order <= order' && HasKey(order, key, refKey)
    ensures HasKey(order', key, refKey)
  {
    var i :| 0 <= i < |order| && refKey(order[i]) == key;
    assert order'[i] == order[i];
  }

  lemma LastIsKnown(order: seq<string>, refs: seq<(int, string)>, refKey: string -> string)
    requires refs != []
    ensures Deduped(order, Front(refs), refKey) <= Deduped(order, refs, refKey)
    ensures HasKey(Deduped(order, refs, refKey), refKey(Last(refs).1), refKey)
  {
    var before, after := Deduped(order, Front(refs), refKey), Deduped(order, refs, refKey);
    assert |after| > |before| ==> after[|before|] == Last(refs).1;
  }

  /** Every reference's key is in the bibliography from then on. */
  lemma {:induction false} DedupedKnows(order: seq<string>, refs: seq<(int, string)>, refKey: string -> string, i: nat)
    requires i < |refs|
    ensures HasKey(Deduped(order, refs, refKey), refKey(refs[i].1), refKey)
  {
    hide Deduped;
    hide HasKey;
    LastIsKnown(order, refs, refKey);
    if i < |refs| - 1 {
      DedupedKnows(order, Front(refs), refKey, i);
      KeyStays(Deduped(order, Front(refs), refKey), Deduped(order, refs, refKey), refKey(refs[i].1), refKey);
    }
  }

  /** New references are numbered in the order in which the file names them. */
  lemma {:induction false} DedupedInOrder(order: seq<string>, refs: seq<(int, string)>, refKey: string -> string)
    returns (at: seq<nat>)
    ensures Ascending(at) && |Deduped(order, refs, refKey)| == |order| + |at|
    ensures forall j :: 0 <= j < |at| ==>
              && at[j] < |refs| && Deduped(order, refs, refKey)[|order| + j] == refs[at[j]].1
              && forall i :: 0 <= i < at[j] ==> refKey(refs[i].1) != refKey(refs[at[j]].1)
  {
    hide Ascending;
    hide HasKey;
    at := [];
    if refs == [] {
      NothingAscends();
    } else {
      var n := |refs| - 1;
      var before := Deduped(order, Front(refs), refKey);
      at := DedupedInOrder(order, Front(refs), refKey);
      assert forall x :: x in at ==> x < n;
      if !HasKey(before, refKey(refs[n].1), refKey) {
        AscendingNext(at, n);
        forall i | 0 <= i < n ensures refKey(refs[i].1) != refKey(refs[n].1) {
          DedupedKnows(order, Front(refs), refKey, i);
        }
        at := at + [n];
      }
    }
  }

  /** Deduplication loses no reference, invents none and repeats none. */
  lemma {:induction false} DedupedKeys(order: seq<string>, refs: seq<(int, string)>, refKey: string -> string)
    requires forall i, j :: 0 <= i < j < |order| ==> refKey(order[i]) != refKey(order[j])
    ensures var after := Deduped(order, refs, refKey);
            && order <= after
            && (forall i, j :: 0 <= i < j < |after| ==> refKey(after[i]) != refKey(after[j]))
            && (forall i :: |order| <= i < |after| ==> exists r :: r in refs && r.1 == after[i])
            && (forall r :: r in refs ==> HasKey(after, refKey(r.1), refKey))
  {
    if refs != [] {
      var n := |refs| - 1;
      DedupedKeys(order, refs[..n], refKey);
      assert refs == refs[..n] + [refs[n]];
      var before, after := Deduped(order, refs[..n], refKey), Deduped(order, refs, refKey);
      assert refs[n] in refs;
      forall r | r in refs ensures HasKey(after, refKey(r.1), refKey) {
        if r in refs[..n] {
          var i :| 0 <= i < |before| && refKey(before[i]) == refKey(r.1);
          assert refKey(after[i]) == refKey(r.1);
        } else if |after| > |before| {
          assert refKey(after[|before|]) == refKey(r.1);
        }
      }
    }
  }

  lemma NothingFound(localMap: map<int, nat>)
    ensures Finds([], localMap, [])
  {
  }

  lemma LocalKnows(localMap: map<int, nat>, refs: seq<(int, string)>, index: map<string, nat>,
                   refKey: string -> string, n: int)
    requires Local(localMap, refs, index, refKey)
    ensures n in localMap <==> TextOf(refs, n).Some?
  {
    hide TextOf;
  }

  lemma LocalNone(index: map<string, nat>, refKey: string -> string)
    ensures Local(map[], [], index, refKey)
  {
  }

  lemma LocalNext(localMap: map<int, nat>, refs: seq<(int, string)>, i: nat,
                  index: map<string, nat>, index': map<string, nat>, refKey: string -> string)
    requires i < |refs| && Local(localMap, refs[..i], index, refKey) && refKey(refs[i].1) in index'
    requires forall k :: k in index ==> k in index' && index'[k] == index[k]
    ensures Local(localMap[refs[i].0 := index'[refKey(refs[i].1)]], refs[..i + 1], index', refKey)
  {
    assert refs[..i + 1][..i] == refs[..i] && refs[..i + 1][i] == refs[i];
    forall n ensures TextOf(refs[..i + 1], n) == if n == refs[i].0 then Some(refs[i].1) else TextOf(refs[..i], n) {
    }
  }

  lemma NoRefsYet(refKey: string -> string)
    ensures Indexed([], map[], refKey)
  {
  }

  lemma DistinctKeys(order: seq<string>, index: map<string, nat>, refKey: string -> string)
    requires Indexed(order, index, refKey)
    ensures forall i, j :: 0 <= i < j < |order| ==> refKey(order[i]) != refKey(order[j])
  {
  }
}
