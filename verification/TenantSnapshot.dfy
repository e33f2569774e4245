/**
 The loop-built parts of server/src/backup/tenant-snapshot.ts, `buildTenantSnapshot`: children
 grouped under their parents, the shifts split into the open drawer and the history, and
 unknown stores carried forward from tenant_meta.
 */
module TenantSnapshot {
  import opened Options
  import opened Sequences

  // ---------------------------------------------------------------- grouping

  /** The rows of one parent, in query order. */
  function ChildrenOf<T>(rows: seq<T>, parentOf: T -> string, parent: string): seq<T> {
    if rows == [] then []
    else
      var last := Last(rows);
      ChildrenOf(Front(rows), parentOf, parent) + (if parentOf(last) == parent then [last] else [])
  }

  /** The rows that have a parent among the given ones, in query order. */
  function WithParent<T>(rows: seq<T>, parentOf: T -> string, parents: seq<string>): seq<T> {
    if rows == [] then []
    else
      var last := Last(rows);
      WithParent(Front(rows), parentOf, parents) + (if parentOf(last) in parents then [last] else [])
  }

  /** The rows of a parent by their places in the query: all of them, each once, in order. */
  lemma {:induction false} ChildrenAt<T>(rows: seq<T>, parentOf: T -> string, parent: string) returns (at: seq<nat>)
    ensures |at| == |ChildrenOf(rows, parentOf, parent)|
    ensures Ascending(at)
    ensures forall j :: 0 <= j < |at| ==> at[j] < |rows| && ChildrenOf(rows, parentOf, parent)[j] == rows[at[j]]
    ensures forall i: nat :: i in at <==> i < |rows| && parentOf(rows[i]) == parent
  {
    hide Ascending;
    at := [];
    if rows == [] {
      NothingAscends();
    } else {
      var n := |rows| - 1;
      var before := ChildrenAt(Front(rows), parentOf, parent);
      assert ChildrenOf(rows, parentOf, parent) ==
             ChildrenOf(Front(rows), parentOf, parent) + (if parentOf(rows[n]) == parent then [rows[n]] else []);
      hide ChildrenOf;
      AscendingNext(before, n);
      at := if parentOf(rows[n]) == parent then before + [n] else before;
      forall i: nat ensures i in at <==> i < |rows| && parentOf(rows[i]) == parent {
        if i < n {
          assert Front(rows)[i] == rows[i];
        }
      }
      forall j | 0 <= j < |at| ensures at[j] < |rows| && ChildrenOf(rows, parentOf, parent)[j] == rows[at[j]] {
        if j < |before| {
          assert Front(rows)[before[j]] == rows[before[j]];
        }
      }
    }
  }

  /** The rows that have a parent, in query order. */
  lemma {:induction false} WithParentAt<T>(rows: seq<T>, parentOf: T -> string, parents: seq<string>)
    returns (at: seq<nat>)
    ensures |at| == |WithParent(rows, parentOf, parents)|
    ensures Ascending(at)
    ensures forall j :: 0 <= j < |at| ==> at[j] < |rows| && WithParent(rows, parentOf, parents)[j] == rows[at[j]]
    ensures forall i: nat :: i in at <==> i < |rows| && parentOf(rows[i]) in parents
  {
    hide Ascending;
    at := [];
    if rows == [] {
      NothingAscends();
    } else {
      var n := |rows| - 1;
      var before := WithParentAt(Front(rows), parentOf, parents);
      assert WithParent(rows, parentOf, parents) ==
             WithParent(Front(rows), parentOf, parents) + (if parentOf(rows[n]) in parents then [rows[n]] else []);
      hide WithParent;
      AscendingNext(before, n);
      at := if parentOf(rows[n]) in parents then before + [n] else before;
      forall i: nat ensures i in at <==> i < |rows| && parentOf(rows[i]) in parents {
        if i < n {
          assert Front(rows)[i] == rows[i];
        }
      }
      forall j | 0 <= j < |at| ensures at[j] < |rows| && WithParent(rows, parentOf, parents)[j] == rows[at[j]] {
        if j < |before| {
          assert Front(rows)[before[j]] == rows[before[j]];
        }
      }
    }
  }

  /** The Map-building loop: saleItemsBySale, entriesByShift and their like. */
  method GroupByParent<T>(rows: seq<T>, parentOf: T -> string) returns (groups: map<string, seq<T>>)
    ensures forall k :: k in groups <==> ChildrenOf(rows, parentOf, k) != []
    ensures forall k :: k in groups ==> groups[k] == ChildrenOf(rows, parentOf, k)
    ensures IsGrouping(groups, rows, parentOf)
  {
    groups := map[];
    for i := 0 to |rows|
      invariant forall k :: k in groups <==> ChildrenOf(rows[..i], parentOf, k) != []
      invariant forall k :: k in groups ==> groups[k] == ChildrenOf(rows[..i], parentOf, k)
    {
      assert rows[..i + 1][..i] == rows[..i];
      var k := parentOf(rows[i]);
      var list := if k in groups then groups[k] else [];
      groups := groups[k := list + [rows[i]]];
    }
    assert rows[..|rows|] == rows;
  }

  /** What the parents' `items` hold together: `groups.get(id) ?? []` for each parent. */
  function Attached<T>(groups: map<string, seq<T>>, parents: seq<string>): seq<T> {
    if parents == [] then []
    else
      var last := Last(parents);
      Attached(groups, Front(parents)) + (if last in groups then groups[last] else [])
  }

  ghost predicate IsGrouping<T>(groups: map<string, seq<T>>, rows: seq<T>, parentOf: T -> string) {
    forall k :: (if k in groups then groups[k] else []) == ChildrenOf(rows, parentOf, k)
  }

  function Together<T>(rows: seq<T>, parentOf: T -> string, parents: seq<string>): multiset<T> {
    if parents == [] then multiset{}
    else Together(rows, parentOf, Front(parents)) +
         multiset(ChildrenOf(rows, parentOf, Last(parents)))
  }

  lemma {:induction false} AttachedTogether<T>(groups: map<string, seq<T>>, rows: seq<T>, parentOf: T -> string,
                                               parents: seq<string>)
    requires IsGrouping(groups, rows, parentOf)
    ensures multiset(Attached(groups, parents)) == Together(rows, parentOf, parents)
  {
    if parents != [] {
      AttachedTogether(groups, rows, parentOf, Front(parents));
    }
  }

  lemma OneMoreChild<T>(rows: seq<T>, row: T, parentOf: T -> string, parent: string)
    ensures multiset(ChildrenOf(rows + [row], parentOf, parent)) ==
            multiset(ChildrenOf(rows, parentOf, parent)) +
            (if parentOf(row) == parent then multiset{row} else multiset{})
  {
    assert (rows + [row])[..|rows|] == rows;
  }

  lemma InFront(parents: seq<string>, p: string)
    requires parents != [] && Distinct(parents)
    ensures p in parents <==> p in Front(parents) || p == Last(parents)
    ensures p == Last(parents) ==> p !in Front(parents)
  {
    assert parents == Front(parents) + [Last(parents)];
  }

  lemma {:induction false} OneMoreRow<T>(rows: seq<T>, row: T, parentOf: T -> string, parents: seq<string>)
    requires Distinct(parents)
    ensures Together(rows + [row], parentOf, parents) ==
            Together(rows, parentOf, parents) + (if parentOf(row) in parents then multiset{row} else multiset{})
  {
    hide ChildrenOf;
    if parents != [] {
      var n := |parents| - 1;
      OneMoreRow(rows, row, parentOf, parents[..n]);
      OneMoreChild(rows, row, parentOf, parents[n]);
      InFront(parents, parentOf(row));
    }
  }

  lemma {:induction false} NoRows<T>(parentOf: T -> string, parents: seq<string>)
    ensures Together<T>([], parentOf, parents) == multiset{}
  {
    if parents != [] {
      NoRows(parentOf, Front(parents));
    }
  }

  lemma {:induction false} TogetherIsWithParent<T>(rows: seq<T>, parentOf: T -> string, parents: seq<string>)
    requires Distinct(parents)
    ensures Together(rows, parentOf, parents) == multiset(WithParent(rows, parentOf, parents))
  {
    if rows == [] {
      NoRows(parentOf, parents);
    } else {
      hide Together;
      TogetherIsWithParent(Front(rows), parentOf, parents);
      OneMoreRow(Front(rows), Last(rows), parentOf, parents);
      assert rows == Front(rows) + [Last(rows)];
    }
  }

  /** The parents' items are together exactly the rows that have a parent, each once; so under
      referential integrity every child row is exported exactly once. */
  lemma EveryChildOnce<T>(groups: map<string, seq<T>>, rows: seq<T>, parentOf: T -> string, parents: seq<string>)
    requires IsGrouping(groups, rows, parentOf) && Distinct(parents)
    ensures multiset(Attached(groups, parents)) == multiset(WithParent(rows, parentOf, parents))
    ensures multiset(Attached(groups, parents)) == multiset(rows) <==> forall r :: r in rows ==> parentOf(r) in parents
  {
    AttachedTogether(groups, rows, parentOf, parents);
    TogetherIsWithParent(rows, parentOf, parents);
    NoneLost(rows, parentOf, parents);
  }

  lemma {:induction false} KeptHaveParent<T>(rows: seq<T>, parentOf: T -> string, parents: seq<string>)
    ensures forall r :: r in WithParent(rows, parentOf, parents) ==> parentOf(r) in parents
  {
    if rows != [] {
      KeptHaveParent(Front(rows), parentOf, parents);
    }
  }

  lemma OneMoreKept<T>(rows: seq<T>, parentOf: T -> string, parents: seq<string>)
    requires rows != [] && parentOf(Last(rows)) in parents
    requires WithParent(Front(rows), parentOf, parents) == Front(rows)
    ensures WithParent(rows, parentOf, parents) == rows
  {
    assert rows == Front(rows) + [Last(rows)];
  }

  lemma {:induction false} AllKept<T>(rows: seq<T>, parentOf: T -> string, parents: seq<string>)
    requires forall r :: r in rows ==> parentOf(r) in parents
    ensures WithParent(rows, parentOf, parents) == rows
  {
    if rows != [] {
      hide WithParent;
      assert forall r :: r in Front(rows) ==> r in rows;
      AllKept(Front(rows), parentOf, parents);
      assert Last(rows) in rows;
      OneMoreKept(rows, parentOf, parents);
    }
  }

  lemma NoneLost<T>(rows: seq<T>, parentOf: T -> string, parents: seq<string>)
    ensures multiset(WithParent(rows, parentOf, parents)) == multiset(rows) <==>
              forall r :: r in rows ==> parentOf(r) in parents
  {
    hide WithParent;
    var kept := WithParent(rows, parentOf, parents);
    KeptHaveParent(rows, parentOf, parents);
    if forall r :: r in rows ==> parentOf(r) in parents {
      AllKept(rows, parentOf, parents);
    }
    forall r | r in rows && multiset(kept) == multiset(rows) ensures parentOf(r) in parents {
      assert r in multiset(rows);
      assert r in multiset(kept);
    }
  }

  // ---------------------------------------------------------------- shifts

  /** The shift split: the first active shift is the open drawer, every other one is history. */
  method SplitShifts<S>(shifts: seq<S>, isActive: S -> bool) returns (cashDrawer: Option<S>, history: seq<S>)
    ensures cashDrawer.None? ==> history == shifts && forall s :: s in shifts ==> !isActive(s)
    ensures cashDrawer.Some? ==>
              exists i :: 0 <= i < |shifts| && isActive(shifts[i]) && cashDrawer.value == shifts[i]
                          && (forall j :: 0 <= j < i ==> !isActive(shifts[j]))
                          && history == shifts[..i] + shifts[i + 1..]
    ensures |history| + (if cashDrawer.Some? then 1 else 0) == |shifts|
  {
    cashDrawer, history := None, [];
    ghost var at := 0;
    for i := 0 to |shifts|
      invariant cashDrawer.None? ==> history == shifts[..i] && forall j :: 0 <= j < i ==> !isActive(shifts[j])
      invariant cashDrawer.Some? ==>
                  && 0 <= at < i && isActive(shifts[at]) && cashDrawer.value == shifts[at]
                  && (forall j :: 0 <= j < at ==> !isActive(shifts[j]))
                  && history == shifts[..at] + shifts[at + 1..i]
    {
      if isActive(shifts[i]) && cashDrawer.None? {
        cashDrawer := Some(shifts[i]);
        at := i;
      } else {
        history := history + [shifts[i]];
      }
    }
  }

  // ---------------------------------------------------------------- unknown stores

  const UNKNOWN_STORE: string := "unknownstore:"

  /** What JavaScript's `in` finds on every object besides its own keys. */
  const INHERITED: set<string> :=
    {"constructor", "hasOwnProperty", "isPrototypeOf", "propertyIsEnumerable", "toLocaleString", "toString",
     "valueOf", "__proto__", "__defineGetter__", "__defineSetter__", "__lookupGetter__", "__lookupSetter__"}

  datatype Value<+J> = Parsed(json: J) | Raw(text: string)

  datatype MetaRow = MetaRow(key: string, value: string) {
    function StoreKey(): Option<string> {
      if UNKNOWN_STORE <= key && |key| > |UNKNOWN_STORE| then Some(key[|UNKNOWN_STORE|..]) else None
    }
  }

  function ValueOf<J>(row: MetaRow, parse: string -> Option<J>): Value<J> {
    var json := parse(row.value);
    if json.Some? then Parsed(json.value) else Raw(row.value)
  }

  /** A known store or a name that `in` finds anyway is passed over. */
  function CarryRow<J>(out: map<string, Value<J>>, row: MetaRow, parse: string -> Option<J>): map<string, Value<J>> {
    var saKey := row.StoreKey();
    if saKey.Some? && saKey.value !in out && saKey.value !in INHERITED
    then out[saKey.value := ValueOf(row, parse)]
    else out
  }

  /** The export with the unknown stores carried forward. */
  function Carried<J>(snapshot: map<string, Value<J>>, rows: seq<MetaRow>, parse: string -> Option<J>):
    map<string, Value<J>>
  {
    if rows == [] then snapshot else CarryRow(Carried(snapshot, Front(rows), parse), Last(rows), parse)
  }

  /** Row i is the first one that brings store k. */
  ghost predicate FirstFor(rows: seq<MetaRow>, k: string, i: nat) {
    i < |rows| && rows[i].StoreKey() == Some(k) && forall j :: 0 <= j < i ==> rows[j].StoreKey() != Some(k)
  }

  /** Known stores are never overwritten, and an unknown store is exported, with the value of the
      first row that names it, if and only if its name is not one that every object has. */
  lemma {:induction false} CarriedExactly<J>(snapshot: map<string, Value<J>>, rows: seq<MetaRow>,
                                             parse: string -> Option<J>, k: string)
    ensures var out := Carried(snapshot, rows, parse);
            && (k in snapshot ==> k in out && out[k] == snapshot[k])
            && (k !in snapshot ==> (k in out <==> k !in INHERITED && exists i: nat :: FirstFor(rows, k, i)))
            && (k !in snapshot && k in out ==>
                  exists i: nat :: FirstFor(rows, k, i) && out[k] == ValueOf(rows[i], parse))
  {
    hide INHERITED;
    hide ValueOf;
    if rows != [] {
      var n := |rows| - 1;
      CarriedExactly(snapshot, Front(rows), parse, k);
      forall i: nat ensures FirstFor(Front(rows), k, i) ==> FirstFor(rows, k, i)
                    ensures FirstFor(rows, k, i) && i < n ==> FirstFor(Front(rows), k, i)
      {
      }
      if !exists i: nat :: FirstFor(Front(rows), k, i) {
        NoRowFor(Front(rows), k);
        assert rows[n].StoreKey() == Some(k) ==> FirstFor(rows, k, n);
      }
    }
  }

  lemma {:induction false} NoRowFor(rows: seq<MetaRow>, k: string)
    requires forall i: nat :: !FirstFor(rows, k, i)
    ensures forall j :: 0 <= j < |rows| ==> rows[j].StoreKey() != Some(k)
  {
    if rows != [] {
      forall i: nat ensures !FirstFor(Front(rows), k, i) {
        assert !FirstFor(rows, k, i);
      }
      NoRowFor(Front(rows), k);
      assert !FirstFor(rows, k, |rows| - 1);
    }
  }

  lemma StoreKeyIs(row: MetaRow, k: string)
    ensures row.StoreKey() == Some(k) <==> k != [] && row.key == "unknownstore:" + k
  {
    assert ("unknownstore:" + k)[|UNKNOWN_STORE|..] == k;
    if row.StoreKey() == Some(k) {
      assert row.key == row.key[..|UNKNOWN_STORE|] + row.key[|UNKNOWN_STORE|..];
    }
  }

  /** The same law on the rows themselves, with the exported value: what the first row's text parses
      to, or the text itself when it does not parse. */
  lemma CarriedOnRows<J>(snapshot: map<string, Value<J>>, rows: seq<MetaRow>, parse: string -> Option<J>, k: string,
                         i: nat)
    requires k != [] && k !in snapshot && k !in INHERITED
    requires i < |rows| && rows[i].key == "unknownstore:" + k
    requires forall j :: 0 <= j < i ==> rows[j].key != "unknownstore:" + k
    ensures k in Carried(snapshot, rows, parse)
    ensures Carried(snapshot, rows, parse)[k] ==
            match parse(rows[i].value)
            case Some(json) => Parsed(json)
            case None => Raw(rows[i].value)
  {
    hide INHERITED;
    hide Carried;
    StoreKeyIs(rows[i], k);
    forall j | 0 <= j < i ensures rows[j].StoreKey() != Some(k) {
      StoreKeyIs(rows[j], k);
    }
    assert FirstFor(rows, k, i);
    CarriedExactly(snapshot, rows, parse, k);
    var n: nat :| FirstFor(rows, k, n) && Carried(snapshot, rows, parse)[k] == ValueOf(rows[n], parse);
    assert n == i;
  }

  /** No store that the app stashes has a name that every object has. */
  lemma AppStoresAreCarried<J>(snapshot: map<string, Value<J>>, rows: seq<MetaRow>, parse: string -> Option<J>,
                               k: string, i: nat)
    requires "sa_" <= k && i < |rows| && rows[i].key == "unknownstore:" + k
    ensures k in Carried(snapshot, rows, parse)
  {
    assert k[0] == 's' && forall name :: name in INHERITED ==> name[0] != 's';
    StoreKeyIs(rows[i], k);
    CarriedExactly(snapshot, rows, parse, k);
    if k !in snapshot && forall j: nat :: !FirstFor(rows, k, j) {
      NoRowFor(rows, k);
    }
  }

  /** A store named `constructor` is dropped, whatever its value. */
  lemma ConstructorIsDropped<J>(snapshot: map<string, Value<J>>, value: string, parse: string -> Option<J>)
    requires "constructor" !in snapshot
    ensures "constructor" !in Carried(snapshot, [MetaRow("unknownstore:constructor", value)], parse)
    ensures FirstFor([MetaRow("unknownstore:constructor", value)], "constructor", 0)
  {
    assert "unknownstore:constructor"[|UNKNOWN_STORE|..] == "constructor";
    CarriedExactly(snapshot, [MetaRow("unknownstore:constructor", value)], parse, "constructor");
  }

  /** The carry-forward loop. */
  method CarryForward<J>(snapshot: map<string, Value<J>>, rows: seq<MetaRow>, parse: string -> Option<J>)
    returns (out: map<string, Value<J>>)
    ensures out == Carried(snapshot, rows, parse)
    ensures forall k :: k in snapshot ==> k in out && out[k] == snapshot[k]
    ensures forall k :: k in out && k !in snapshot ==>
              k !in INHERITED && exists i: nat :: FirstFor(rows, k, i) && out[k] == ValueOf(rows[i], parse)
    ensures forall i :: 0 <= i < |rows| && rows[i].StoreKey().Some? ==>
              rows[i].StoreKey().value in out || rows[i].StoreKey().value in INHERITED
  {
    hide ValueOf;
    out := snapshot;
    for n := 0 to |rows|
      invariant out == Carried(snapshot, rows[..n], parse)
    {
      assert Front(rows[..n + 1]) == rows[..n];
      var saKey := rows[n].StoreKey();
      if saKey.Some? && saKey.value !in out && saKey.value !in INHERITED {
        out := out[saKey.value := ValueOf(rows[n], parse)];
      }
    }
    assert rows[..|rows|] == rows;
    forall k ensures k in snapshot ==> k in out && out[k] == snapshot[k]
             ensures k in out && k !in snapshot ==>
                       k !in INHERITED && exists i: nat :: FirstFor(rows, k, i) && out[k] == ValueOf(rows[i], parse)
    {
      CarriedExactly(snapshot, rows, parse, k);
    }
    forall i | 0 <= i < |rows| && rows[i].StoreKey().Some?
      ensures rows[i].StoreKey().value in out || rows[i].StoreKey().value in INHERITED
    {
      var k := rows[i].StoreKey().value;
      CarriedExactly(snapshot, rows, parse, k);
      if forall j: nat :: !FirstFor(rows, k, j) {
        NoRowFor(rows, k);
      }
    }
  }
}
