/**
 * The resource ledger (`ftl.state`): a map from node name to the record the
 * provider returned for it, with the five operations the scripts call.
 * Only the in-memory map is modelled; its JSON persistence is not.
 */
module Ledger {
  import opened Wrappers
  import opened Text
  import opened Sorting

  /** `SERVER_PREFIX`, shared by all three scripts (note: no trailing dash). */
  const ServerPrefix: string := "ftl2-scale"

  /** One provisioned node: `{"provider", "id", "ipv4", "label"}` (`label` is a Dafny keyword, hence `nodeLabel`). */
  datatype ResourceRecord = ResourceRecord(provider: string, id: int, ipv4: seq<string>, nodeLabel: string)

  datatype StoreError = NotFound(name: string) | Conflict(name: string)

  type Entries = map<string, ResourceRecord>

  /** The ledger names that the scripts treat as scale-test nodes. */
  function PrefixNames(entries: Entries): set<string> {
    set n | n in entries && StartsWith(n, ServerPrefix)
  }

  /** `[n for n in names if n.startswith(SERVER_PREFIX)]`: keeps order, drops the rest. */
  function Matching(names: seq<string>): (r: seq<string>)
    ensures forall x :: x in r <==> x in names && StartsWith(x, ServerPrefix)
    ensures Distinct(names) ==> Distinct(r)
  {
    if |names| == 0 then []
    else
      var init := Matching(names[..|names| - 1]);
      var last := names[|names| - 1];
      assert forall x :: x in init ==> x in names[..|names| - 1];
      if StartsWith(last, ServerPrefix) then init + [last] else init
  }

  /** Filtering keeps an ascending list ascending. */
  lemma {:induction false} MatchingStrictlySorted(names: seq<string>)
    requires StrictlySorted(names)
    ensures StrictlySorted(Matching(names))
  {
    if |names| > 0 {
      var init := names[..|names| - 1];
      var last := names[|names| - 1];
      assert StrictlySorted(init) by {
        forall i, j | 0 <= i < j < |init| ensures Less(init[i], init[j]) {
          assert init[i] == names[i] && init[j] == names[j];
        }
      }
      MatchingStrictlySorted(init);
      var m := Matching(init);
      if StartsWith(last, ServerPrefix) {
        forall k | 0 <= k < |m| ensures Less(m[k], last) {
          assert m[k] in m;
          var i :| 0 <= i < |init| && init[i] == m[k];
          assert names[i] == m[k];
        }
        assert Matching(names) == m + [last];
      }
    }
  }

  /** A list without repetitions has as many entries as it has distinct elements. */
  lemma {:induction false} DistinctCardinality(s: seq<string>)
    requires Distinct(s)
    ensures |set x | x in s| == |s|
  {
    if |s| > 0 {
      var init := s[..|s| - 1];
      DistinctCardinality(init);
      assert (set x | x in s) == (set x | x in init) + {s[|s| - 1]};
      assert s[|s| - 1] !in init;
    }
  }

  /** Counting the matching names of a full listing of the ledger gives the number of prefixed names. */
  lemma CountMatching(names: seq<string>, entries: Entries)
    requires Distinct(names)
    requires forall n :: n in names <==> n in entries
    ensures |Matching(names)| == |PrefixNames(entries)|
  {
    var m := Matching(names);
    DistinctCardinality(m);
    assert (set x | x in m) == PrefixNames(entries);
  }

  class StateStore {
    var entries: Entries

    constructor (initial: Entries)
      ensures entries == initial
    {
      entries := initial;
    }

    /** `state.has(name)` */
    method Has(name: string) returns (present: bool)
      ensures present <==> name in entries
    {
      present := name in entries;
    }

    /** `state.get(name)`: the record, or a not-found error. */
    method Get(name: string) returns (r: Result<ResourceRecord, StoreError>)
      ensures name in entries ==> r == Ok(entries[name])
      ensures name !in entries ==> r == Err(NotFound(name))
    {
      if name in entries {
        r := Ok(entries[name]);
      } else {
        r := Err(NotFound(name));
      }
    }

    /** `state.add(name, record)`: refuses a name that is already present. */
    method Add(name: string, rec: ResourceRecord) returns (r: Outcome<StoreError>)
      modifies this
      ensures name in old(entries) ==> r == Fail(Conflict(name)) && entries == old(entries)
      ensures name !in old(entries) ==> r == Pass && entries == old(entries)[name := rec]
    {
      if name in entries {
        r := Fail(Conflict(name));
      } else {
        entries := entries[name := rec];
        r := Pass;
      }
    }

    /** `state.remove(name)`: refuses a name that is absent. */
    method Remove(name: string) returns (r: Outcome<StoreError>)
      modifies this
      ensures name in old(entries) ==> r == Pass && entries == old(entries) - {name}
      ensures name !in old(entries) ==> r == Fail(NotFound(name)) && entries == old(entries)
    {
      if name in entries {
        entries := entries - {name};
        r := Pass;
      } else {
        r := Fail(NotFound(name));
      }
    }

    /** `state.resources()`: every name once, in no promised order. */
    method Resources() returns (names: seq<string>)
      ensures Distinct(names)
      ensures forall n :: n in names <==> n in entries
    {
      names := [];
      var rest := entries.Keys;
      while rest != {}
        invariant rest <= entries.Keys
        invariant Distinct(names)
        invariant forall n :: n in names <==> n in entries && n !in rest
        decreases |rest|
      {
        var n :| n in rest;
        names := names + [n];
        rest := rest - {n};
      }
    }
  }
}
