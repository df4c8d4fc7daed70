/**
 * The teardown reconciler (`teardown.py`): destroys every prefixed node the
 * ledger tracks, in ascending name order, removing each from the ledger as
 * soon as the provider has destroyed it, stops at the first failure, and
 * deletes the inventory once every node is gone.
 */
module Teardown {
  import opened Wrappers
  import opened Sorting
  import opened Ledger
  import opened Inventory

  datatype TeardownOutcome = NothingToDo | Destroyed(count: nat)

  /** Why a teardown stops early. */
  datatype TeardownError =
    | NoAddress(index: nat, name: string)      // `resource['ipv4'][0]` in the progress line
    | DestroyFailed(index: nat, name: string)  // the provider's destroy raised

  /** The state of the teardown loop: ledger, names sent to the provider, and how it ended. */
  datatype Sweep = Sweep(ledger: Entries, calls: seq<string>, error: Option<TeardownError>)

  function Elems(s: seq<string>): set<string> {
    set x | x in s
  }

  /** Splitting off the first name of a stretch of the listing. */
  lemma ElemsCons(order: seq<string>, k: nat, j: nat)
    requires k < j <= |order|
    ensures order[k..j] == [order[k]] + order[k + 1..j]
    ensures Elems(order[k..j]) == {order[k]} + Elems(order[k + 1..j])
  {
  }

  /** Removing one name and then a set of names is removing both. */
  lemma RemoveStep(entries: Entries, name: string, rest: set<string>)
    ensures (entries - {name}) - rest == entries - ({name} + rest)
  {
  }

  /**
   * The teardown loop over `order` from position `k` on, with the calls made
   * so far; `destroy` tells whether the provider's destroy of a name succeeds.
   * The specification the method `Teardown` follows step by step.
   */
  function SweepFrom(entries: Entries, order: seq<string>, k: nat, destroy: string -> bool,
                     calls: seq<string>): Sweep
    requires k <= |order| && Distinct(order)
    requires forall j :: k <= j < |order| ==> order[j] in entries
    decreases |order| - k
  {
    if k == |order| then Sweep(entries, calls, None)
    else
      var name := order[k];
      if |entries[name].ipv4| == 0 then Sweep(entries, calls, Some(NoAddress(k, name)))
      else if !destroy(name) then Sweep(entries, calls + [name], Some(DestroyFailed(k, name)))
      else
        assert forall j :: k < j < |order| ==> order[j] != name;
        SweepFrom(entries - {name}, order, k + 1, destroy, calls + [name])
  }

  /** A sweep that ends without error removes exactly the names from position `k` on. */
  lemma {:induction false} SweepRemoves(entries: Entries, order: seq<string>, k: nat, destroy: string -> bool,
                                        calls: seq<string>)
    requires k <= |order| && Distinct(order)
    requires forall j :: k <= j < |order| ==> order[j] in entries
    requires SweepFrom(entries, order, k, destroy, calls).error.None?
    ensures SweepFrom(entries, order, k, destroy, calls).ledger == entries - Elems(order[k..])
    decreases |order| - k
  {
    if k < |order| {
      var name := order[k];
      assert forall j :: k < j < |order| ==> order[j] != name;
      SweepRemoves(entries - {name}, order, k + 1, destroy, calls + [name]);
      assert Elems(order[k..]) == {name} + Elems(order[k + 1..]) by {
        ElemsCons(order, k, |order|);
        assert order[k..] == order[k..|order|] && order[k + 1..] == order[k + 1..|order|];
      }
      RemoveStep(entries, name, Elems(order[k + 1..]));
    } else {
      assert Elems(order[k..]) == {};
    }
  }

  /** A sweep that ends without error asks the provider to destroy the names from position `k` on, in order. */
  lemma {:induction false} SweepCallsAll(entries: Entries, order: seq<string>, k: nat, destroy: string -> bool,
                                         calls: seq<string>)
    requires k <= |order| && Distinct(order)
    requires forall j :: k <= j < |order| ==> order[j] in entries
    requires SweepFrom(entries, order, k, destroy, calls).error.None?
    ensures SweepFrom(entries, order, k, destroy, calls).calls == calls + order[k..]
    decreases |order| - k
  {
    if k < |order| {
      var name := order[k];
      assert forall j :: k < j < |order| ==> order[j] != name;
      SweepCallsAll(entries - {name}, order, k + 1, destroy, calls + [name]);
      assert calls + [name] + order[k + 1..] == calls + order[k..];
    }
  }

  /**
   * A sweep that ends without error destroys and removes exactly the names
   * from position `k` on, in order, and leaves every other record alone.
   */
  lemma SweepSucceeds(entries: Entries, order: seq<string>, k: nat, destroy: string -> bool, calls: seq<string>)
    requires k <= |order| && Distinct(order)
    requires forall j :: k <= j < |order| ==> order[j] in entries
    requires SweepFrom(entries, order, k, destroy, calls).error.None?
    ensures var s := SweepFrom(entries, order, k, destroy, calls);
      s.ledger == entries - Elems(order[k..]) && s.calls == calls + order[k..]
  {
    SweepRemoves(entries, order, k, destroy, calls);
    SweepCallsAll(entries, order, k, destroy, calls);
  }

  /**
   * Fail fast: a sweep that stops with an error stopped at some position `j`;
   * every name before it was destroyed and removed, the name at `j` has no
   * address or its destroy failed, and nothing from `j` on was removed.
   */
  lemma {:induction false} SweepFails(entries: Entries, order: seq<string>, k: nat, destroy: string -> bool,
                                      calls: seq<string>)
    requires k <= |order| && Distinct(order)
    requires forall j :: k <= j < |order| ==> order[j] in entries
    requires SweepFrom(entries, order, k, destroy, calls).error.Some?
    ensures var s := SweepFrom(entries, order, k, destroy, calls);
      var e := s.error.value;
      && k <= e.index < |order| && e.name == order[e.index]
      && s.ledger == entries - Elems(order[k..e.index])
      && (forall i :: k <= i < e.index ==> |entries[order[i]].ipv4| > 0 && destroy(order[i]))
      && (e.NoAddress? <==> |entries[e.name].ipv4| == 0)
      && (e.DestroyFailed? ==> !destroy(e.name))
      && s.calls == calls + order[k..e.index] + (if e.DestroyFailed? then [e.name] else [])
    decreases |order| - k
  {
    var name := order[k];
    if |entries[name].ipv4| == 0 || !destroy(name) {
      assert order[k..k] == [];
      assert Elems(order[k..k]) == {};
    } else {
      assert forall j :: k < j < |order| ==> order[j] != name;
      SweepFails(entries - {name}, order, k + 1, destroy, calls + [name]);
      var s := SweepFrom(entries, order, k, destroy, calls);
      var j := s.error.value.index;
      ElemsCons(order, k, j);
      RemoveStep(entries, name, Elems(order[k + 1..j]));
      assert calls + order[k..j] == calls + [name] + order[k + 1..j];
    }
  }

  /** A sweep of the whole listing that ends without error removes exactly the prefixed names, after destroying each. */
  lemma TeardownRemovesAll(entries: Entries, destroy: string -> bool)
    requires SweepFrom(entries, Order(entries), 0, destroy, []).error.None?
    ensures var s := SweepFrom(entries, Order(entries), 0, destroy, []);
      && s.ledger == entries - PrefixNames(entries)
      && PrefixNames(s.ledger) == {}
      && s.calls == Order(entries)
      && forall n :: n in PrefixNames(entries) ==> destroy(n)
  {
    var order := Order(entries);
    SweepSucceeds(entries, order, 0, destroy, []);
    assert order[0..] == order;
    assert Elems(order) == PrefixNames(entries);
    forall n | n in PrefixNames(entries) ensures destroy(n) {
      var j :| 0 <= j < |order| && order[j] == n;
      SweepPassed(entries, order, 0, destroy, [], j);
    }
  }

  /** A name the sweep went past was destroyed. */
  lemma {:induction false} SweepPassed(entries: Entries, order: seq<string>, k: nat, destroy: string -> bool,
                                       calls: seq<string>, j: nat)
    requires k <= j < |order| && Distinct(order)
    requires forall i :: k <= i < |order| ==> order[i] in entries
    requires var s := SweepFrom(entries, order, k, destroy, calls);
      s.error.None? || j < s.error.value.index
    ensures destroy(order[j])
    decreases |order| - k
  {
    var name := order[k];
    if j > k {
      assert forall i :: k < i < |order| ==> order[i] != name;
      SweepPassed(entries - {name}, order, k + 1, destroy, calls + [name], j);
    }
  }

  /**
   * A teardown that stopped at position `j` of the listing leaves exactly the
   * names from `j` on, so running it again lists them in the same order and
   * picks up where it stopped.
   */
  lemma TeardownResumes(entries: Entries, destroy: string -> bool)
    requires SweepFrom(entries, Order(entries), 0, destroy, []).error.Some?
    ensures var order := Order(entries);
      var s := SweepFrom(entries, order, 0, destroy, []);
      s.error.value.index < |order| && Order(s.ledger) == order[s.error.value.index..]
  {
    var order := Order(entries);
    var s := SweepFrom(entries, order, 0, destroy, []);
    var j := s.error.value.index;
    assert j < |order| && s.ledger == entries - Elems(order[0..j]) by {
      SweepFails(entries, order, 0, destroy, []);
    }
    var rest := order[j..];
    assert forall x :: x in PrefixNames(s.ledger) <==> x in rest by {
      LeftAfterRemoval(entries, order, j, s.ledger);
    }
    StrictlySortedSuffix(order, j);
    StrictlySortedUnique(Order(s.ledger), rest);
  }

  /** Removing a first stretch of the listing leaves the prefixed names of the rest. */
  lemma LeftAfterRemoval(entries: Entries, order: seq<string>, j: nat, ledger: Entries)
    requires order == Order(entries) && j <= |order|
    requires ledger == entries - Elems(order[0..j])
    ensures forall x :: x in PrefixNames(ledger) <==> x in order[j..]
  {
    forall x ensures x in PrefixNames(ledger) <==> x in order[j..] {
      if x in order[j..] {
        var i :| j <= i < |order| && order[i] == x;
        assert x in PrefixNames(entries);
      }
      if x in PrefixNames(ledger) {
        assert x in order;
      }
    }
  }

  /** `sorted([n for n in resources() if n.startswith(SERVER_PREFIX)])` over a full listing is `Order`. */
  lemma SortedListing(entries: Entries, names: seq<string>)
    requires Distinct(names) && forall n :: n in names <==> n in entries
    ensures InsertionSort(Matching(names)) == Order(entries)
  {
    SortDistinct(Matching(names));
    StrictlySortedUnique(InsertionSort(Matching(names)), Order(entries));
  }

  /**
   * The destroy loop of `main` over the sorted names: for each, reads its
   * record, destroys it and removes it from the ledger, stopping at the first
   * name without an address or whose destroy fails.
   */
  method DestroyInOrder(store: StateStore, order: seq<string>, destroy: string -> bool)
    returns (err: Option<TeardownError>, calls: seq<string>)
    requires Distinct(order) && forall j :: 0 <= j < |order| ==> order[j] in store.entries
    modifies store
    ensures var s := SweepFrom(old(store.entries), order, 0, destroy, []);
      err == s.error && calls == s.calls && store.entries == s.ledger
  {
    ghost var s := SweepFrom(store.entries, order, 0, destroy, []);
    calls := [];
    for k := 0 to |order|
      invariant forall j :: k <= j < |order| ==> order[j] in store.entries
      invariant SweepFrom(store.entries, order, k, destroy, calls) == s
    {
      var name := order[k];
      var got := store.Get(name);
      if |got.value.ipv4| == 0 {
        return Some(NoAddress(k, name)), calls;
      }
      calls := calls + [name];
      if !destroy(name) {
        return Some(DestroyFailed(k, name)), calls;
      }
      var removed := store.Remove(name);
    }
    err := None;
  }

  /**
   * `main(check_mode)`: destroys the prefixed nodes of the ledger in ascending
   * order, removing each from the ledger after its destroy, and then deletes
   * the inventory file if there is one. With no prefixed node it returns
   * before the inventory step. `destroy` is the provider's answer per name;
   * `calls` lists the names it was asked to destroy, in order.
   */
  method Teardown(store: StateStore, file: InventoryFile, destroy: string -> bool)
    returns (r: Result<TeardownOutcome, TeardownError>, calls: seq<string>)
    modifies store, file
    ensures PrefixNames(old(store.entries)) == {} ==>
      && r == Ok(NothingToDo) && calls == []
      && store.entries == old(store.entries) && file.contents == old(file.contents)
    ensures PrefixNames(old(store.entries)) != {} ==>
      var s := SweepFrom(old(store.entries), Order(old(store.entries)), 0, destroy, []);
      && calls == s.calls && store.entries == s.ledger
      && (s.error.Some? ==> r == Err(s.error.value) && file.contents == old(file.contents))
      && (s.error.None? ==> r == Ok(Destroyed(|PrefixNames(old(store.entries))|)) && file.contents == None)
  {
    var all := store.Resources();
    var names := Matching(all);
    CountMatching(all, store.entries);
    if |names| == 0 {
      return Ok(NothingToDo), [];
    }
    var order := InsertionSort(names);
    SortedListing(store.entries, all);
    var err;
    err, calls := DestroyInOrder(store, order, destroy);
    if err.Some? {
      return Err(err.value), calls;
    }
    var present := file.Exists();
    if present {
      file.Unlink();
    }
    r := Ok(Destroyed(|names|));
  }
}
