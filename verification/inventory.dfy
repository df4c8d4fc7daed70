/**
 * The static Ansible inventory that provisioning writes for the comparison
 * runs (`_write_ansible_inventory`): a `[scale]` group header, one host line
 * per prefixed ledger name in sorted order, and a trailing empty line, joined
 * with newlines.
 */
module Inventory {
  import opened Wrappers
  import opened Text
  import opened Sorting
  import opened Ledger

  /** The `ansible-inventory` file in the working directory: absent, or its text. */
  class InventoryFile {
    var contents: Option<string>

    constructor (initial: Option<string>)
      ensures contents == initial
    {
      contents := initial;
    }

    /** `Path.exists()` */
    method Exists() returns (present: bool)
      ensures present <==> contents.Some?
    {
      present := contents.Some?;
    }

    /** `Path.write_text(text)` */
    method WriteText(text: string)
      modifies this
      ensures contents == Some(text)
    {
      contents := Some(text);
    }

    /** `Path.unlink()`, which raises on a missing file; its caller checks first. */
    method Unlink()
      requires contents.Some?
      modifies this
      ensures contents == None
    {
      contents := None;
    }
  }

  const Header: string := "[scale]"

  function HostLine(name: string, ip: string): string {
    name + " ansible_host=" + ip + " ansible_user=root"
  }

  /** Every prefixed record has a first address (`resource["ipv4"][0]` does not raise). */
  predicate Addressed(entries: Entries) {
    forall n :: n in PrefixNames(entries) ==> |entries[n].ipv4| > 0
  }

  predicate Listable(names: seq<string>, entries: Entries) {
    forall k :: 0 <= k < |names| ==> names[k] in entries && |entries[names[k]].ipv4| > 0
  }

  /** The host lines for `names`, in the order given. */
  function HostLines(names: seq<string>, entries: Entries): (lines: seq<string>)
    requires Listable(names, entries)
  {
    seq(|names|, k requires 0 <= k < |names| => HostLine(names[k], entries[names[k]].ipv4[0]))
  }

  /** The prefixed names of a ledger in ascending order. */
  ghost function Order(entries: Entries): (order: seq<string>)
    ensures StrictlySorted(order) && Distinct(order)
    ensures forall x :: x in order <==> x in PrefixNames(entries)
    ensures |order| == |PrefixNames(entries)|
    ensures forall k :: 0 <= k < |order| ==> order[k] in PrefixNames(entries)
    ensures Addressed(entries) ==> Listable(order, entries)
  {
    var order := SortedSet(PrefixNames(entries));
    assert forall k :: 0 <= k < |order| ==> order[k] in order;
    StrictlySortedDistinct(order);
    order
  }

  /** The lines of the inventory of a ledger: a pure function of the prefixed records. */
  ghost function InventoryLines(entries: Entries): seq<string>
    requires Addressed(entries)
  {
    [Header] + HostLines(Order(entries), entries) + [""]
  }

  ghost function InventoryText(entries: Entries): string
    requires Addressed(entries)
  {
    Join(InventoryLines(entries))
  }

  /**
   * The inventory consists of the header, then one host line for exactly the
   * prefixed names in ascending order, then an empty line; so the reported
   * host count, the number of lines less two, is the number of prefixed names.
   */
  lemma InventoryShape(entries: Entries)
    requires Addressed(entries)
    ensures var lines := InventoryLines(entries);
      && |lines| - 2 == |PrefixNames(entries)|
      && lines[0] == Header && lines[|lines| - 1] == ""
      && forall k :: 1 <= k < |lines| - 1 ==>
           var name := Order(entries)[k - 1];
           StartsWith(name, ServerPrefix) && name in entries &&
           lines[k] == HostLine(name, entries[name].ipv4[0])
  {
  }

  lemma NoNewlineConcat(a: string, b: string)
    requires NoNewline(a) && NoNewline(b)
    ensures NoNewline(a + b)
  {
    forall k | 0 <= k < |a + b| ensures (a + b)[k] != '\n' {
      if k >= |a| {
        assert (a + b)[k] == b[k - |a|];
      }
    }
  }

  lemma HostLineNoNewline(name: string, ip: string)
    requires NoNewline(name) && NoNewline(ip)
    ensures NoNewline(HostLine(name, ip))
  {
    NoNewlineConcat(name, " ansible_host=");
    NoNewlineConcat(name + " ansible_host=", ip);
    NoNewlineConcat(name + " ansible_host=" + ip, " ansible_user=root");
  }

  /**
   * Read back line by line, the written text gives the same lines, provided
   * no listed name or address holds a newline: the file lists one host per
   * prefixed name.
   */
  lemma InventoryReadsBack(entries: Entries)
    requires Addressed(entries)
    requires forall n :: n in PrefixNames(entries) ==> NoNewline(n) && NoNewline(entries[n].ipv4[0])
    ensures Split(InventoryText(entries)) == InventoryLines(entries)
    ensures |Split(InventoryText(entries))| == |PrefixNames(entries)| + 2
  {
    var lines := InventoryLines(entries);
    InventoryShape(entries);
    forall k | 0 <= k < |lines| ensures NoNewline(lines[k]) {
      if 1 <= k < |lines| - 1 {
        var name := Order(entries)[k - 1];
        assert name in PrefixNames(entries);
        HostLineNoNewline(name, entries[name].ipv4[0]);
      }
    }
    SplitJoin(lines);
  }

  lemma MatchingSnoc(s: seq<string>, k: nat)
    requires k < |s|
    ensures Matching(s[..k + 1]) == Matching(s[..k]) + if StartsWith(s[k], ServerPrefix) then [s[k]] else []
  {
    assert s[..k + 1][..k] == s[..k];
  }

  lemma HostLinesSnoc(names: seq<string>, name: string, entries: Entries)
    requires Listable(names, entries)
    requires name in entries && |entries[name].ipv4| > 0
    ensures Listable(names + [name], entries)
    ensures HostLines(names + [name], entries) == HostLines(names, entries) + [HostLine(name, entries[name].ipv4[0])]
  {
    assert (names + [name])[..|names|] == names;
  }

  /** Listing the prefixed names of a full sorted listing of the ledger gives `Order`. */
  lemma ListingComplete(entries: Entries, names: seq<string>, listed: seq<string>)
    requires Distinct(names) && forall n :: n in names <==> n in entries
    requires listed == Matching(InsertionSort(names))
    requires Listable(listed, entries)
    ensures Addressed(entries) && listed == Order(entries)
  {
    SortDistinct(names);
    MatchingStrictlySorted(InsertionSort(names));
    StrictlySortedUnique(listed, Order(entries));
    forall n | n in PrefixNames(entries) ensures |entries[n].ipv4| > 0 {
      var k :| 0 <= k < |listed| && listed[k] == n;
    }
  }

  /**
   * The loop of `_write_ansible_inventory` over a listing of ledger names:
   * the host lines of the prefixed ones, in listing order, or the first
   * prefixed name whose record has no address (`resource["ipv4"][0]` raises).
   */
  method CollectHostLines(store: StateStore, ordered: seq<string>) returns (r: Result<seq<string>, string>)
    requires forall n :: n in ordered ==> n in store.entries
    ensures r.Ok? ==> Listable(Matching(ordered), store.entries) && r.value == HostLines(Matching(ordered), store.entries)
    ensures r.Err? ==> && r.error in ordered && StartsWith(r.error, ServerPrefix)
                       && r.error in store.entries && |store.entries[r.error].ipv4| == 0
    ensures r.Err? ==> exists k :: && 0 <= k < |ordered| && ordered[k] == r.error
                                   && Listable(Matching(ordered[..k]), store.entries)
  {
    var hosts: seq<string> := [];
    ghost var listed: seq<string> := [];
    for k := 0 to |ordered|
      invariant listed == Matching(ordered[..k])
      invariant Listable(listed, store.entries)
      invariant hosts == HostLines(listed, store.entries)
    {
      var name := ordered[k];
      MatchingSnoc(ordered, k);
      if StartsWith(name, ServerPrefix) {
        var got := store.Get(name);
        if |got.value.ipv4| == 0 {
          return Err(name);
        }
        HostLinesSnoc(listed, name, store.entries);
        hosts := hosts + [HostLine(name, got.value.ipv4[0])];
        listed := listed + [name];
      }
    }
    assert ordered[..|ordered|] == ordered;
    r := Ok(hosts);
  }

  /**
   * `_write_ansible_inventory(ftl)`: writes the inventory of the ledger and
   * returns the host count it reports. A prefixed record without an address
   * makes `resource["ipv4"][0]` raise before anything is written.
   */
  method WriteInventory(store: StateStore, file: InventoryFile) returns (r: Result<nat, string>)
    modifies file
    ensures Addressed(store.entries) ==>
      r == Ok(|PrefixNames(store.entries)|) && file.contents == Some(InventoryText(store.entries))
    ensures !Addressed(store.entries) ==>
      && r.Err? && r.error in PrefixNames(store.entries) && |store.entries[r.error].ipv4| == 0
      && file.contents == old(file.contents)
  {
    var names := store.Resources();
    var ordered := InsertionSort(names);
    assert forall n :: n in ordered ==> n in multiset(names);
    var hosts := CollectHostLines(store, ordered);
    if hosts.Err? {
      assert hosts.error in PrefixNames(store.entries);
      return Err(hosts.error);
    }
    ListingComplete(store.entries, names, Matching(ordered));
    var lines := [Header] + hosts.value + [""];
    assert lines == InventoryLines(store.entries);
    InventoryShape(store.entries);
    file.WriteText(Join(lines));
    r := Ok(|lines| - 2);
  }
}
