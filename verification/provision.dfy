/**
 * The provisioning reconciler (`provision.py`): for every index below the
 * requested count it makes sure the node `ftl2-scale-<i>` is in the ledger,
 * asking the provider to create only the names the ledger lacks, and stops
 * the whole run at the first failure. Then it waits for SSH if it created
 * anything for real, counts the fleet and writes the inventory.
 */
module Provision {
  import opened Wrappers
  import opened Text
  import opened Ledger
  import opened Inventory

  /** The provider's answer to `linode_v4(label=name, ..., state="present")`. */
  datatype CreateReply =
    | Created(id: int, ipv4: seq<string>)  // `server["instance"]`
    | Skipped                              // `server.get("skipped")`: check mode
    | Failed(reason: string)               // the module raised; the run is aborted

  /** Why a provisioning run stops early. */
  datatype ProvisionError =
    | ExistingWithoutAddress(index: nat, name: string)   // `resource['ipv4'][0]` on a tracked node
    | CreateFailed(index: nat, name: string, reason: string)
    | CreatedWithoutAddress(index: nat, name: string)    // `ipv4[0]` for `add_host`, after `state.add`
    | SshTimeout                                         // `wait_for_ssh(timeout=120)` gave up
    | InventoryWithoutAddress(name: string)              // `resource["ipv4"][0]` in the inventory

  /** The state of the provisioning loop: ledger, `created`, the names sent to the provider, and how it ended. */
  datatype Run = Run(ledger: Entries, created: nat, calls: seq<string>, error: Option<ProvisionError>)

  /** What a completed run reports. */
  datatype Summary = Summary(created: nat, waited: bool, total: nat, hosts: nat)

  /** `f"{SERVER_PREFIX}-{i}"` */
  function NodeName(i: nat): (name: string)
    ensures StartsWith(name, ServerPrefix)
  {
    ServerPrefix + "-" + NatToString(i)
  }

  /** Distinct indices name distinct nodes. */
  lemma NodeNameInjective(i: nat, j: nat)
    requires NodeName(i) == NodeName(j)
    ensures i == j
  {
    var n := |ServerPrefix| + 1;
    assert NodeName(i)[n..] == NatToString(i);
    assert NodeName(j)[n..] == NatToString(j);
    NatToStringInjective(i, j);
  }

  /** The record `state.add` stores for a node the provider created. */
  function NewRecord(name: string, id: int, ipv4: seq<string>): ResourceRecord {
    ResourceRecord("linode", id, ipv4, name)
  }

  /**
   * The provisioning loop from index `i` on, with `created` and `calls` so far:
   * the specification the method `Provision` follows step by step.
   */
  function Reconcile(ledger: Entries, i: nat, count: int, create: string -> CreateReply,
                     created: nat, calls: seq<string>): Run
    decreases count - i
  {
    if i >= count then Run(ledger, created, calls, None)
    else
      var name := NodeName(i);
      if name in ledger then
        if |ledger[name].ipv4| == 0 then Run(ledger, created, calls, Some(ExistingWithoutAddress(i, name)))
        else Reconcile(ledger, i + 1, count, create, created, calls)
      else
        match create(name)
        case Failed(reason) => Run(ledger, created, calls + [name], Some(CreateFailed(i, name, reason)))
        case Skipped => Reconcile(ledger, i + 1, count, create, created, calls + [name])
        case Created(id, ipv4) =>
          var ledger' := ledger[name := NewRecord(name, id, ipv4)];
          if |ipv4| == 0 then Run(ledger', created, calls + [name], Some(CreatedWithoutAddress(i, name)))
          else Reconcile(ledger', i + 1, count, create, created + 1, calls + [name])
  }

  /** The names of the indices `lo .. hi - 1`. */
  ghost function Targets(lo: nat, hi: int): set<string> {
    set j: nat | lo <= j < hi :: NodeName(j)
  }

  /** The target names a run adds: absent from the ledger and created by the provider. */
  ghost function Fresh(ledger: Entries, lo: nat, hi: int, create: string -> CreateReply): set<string> {
    set n | n in Targets(lo, hi) && n !in ledger && create(n).Created?
  }

  lemma TargetsSplit(i: nat, count: int)
    requires i < count
    ensures Targets(i, count) == {NodeName(i)} + Targets(i + 1, count)
    ensures NodeName(i) !in Targets(i + 1, count)
  {
    if NodeName(i) in Targets(i + 1, count) {
      var j: nat :| i + 1 <= j < count && NodeName(i) == NodeName(j);
      NodeNameInjective(i, j);
    }
  }

  /** There are as many targets as indices. */
  lemma {:induction false} TargetsCount(lo: nat, hi: nat)
    requires lo <= hi
    ensures |Targets(lo, hi)| == hi - lo
    decreases hi - lo
  {
    if lo < hi {
      TargetsSplit(lo, hi);
      TargetsCount(lo + 1, hi);
    } else {
      assert Targets(lo, hi) == {};
    }
  }

  /**
   * What a run from index `i` that ends without error does to the ledger: it
   * keeps every record it found and adds exactly the fresh target names,
   * with the records built from the provider's replies.
   */
  ghost predicate LedgerAccount(r: Run, ledger: Entries, i: nat, count: int, create: string -> CreateReply)
  {
    && r.ledger.Keys == ledger.Keys + Fresh(ledger, i, count, create)
    && (forall n :: n in ledger ==> r.ledger[n] == ledger[n])
    && (forall n :: n in Fresh(ledger, i, count, create) ==>
          r.ledger[n] == NewRecord(n, create(n).id, create(n).ipv4))
  }

  /** Such a run counts the fresh names in `created`. */
  ghost predicate CountAccount(r: Run, ledger: Entries, i: nat, count: int, create: string -> CreateReply,
                               created: nat)
  {
    r.created == created + |Fresh(ledger, i, count, create)|
  }

  /** Such a run calls the provider for exactly the target names the ledger lacked. */
  ghost predicate CallsAccount(r: Run, ledger: Entries, i: nat, count: int, calls: seq<string>) {
    && |calls| <= |r.calls| && r.calls[..|calls|] == calls
    && (forall n :: n in r.calls[|calls|..] <==> n in Targets(i, count) && n !in ledger)
  }

  /** Afterwards every target is present with an address, unless its create was skipped. */
  ghost predicate CoverAccount(r: Run, ledger: Entries, i: nat, count: int, create: string -> CreateReply) {
    forall n :: n in Targets(i, count) ==>
      (n in r.ledger && |r.ledger[n].ipv4| > 0) || (n !in ledger && create(n).Skipped?)
  }

  ghost predicate Accounts(r: Run, ledger: Entries, i: nat, count: int, create: string -> CreateReply,
                           created: nat, calls: seq<string>)
  {
    && LedgerAccount(r, ledger, i, count, create)
    && CountAccount(r, ledger, i, count, create, created)
    && CallsAccount(r, ledger, i, count, calls)
    && CoverAccount(r, ledger, i, count, create)
  }

  /**
   * One step of a run that ends without error: a tracked node has an address
   * and is passed over; an untracked one is either skipped or created with an
   * address, and the run goes on from the next index.
   */
  lemma ReconcileStep(ledger: Entries, i: nat, count: int, create: string -> CreateReply,
                      created: nat, calls: seq<string>)
    requires i < count
    requires Reconcile(ledger, i, count, create, created, calls).error.None?
    ensures var name := NodeName(i); var r := Reconcile(ledger, i, count, create, created, calls);
      && (name in ledger ==>
            |ledger[name].ipv4| > 0 && r == Reconcile(ledger, i + 1, count, create, created, calls))
      && (name !in ledger && create(name).Skipped? ==>
            r == Reconcile(ledger, i + 1, count, create, created, calls + [name]))
      && (name !in ledger && !create(name).Skipped? ==>
            && create(name).Created? && |create(name).ipv4| > 0
            && r == Reconcile(ledger[name := NewRecord(name, create(name).id, create(name).ipv4)], i + 1, count,
                              create, created + 1, calls + [name]))
  {
  }

  /** A passed-over or skipped index adds no fresh name. */
  lemma FreshUnchanged(ledger: Entries, i: nat, count: int, create: string -> CreateReply)
    requires i < count && (NodeName(i) in ledger || create(NodeName(i)).Skipped?)
    ensures Fresh(ledger, i, count, create) == Fresh(ledger, i + 1, count, create)
  {
    TargetsSplit(i, count);
  }

  /** The fresh names from index `i` are its own name, if created, and the fresh names after it. */
  lemma FreshCreated(ledger: Entries, ledger': Entries, i: nat, count: int, create: string -> CreateReply)
    requires i < count && NodeName(i) !in ledger && create(NodeName(i)).Created?
    requires ledger'.Keys == ledger.Keys + {NodeName(i)}
    ensures Fresh(ledger', i + 1, count, create) == Fresh(ledger, i + 1, count, create)
    ensures Fresh(ledger, i, count, create) == Fresh(ledger, i + 1, count, create) + {NodeName(i)}
    ensures NodeName(i) !in Fresh(ledger, i + 1, count, create)
  {
    TargetsSplit(i, count);
  }

  /** No fresh names are left past the end. */
  lemma FreshEmpty(ledger: Entries, i: nat, count: int, create: string -> CreateReply)
    requires i >= count
    ensures Targets(i, count) == {} && Fresh(ledger, i, count, create) == {}
  {
  }

  lemma {:induction false} LedgerSucceeds(ledger: Entries, i: nat, count: int, create: string -> CreateReply,
                                          created: nat, calls: seq<string>)
    requires Reconcile(ledger, i, count, create, created, calls).error.None?
    ensures LedgerAccount(Reconcile(ledger, i, count, create, created, calls), ledger, i, count, create)
    decreases count - i
  {
    var r := Reconcile(ledger, i, count, create, created, calls);
    if i >= count {
      FreshEmpty(ledger, i, count, create);
    } else {
      var name := NodeName(i);
      ReconcileStep(ledger, i, count, create, created, calls);
      if name in ledger || create(name).Skipped? {
        var calls' := if name in ledger then calls else calls + [name];
        LedgerSucceeds(ledger, i + 1, count, create, created, calls');
        FreshUnchanged(ledger, i, count, create);
      } else {
        var ledger' := ledger[name := NewRecord(name, create(name).id, create(name).ipv4)];
        LedgerSucceeds(ledger', i + 1, count, create, created + 1, calls + [name]);
        FreshCreated(ledger, ledger', i, count, create);
        forall n | n in Fresh(ledger, i, count, create)
          ensures r.ledger[n] == NewRecord(n, create(n).id, create(n).ipv4)
        {
          if n != name {
            assert n in Fresh(ledger', i + 1, count, create);
          }
        }
      }
    }
  }

  lemma {:induction false} CountSucceeds(ledger: Entries, i: nat, count: int, create: string -> CreateReply,
                                         created: nat, calls: seq<string>)
    requires Reconcile(ledger, i, count, create, created, calls).error.None?
    ensures CountAccount(Reconcile(ledger, i, count, create, created, calls), ledger, i, count, create, created)
    decreases count - i
  {
    if i >= count {
      FreshEmpty(ledger, i, count, create);
    } else {
      var name := NodeName(i);
      ReconcileStep(ledger, i, count, create, created, calls);
      if name in ledger || create(name).Skipped? {
        var calls' := if name in ledger then calls else calls + [name];
        CountSucceeds(ledger, i + 1, count, create, created, calls');
        FreshUnchanged(ledger, i, count, create);
      } else {
        var ledger' := ledger[name := NewRecord(name, create(name).id, create(name).ipv4)];
        CountSucceeds(ledger', i + 1, count, create, created + 1, calls + [name]);
        FreshCreated(ledger, ledger', i, count, create);
      }
    }
  }

  /** A record of calls that starts with `calls + [name]` starts with `calls`, followed by `name`. */
  lemma CallsStep(all: seq<string>, calls: seq<string>, name: string)
    requires |calls| + 1 <= |all| && all[..|calls| + 1] == calls + [name]
    ensures all[..|calls|] == calls
    ensures all[|calls|..] == [name] + all[|calls| + 1..]
  {
    assert all[..|calls|] == all[..|calls| + 1][..|calls|];
    assert all[|calls|] == all[..|calls| + 1][|calls|];
  }

  lemma {:induction false} CallsSucceeds(ledger: Entries, i: nat, count: int, create: string -> CreateReply,
                                         created: nat, calls: seq<string>)
    requires Reconcile(ledger, i, count, create, created, calls).error.None?
    ensures CallsAccount(Reconcile(ledger, i, count, create, created, calls), ledger, i, count, calls)
    decreases count - i
  {
    var r := Reconcile(ledger, i, count, create, created, calls);
    if i >= count {
      FreshEmpty(ledger, i, count, create);
      assert r.calls[|calls|..] == [];
    } else {
      var name := NodeName(i);
      ReconcileStep(ledger, i, count, create, created, calls);
      TargetsSplit(i, count);
      if name in ledger {
        CallsSucceeds(ledger, i + 1, count, create, created, calls);
      } else {
        var ledger' := if create(name).Skipped? then ledger
                       else ledger[name := NewRecord(name, create(name).id, create(name).ipv4)];
        var created' := if create(name).Skipped? then created else created + 1;
        CallsSucceeds(ledger', i + 1, count, create, created', calls + [name]);
        CallsStep(r.calls, calls, name);
        assert ledger'.Keys == ledger.Keys + {name} || ledger' == ledger;
        forall n ensures n in r.calls[|calls|..] <==> n in Targets(i, count) && n !in ledger {
          if n != name {
            assert n in ledger' <==> n in ledger;
          }
        }
      }
    }
  }

  lemma {:induction false} CoverSucceeds(ledger: Entries, i: nat, count: int, create: string -> CreateReply,
                                         created: nat, calls: seq<string>)
    requires Reconcile(ledger, i, count, create, created, calls).error.None?
    ensures CoverAccount(Reconcile(ledger, i, count, create, created, calls), ledger, i, count, create)
    decreases count - i
  {
    var r := Reconcile(ledger, i, count, create, created, calls);
    if i >= count {
      FreshEmpty(ledger, i, count, create);
    } else {
      var name := NodeName(i);
      ReconcileStep(ledger, i, count, create, created, calls);
      TargetsSplit(i, count);
      if name in ledger {
        CoverSucceeds(ledger, i + 1, count, create, created, calls);
        LedgerSucceeds(ledger, i + 1, count, create, created, calls);
      } else if create(name).Skipped? {
        CoverSucceeds(ledger, i + 1, count, create, created, calls + [name]);
      } else {
        var ledger' := ledger[name := NewRecord(name, create(name).id, create(name).ipv4)];
        CoverSucceeds(ledger', i + 1, count, create, created + 1, calls + [name]);
        LedgerSucceeds(ledger', i + 1, count, create, created + 1, calls + [name]);
        assert name in ledger' && r.ledger[name] == ledger'[name];
        forall n | n in Targets(i + 1, count)
          ensures (n in r.ledger && |r.ledger[n].ipv4| > 0) || (n !in ledger && create(n).Skipped?)
        {
          assert n in ledger' <==> n in ledger;
        }
      }
    }
  }

  /** Every run that ends without error is accounted for by `Accounts`. */
  lemma ReconcileSucceeds(ledger: Entries, i: nat, count: int, create: string -> CreateReply,
                          created: nat, calls: seq<string>)
    requires Reconcile(ledger, i, count, create, created, calls).error.None?
    ensures Accounts(Reconcile(ledger, i, count, create, created, calls), ledger, i, count, create, created, calls)
  {
    LedgerSucceeds(ledger, i, count, create, created, calls);
    CountSucceeds(ledger, i, count, create, created, calls);
    CallsSucceeds(ledger, i, count, create, created, calls);
    CoverSucceeds(ledger, i, count, create, created, calls);
  }

  /** Without skipped creates, the fresh names are all the target names the ledger lacked. */
  lemma NoSkipFresh(ledger: Entries, count: int, create: string -> CreateReply)
    requires Reconcile(ledger, 0, count, create, 0, []).error.None?
    requires forall n :: n in Reconcile(ledger, 0, count, create, 0, []).calls ==> !create(n).Skipped?
    ensures Fresh(ledger, 0, count, create) == Targets(0, count) - ledger.Keys
  {
    var r := Reconcile(ledger, 0, count, create, 0, []);
    LedgerSucceeds(ledger, 0, count, create, 0, []);
    CallsSucceeds(ledger, 0, count, create, 0, []);
    CoverSucceeds(ledger, 0, count, create, 0, []);
    assert r.calls[0..] == r.calls;
    forall n | n in Targets(0, count) - ledger.Keys ensures n in Fresh(ledger, 0, count, create) {
      assert n in r.calls;
    }
  }

  /** Without skipped creates, every index's node ends up tracked with an address. */
  lemma NoSkipCovered(ledger: Entries, count: int, create: string -> CreateReply)
    requires Reconcile(ledger, 0, count, create, 0, []).error.None?
    requires forall n :: n in Reconcile(ledger, 0, count, create, 0, []).calls ==> !create(n).Skipped?
    ensures var r := Reconcile(ledger, 0, count, create, 0, []);
      forall j: nat :: j < count ==> NodeName(j) in r.ledger && |r.ledger[NodeName(j)].ipv4| > 0
  {
    var r := Reconcile(ledger, 0, count, create, 0, []);
    CallsSucceeds(ledger, 0, count, create, 0, []);
    CoverSucceeds(ledger, 0, count, create, 0, []);
    assert r.calls[0..] == r.calls;
    forall j: nat | j < count
      ensures NodeName(j) in r.ledger && |r.ledger[NodeName(j)].ipv4| > 0
    {
      assert NodeName(j) in Targets(0, count);
      if NodeName(j) !in ledger {
        assert NodeName(j) in r.calls;
      }
    }
  }

  /** Without skipped creates, the ledger gains exactly the target names it lacked. */
  lemma NoSkipLedger(ledger: Entries, count: int, create: string -> CreateReply)
    requires Reconcile(ledger, 0, count, create, 0, []).error.None?
    requires forall n :: n in Reconcile(ledger, 0, count, create, 0, []).calls ==> !create(n).Skipped?
    ensures var r := Reconcile(ledger, 0, count, create, 0, []);
      r.ledger.Keys == ledger.Keys + Targets(0, count) && forall n :: n in ledger ==> r.ledger[n] == ledger[n]
  {
    NoSkipFresh(ledger, count, create);
    LedgerSucceeds(ledger, 0, count, create, 0, []);
  }

  /** A run from an empty start calls the provider for exactly the target names the ledger lacked. */
  lemma CallsFromStart(ledger: Entries, count: int, create: string -> CreateReply)
    requires Reconcile(ledger, 0, count, create, 0, []).error.None?
    ensures var r := Reconcile(ledger, 0, count, create, 0, []);
      forall n :: n in r.calls <==> n in Targets(0, count) && n !in ledger
  {
    var r := Reconcile(ledger, 0, count, create, 0, []);
    CallsSucceeds(ledger, 0, count, create, 0, []);
    assert r.calls[0..] == r.calls;
  }

  /** Without skipped creates, `created` is the number of target names the ledger lacked. */
  lemma NoSkipCount(ledger: Entries, count: int, create: string -> CreateReply)
    requires Reconcile(ledger, 0, count, create, 0, []).error.None?
    requires forall n :: n in Reconcile(ledger, 0, count, create, 0, []).calls ==> !create(n).Skipped?
    ensures Reconcile(ledger, 0, count, create, 0, []).created == |Targets(0, count) - ledger.Keys|
  {
    NoSkipFresh(ledger, count, create);
    CountSucceeds(ledger, 0, count, create, 0, []);
  }

  /**
   * A run from an empty start that ends without error and whose creates were
   * not skipped leaves every index's node in the ledger with an address, keeps
   * every record it found, adds exactly the target names the ledger lacked,
   * calls the provider for exactly those, and counts them in `created`.
   */
  lemma ProvisionComplete(ledger: Entries, count: int, create: string -> CreateReply)
    requires Reconcile(ledger, 0, count, create, 0, []).error.None?
    requires forall n :: n in Reconcile(ledger, 0, count, create, 0, []).calls ==> !create(n).Skipped?
    ensures var r := Reconcile(ledger, 0, count, create, 0, []);
      forall j: nat :: j < count ==> NodeName(j) in r.ledger && |r.ledger[NodeName(j)].ipv4| > 0
    ensures var r := Reconcile(ledger, 0, count, create, 0, []);
      r.ledger.Keys == ledger.Keys + Targets(0, count) && forall n :: n in ledger ==> r.ledger[n] == ledger[n]
    ensures var r := Reconcile(ledger, 0, count, create, 0, []);
      forall n :: n in r.calls <==> n in Targets(0, count) && n !in ledger
    ensures Reconcile(ledger, 0, count, create, 0, []).created == |Targets(0, count) - ledger.Keys|
  {
    NoSkipCovered(ledger, count, create);
    NoSkipLedger(ledger, count, create);
    CallsFromStart(ledger, count, create);
    NoSkipCount(ledger, count, create);
  }

  /** Once every node from index `i` on is tracked with an address, the rest of the run calls nothing and changes nothing. */
  lemma {:induction false} AllPresentIdle(ledger: Entries, i: nat, count: int, create: string -> CreateReply,
                                          created: nat, calls: seq<string>)
    requires forall j: nat :: i <= j < count ==> NodeName(j) in ledger && |ledger[NodeName(j)].ipv4| > 0
    ensures Reconcile(ledger, i, count, create, created, calls) == Run(ledger, created, calls, None)
    decreases count - i
  {
    if i < count {
      assert NodeName(i) in ledger;
      AllPresentIdle(ledger, i + 1, count, create, created, calls);
    }
  }

  /**
   * Re-running a completed provisioning with the same count is idle: whatever
   * the provider would answer, it creates nothing, calls the provider for
   * nothing and leaves the ledger as it is.
   */
  lemma RerunIsIdle(ledger: Entries, count: int, create: string -> CreateReply, again: string -> CreateReply)
    requires Reconcile(ledger, 0, count, create, 0, []).error.None?
    requires forall n :: n in Reconcile(ledger, 0, count, create, 0, []).calls ==> !create(n).Skipped?
    ensures var after := Reconcile(ledger, 0, count, create, 0, []).ledger;
      Reconcile(after, 0, count, again, 0, []) == Run(after, 0, [], None)
  {
    ProvisionComplete(ledger, count, create);
    AllPresentIdle(Reconcile(ledger, 0, count, create, 0, []).ledger, 0, count, again, 0, []);
  }

  /** The loop errors carry the index at which the run stopped. */
  predicate LoopError(e: ProvisionError) {
    e.ExistingWithoutAddress? || e.CreateFailed? || e.CreatedWithoutAddress?
  }

  /**
   * Fail fast: a run that stops with an error stopped at some index `k`; up
   * to `k` it is a run that ends without error, and the error is what the
   * single step at `k` does after that run. Nothing past `k` is looked at.
   */
  lemma {:induction false} ReconcileFailFast(ledger: Entries, i: nat, count: int, create: string -> CreateReply,
                                             created: nat, calls: seq<string>)
    requires Reconcile(ledger, i, count, create, created, calls).error.Some?
    ensures var r := Reconcile(ledger, i, count, create, created, calls);
      && LoopError(r.error.value)
      && i <= r.error.value.index < count
      && var k := r.error.value.index;
         var p := Reconcile(ledger, i, k, create, created, calls);
         && p.error.None?
         && r == Reconcile(p.ledger, k, k + 1, create, p.created, p.calls)
    decreases count - i
  {
    var name := NodeName(i);
    if name in ledger && |ledger[name].ipv4| > 0 {
      ReconcileFailFast(ledger, i + 1, count, create, created, calls);
    } else if name !in ledger && create(name).Skipped? {
      ReconcileFailFast(ledger, i + 1, count, create, created, calls + [name]);
    } else if name !in ledger && create(name).Created? && |create(name).ipv4| > 0 {
      var ledger' := ledger[name := NewRecord(name, create(name).id, create(name).ipv4)];
      ReconcileFailFast(ledger', i + 1, count, create, created + 1, calls + [name]);
    }
  }

  /**
   * A failed create leaves in the ledger the nodes of the indices before the
   * failure, as a run up to that index would, and adds nothing at or after it.
   */
  lemma CreateFailureKeepsEarlier(ledger: Entries, count: int, create: string -> CreateReply)
    requires Reconcile(ledger, 0, count, create, 0, []).error.Some?
    requires Reconcile(ledger, 0, count, create, 0, []).error.value.CreateFailed?
    ensures var r := Reconcile(ledger, 0, count, create, 0, []);
      var k := r.error.value.index;
      && r.ledger == Reconcile(ledger, 0, k, create, 0, []).ledger
      && r.ledger.Keys == ledger.Keys + Fresh(ledger, 0, k, create)
      && (forall j: nat :: j >= k ==> (NodeName(j) in r.ledger <==> NodeName(j) in ledger))
      && |r.calls| > 0 && r.calls[|r.calls| - 1] == NodeName(k)
  {
    var r := Reconcile(ledger, 0, count, create, 0, []);
    ReconcileFailFast(ledger, 0, count, create, 0, []);
    var k := r.error.value.index;
    var p := Reconcile(ledger, 0, k, create, 0, []);
    LedgerSucceeds(ledger, 0, k, create, 0, []);
    forall j: nat | j >= k ensures NodeName(j) in r.ledger <==> NodeName(j) in ledger {
      if NodeName(j) in Fresh(ledger, 0, k, create) {
        var j': nat :| j' < k && NodeName(j') == NodeName(j);
        NodeNameInjective(j, j');
      }
    }
  }

  /**
   * Growing a fleet of `small` nodes to `large` on an account holding no
   * scale node at index `small` or beyond asks the provider for exactly the
   * names of the indices `small .. large - 1` and, when none of those creates
   * is skipped, creates exactly `large - small` nodes.
   */
  lemma Growth(ledger: Entries, small: int, large: int, create: string -> CreateReply, again: string -> CreateReply)
    requires 0 <= small <= large
    requires forall j: nat :: small <= j ==> NodeName(j) !in ledger
    requires Reconcile(ledger, 0, small, create, 0, []).error.None?
    requires forall n :: n in Reconcile(ledger, 0, small, create, 0, []).calls ==> !create(n).Skipped?
    requires var mid := Reconcile(ledger, 0, small, create, 0, []).ledger;
      && Reconcile(mid, 0, large, again, 0, []).error.None?
      && forall n :: n in Reconcile(mid, 0, large, again, 0, []).calls ==> !again(n).Skipped?
    ensures var mid := Reconcile(ledger, 0, small, create, 0, []).ledger;
      var r := Reconcile(mid, 0, large, again, 0, []);
      && (forall n :: n in r.calls <==> n in Targets(small, large))
      && r.created == large - small
  {
    var mid := Reconcile(ledger, 0, small, create, 0, []).ledger;
    NoSkipLedger(ledger, small, create);
    GrowthTargets(ledger, mid, small, large);
    CallsFromStart(mid, large, again);
    NoSkipCount(mid, large, again);
    TargetsCount(small, large);
  }

  /** After the first `small` indices are tracked, the untracked targets up to `large` are those from `small` on. */
  lemma GrowthTargets(ledger: Entries, mid: Entries, small: nat, large: int)
    requires small <= large
    requires forall j: nat :: small <= j ==> NodeName(j) !in ledger
    requires mid.Keys == ledger.Keys + Targets(0, small)
    ensures Targets(0, large) - mid.Keys == Targets(small, large)
  {
    forall n | n in Targets(0, large) - mid.Keys ensures n in Targets(small, large) {
      var j: nat :| j < large && n == NodeName(j);
    }
    forall n | n in Targets(small, large) ensures n in Targets(0, large) - mid.Keys {
      var j: nat :| small <= j < large && n == NodeName(j);
      assert n in Targets(0, large);
      if n in Targets(0, small) {
        var j': nat :| j' < small && n == NodeName(j');
        NodeNameInjective(j, j');
      }
    }
  }

  /**
   * `main(count, check_mode)`: runs the provisioning loop over the ledger,
   * waits for SSH when it created a node outside check mode, counts the
   * prefixed nodes and writes the inventory. The provider's replies and the
   * outcome of the SSH wait are parameters; `calls` lists the names the
   * provider was asked to create, in order.
   */
  method Provision(store: StateStore, file: InventoryFile, count: int, checkMode: bool,
                   create: string -> CreateReply, sshReachable: bool)
    returns (r: Result<Summary, ProvisionError>, calls: seq<string>)
    modifies store, file
    ensures var run := Reconcile(old(store.entries), 0, count, create, 0, []);
      calls == run.calls && store.entries == run.ledger
    ensures var run := Reconcile(old(store.entries), 0, count, create, 0, []);
      run.error.Some? ==> r == Err(run.error.value) && file.contents == old(file.contents)
    ensures var run := Reconcile(old(store.entries), 0, count, create, 0, []);
      run.error.None? && run.created > 0 && !checkMode && !sshReachable ==>
        r == Err(SshTimeout) && file.contents == old(file.contents)
    ensures var run := Reconcile(old(store.entries), 0, count, create, 0, []);
      var waited := run.created > 0 && !checkMode;
      run.error.None? && (waited ==> sshReachable) && Addressed(run.ledger) ==>
        && r == Ok(Summary(run.created, waited, |PrefixNames(run.ledger)|, |PrefixNames(run.ledger)|))
        && file.contents == Some(InventoryText(run.ledger))
    ensures var run := Reconcile(old(store.entries), 0, count, create, 0, []);
      var waited := run.created > 0 && !checkMode;
      run.error.None? && (waited ==> sshReachable) && !Addressed(run.ledger) ==>
        && r.Err? && r.error.InventoryWithoutAddress?
        && r.error.name in PrefixNames(run.ledger) && |run.ledger[r.error.name].ipv4| == 0
        && file.contents == old(file.contents)
  {
    ghost var run := Reconcile(store.entries, 0, count, create, 0, []);
    var created := 0;
    calls := [];
    var i := 0;
    while i < count
      invariant unchanged(file)
      invariant Reconcile(store.entries, i, count, create, created, calls) == run
      decreases count - i
    {
      var name := NodeName(i);
      var present := store.Has(name);
      if present {
        var existing := store.Get(name);
        if |existing.value.ipv4| == 0 {
          return Err(ExistingWithoutAddress(i, name)), calls;
        }
        i := i + 1;
        continue;
      }
      calls := calls + [name];
      var reply := create(name);
      if reply.Failed? {
        return Err(CreateFailed(i, name, reply.reason)), calls;
      }
      if reply.Skipped? {
        i := i + 1;
        continue;
      }
      var added := store.Add(name, NewRecord(name, reply.id, reply.ipv4));
      if |reply.ipv4| == 0 {
        return Err(CreatedWithoutAddress(i, name)), calls;
      }
      created := created + 1;
      i := i + 1;
    }
    var waited := created > 0 && !checkMode;
    if waited && !sshReachable {
      return Err(SshTimeout), calls;
    }
    var names := store.Resources();
    var total := |Matching(names)|;
    CountMatching(names, store.entries);
    var hosts := WriteInventory(store, file);
    match hosts
    case Ok(n) =>
      r := Ok(Summary(created, waited, total, n));
    case Err(missing) =>
      r := Err(InventoryWithoutAddress(missing));
  }
}
