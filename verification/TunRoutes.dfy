/**
 Installing, replacing and removing the routes and policy rules of a TUN device
 (`LinuxTunRoutes`, src/tun_route_linux.rs). The kernel is the set of its routes and rules. Adding
 an entry may fail for any reason and fails when the entry exists; deleting a missing entry is not
 an error; deletes, and the adds that undo them, do not fail otherwise.
 */
module TunRoutes {
  import opened Basics
  import TunPlan

  type Action = TunPlan.Action

  function Set(actions: seq<Action>): set<Action> {
    set a | a in actions
  }

  class Kernel {
    var entries: set<Action>

    constructor (entries: set<Action>)
      ensures this.entries == entries
    {
      this.entries := entries;
    }

    /** `run_ip` with `add`: `working` is false when the command fails for a reason of its own. */
    method Add(a: Action, working: bool) returns (ok: bool)
      modifies this
      ensures ok <==> working && a !in old(entries)
      ensures entries == if ok then old(entries) + {a} else old(entries)
    {
      ok := working && a !in entries;
      if ok { entries := entries + {a}; }
    }

    /** `run_ip_delete`. */
    method Delete(a: Action)
      modifies this
      ensures entries == old(entries) - {a}
    {
      entries := entries - {a};
    }

    method DeleteReversed(actions: seq<Action>)
      modifies this
      ensures entries == old(entries) - Set(actions)
    {
      var i := |actions|;
      while i > 0
        invariant 0 <= i <= |actions|
        invariant entries == old(entries) - Set(actions[i..])
      {
        i := i - 1;
        Delete(actions[i]);
        assert actions[i..] == [actions[i]] + actions[i + 1..];
      }
      assert actions[0..] == actions;
    }

    /** Puts deleted entries back; one that is there already stays. */
    method Restore(actions: seq<Action>)
      modifies this
      ensures entries == old(entries) + Set(actions)
    {
      for i := 0 to |actions|
        invariant entries == old(entries) + Set(actions[..i])
      {
        var _ := Add(actions[i], true);
        assert actions[..i + 1] == actions[..i] + [actions[i]];
      }
      assert actions[..|actions|] == actions;
    }

    /** Adds in order up to the first failure; `works` says which commands fail on their own. */
    method AddAll(actions: seq<Action>, works: nat -> bool) returns (added: nat)
      modifies this
      ensures added <= |actions|
      ensures entries == old(entries) + Set(actions[..added])
      ensures Set(actions[..added]) !! old(entries)
      ensures added == |actions| <==> AllAdded(old(entries), actions, works)
    {
      added := 0;
      while added < |actions|
        invariant added <= |actions|
        invariant entries == old(entries) + Set(actions[..added])
        invariant Set(actions[..added]) !! old(entries)
        invariant forall i :: 0 <= i < added ==> Addable(old(entries), actions, works, i)
      {
        var ok := Add(actions[added], works(added));
        if !ok {
          assert !Addable(old(entries), actions, works, added);
          return;
        }
        assert actions[..added + 1] == actions[..added] + [actions[added]];
        added := added + 1;
      }
    }
  }

  /** The command works, and its entry is neither in the kernel nor earlier in the list. */
  predicate Addable(entries: set<Action>, actions: seq<Action>, works: nat -> bool, i: nat)
    requires i < |actions|
  {
    works(i) && actions[i] !in entries && actions[i] !in actions[..i]
  }

  ghost predicate AllAdded(entries: set<Action>, actions: seq<Action>, works: nat -> bool) {
    forall i :: 0 <= i < |actions| ==> Addable(entries, actions, works, i)
  }

  /** The actions, in order, that are not in the other list. */
  function Without(actions: seq<Action>, other: seq<Action>): (rest: seq<Action>)
    ensures Set(rest) == Set(actions) - Set(other)
  {
    if actions == [] then []
    else
      var last := actions[|actions| - 1];
      assert Set(actions) == Set(actions[..|actions| - 1]) + {last};
      var rest := Without(actions[..|actions| - 1], other);
      assert Set(rest + [last]) == Set(rest) + {last};
      if last in other then rest else rest + [last]
  }

  method KeepOnly(actions: seq<Action>, other: seq<Action>) returns (rest: seq<Action>)
    ensures rest == Without(actions, other)
  {
    rest := [];
    for i := 0 to |actions|
      invariant rest == Without(actions[..i], other)
    {
      assert actions[..i + 1][..i] == actions[..i];
      if actions[i] !in other { rest := rest + [actions[i]]; }
    }
    assert actions[..|actions|] == actions;
  }

  lemma AddedAreNew(entries: set<Action>, removed: seq<Action>, added: seq<Action>, works: nat -> bool)
    requires Set(removed) !! Set(added)
    ensures AllAdded(entries - Set(removed), added, works) <==> AllAdded(entries, added, works)
  {
    forall i | 0 <= i < |added|
      ensures Addable(entries - Set(removed), added, works, i) <==> Addable(entries, added, works, i)
    {
      assert added[i] in Set(added);
    }
  }

  /**
   The guard over the installed entries. `foreign` is what the kernel holds besides them.
   */
  class LinuxTunRoutes {
    const kernel: Kernel
    var installed: seq<Action>
    ghost const foreign: set<Action>

    ghost predicate Valid()
      reads this, kernel
    {
      kernel.entries == foreign + Set(installed) && foreign !! Set(installed)
    }

    constructor (kernel: Kernel, installed: seq<Action>)
      ensures this.kernel == kernel && this.installed == installed
      ensures foreign == kernel.entries - Set(installed)
    {
      this.kernel := kernel;
      this.installed := installed;
      this.foreign := kernel.entries - Set(installed);
    }

    /**
     `replace`: the kernel ends with the new plan in place of the old one or, when an add fails,
     exactly as it was. `plan` is None when the plan cannot be built.
     */
    method Replace(plan: Option<seq<Action>>, works: nat -> bool) returns (ok: bool)
      requires Valid()
      modifies this, kernel
      ensures Valid()
      ensures ok <==> plan.Some? && AllAdded(old(kernel.entries), Without(plan.value, old(installed)), works)
      ensures ok ==> installed == plan.value
      ensures !ok ==> installed == old(installed) && kernel.entries == old(kernel.entries)
    {
      if plan == None { return false; }
      var next := plan.value;
      var removed := KeepOnly(installed, next);
      var added := KeepOnly(next, installed);
      AddedAreNew(kernel.entries, removed, added, works);
      kernel.DeleteReversed(removed);
      var count := kernel.AddAll(added, works);
      if count < |added| {
        kernel.DeleteReversed(added[..count]);
        kernel.Restore(removed);
        return false;
      }
      assert added[..count] == added;
      installed := next;
      return true;
    }

    /** Dropping the guard leaves only what it did not install. */
    method Drop()
      requires Valid()
      modifies this, kernel
      ensures kernel.entries == foreign && installed == []
    {
      kernel.DeleteReversed(installed);
      installed := [];
    }
  }

  /**
   `install`: entries of the plan left by an earlier process are removed first. A failed install
   leaves nothing of the plan behind.
   */
  method Install(kernel: Kernel, plan: Option<seq<Action>>, works: nat -> bool) returns (guard: Option<LinuxTunRoutes>)
    modifies kernel
    ensures guard.Some? <==> plan.Some? && AllAdded(old(kernel.entries) - Set(plan.value), plan.value, works)
    ensures guard.Some? ==> fresh(guard.value) && guard.value.kernel == kernel && guard.value.Valid()
    ensures guard.Some? ==> guard.value.installed == plan.value
    ensures guard.Some? ==> guard.value.foreign == old(kernel.entries) - Set(plan.value)
    ensures guard.None? ==> kernel.entries == old(kernel.entries) - if plan.Some? then Set(plan.value) else {}
  {
    if plan == None { return None; }
    kernel.DeleteReversed(plan.value);
    var count := kernel.AddAll(plan.value, works);
    var g := new LinuxTunRoutes(kernel, plan.value[..count]);
    if count < |plan.value| {
      g.Drop();
      return None;
    }
    assert plan.value[..count] == plan.value;
    return Some(g);
  }

  /** What a replacement is asked to do. */
  datatype Request = Request(plan: Option<seq<Action>>, works: nat -> bool)

  /**
   A whole life: install, any replacements with any failures, drop. Whatever fails, the kernel ends
   with its own entries less those of the first plan, which were stale or installed here.
   */
  method Life(kernel: Kernel, plan: Option<seq<Action>>, works: nat -> bool, requests: seq<Request>)
    modifies kernel
    ensures kernel.entries == old(kernel.entries) - if plan.Some? then Set(plan.value) else {}
  {
    var guard := Install(kernel, plan, works);
    if guard == None { return; }
    var g := guard.value;
    for i := 0 to |requests|
      invariant g.Valid() && g.kernel == kernel && fresh(g)
      invariant g.foreign == old(kernel.entries) - Set(plan.value)
    {
      var _ := g.Replace(requests[i].plan, requests[i].works);
    }
    g.Drop();
  }

  /** Every command of a plan of `n` actions works. */
  ghost predicate AllWork(works: nat -> bool, n: nat) {
    forall i :: 0 <= i < n ==> works(i)
  }

  /** A plan is added to a kernel without it exactly when every command works and no action comes twice. */
  lemma DistinctIsAdded(entries: set<Action>, plan: seq<Action>, works: nat -> bool)
    ensures AllAdded(entries - Set(plan), plan, works) <==> AllWork(works, |plan|) && TunPlan.Distinct(plan)
  {
    var left := entries - Set(plan);
    if AllAdded(left, plan, works) {
      forall i | 0 <= i < |plan| ensures works(i) {
        assert Addable(left, plan, works, i);
      }
      forall i, j | 0 <= i < j < |plan| ensures plan[i] != plan[j] {
        assert Addable(left, plan, works, j);
        assert plan[..j][i] == plan[i];
      }
    }
    if AllWork(works, |plan|) && TunPlan.Distinct(plan) {
      forall j | 0 <= j < |plan| ensures Addable(left, plan, works, j) {
        assert plan[j] in Set(plan);
        assert forall i :: 0 <= i < j ==> plan[..j][i] == plan[i] != plan[j];
      }
    }
  }

  /**
   `install` from the configuration: it succeeds if and only if the rules fit below the priority
   limit, no family in use routes a prefix twice, and every add command works.
   */
  method InstallConfigured(kernel: Kernel, c: TunPlan.Config, works: nat -> bool)
    returns (guard: Option<LinuxTunRoutes>)
    modifies kernel
    ensures guard.Some? <==>
      && AllWork(works, |TunPlan.Plan(c)|)
      && forall v6 :: TunPlan.HasFamily(c, v6) ==>
           TunPlan.Fits(c, v6) && TunPlan.Distinct(TunPlan.Family(c.routes, v6))
    ensures guard.Some? ==> fresh(guard.value) && guard.value.kernel == kernel && guard.value.Valid()
    ensures guard.Some? ==> guard.value.installed == TunPlan.Plan(c)
  {
    hide TunPlan.Plan, TunPlan.Fits, TunPlan.HasFamily, TunPlan.Family, TunPlan.Distinct, AllAdded, AllWork;
    var plan := TunPlan.BuildActions(c);
    TunPlan.PlanDistinctIff(c);
    DistinctIsAdded(kernel.entries, TunPlan.Plan(c), works);
    guard := Install(kernel, plan, works);
  }
}
