/** SAVEPOINT, ROLLBACK TO and RELEASE: a stack of named catalog snapshots. */
module Savepoints {
  import opened Basics
  import opened Catalog

  datatype State = State(catalog: Database, stack: seq<(string, Database)>)

  datatype Step =
    | Savepoint(name: string)
    | RollbackTo(name: string)
    | Release(name: string)
    | Statement(after: Database)  // any statement, by the catalog it leaves

  /** Position of the most recent open savepoint with the name. */
  function Resolve(stack: seq<(string, Database)>, name: string): (r: Option<nat>)
    ensures r.Some? ==> r.value < |stack| && stack[r.value].0 == name
    ensures r.Some? ==> forall k :: r.value < k < |stack| ==> stack[k].0 != name
    ensures r.None? ==> forall k :: 0 <= k < |stack| ==> stack[k].0 != name
  {
    if stack == [] then None
    else if stack[|stack| - 1].0 == name then Some(|stack| - 1)
    else Resolve(stack[..|stack| - 1], name)
  }

  /** A name that is not open is an error and changes nothing. */
  function Next(s: State, step: Step): State {
    match step
    case Savepoint(name) => s.(stack := s.stack + [(name, s.catalog)])
    case Statement(after) => s.(catalog := after)
    case RollbackTo(name) =>
      (match Resolve(s.stack, name)
       case None => s
       case Some(p) => State(s.stack[p].1, s.stack[..p + 1]))
    case Release(name) =>
      (match Resolve(s.stack, name)
       case None => s
       case Some(p) => s.(stack := s.stack[..p]))
  }

  // ----- the engine's object -----

  class Engine {
    var catalog: Database
    var savepoints: seq<(string, Database)>

    ghost function View(): State
      reads this
    {
      State(catalog, savepoints)
    }

    constructor (db: Database)
      ensures View() == State(db, [])
    {
      catalog, savepoints := db, [];
    }

    method ExecuteSavepoint(name: string)
      modifies this
      ensures View() == Next(old(View()), Savepoint(name))
    {
      savepoints := savepoints + [(name, catalog)];
    }

    method FindSavepoint(name: string) returns (r: Option<nat>)
      ensures r == Resolve(savepoints, name)
    {
      var n := |savepoints|;
      assert savepoints[..n] == savepoints;
      while n > 0
        invariant 0 <= n <= |savepoints|
        invariant Resolve(savepoints, name) == Resolve(savepoints[..n], name)
      {
        assert savepoints[..n][..n - 1] == savepoints[..n - 1];
        if savepoints[n - 1].0 == name {
          return Some(n - 1);
        }
        n := n - 1;
      }
      r := None;
    }

    method ExecuteRollbackTo(name: string) returns (r: Result<()>)
      modifies this
      ensures View() == Next(old(View()), RollbackTo(name))
      ensures r.Ok? <==> exists k :: 0 <= k < |old(savepoints)| && old(savepoints)[k].0 == name
    {
      var pos := FindSavepoint(name);
      if pos.None? {
        return Err(NotFound(name));
      }
      catalog := savepoints[pos.value].1;
      savepoints := savepoints[..pos.value + 1];
      r := Ok(());
    }

    method ExecuteRelease(name: string) returns (r: Result<()>)
      modifies this
      ensures View() == Next(old(View()), Release(name))
      ensures r.Ok? <==> exists k :: 0 <= k < |old(savepoints)| && old(savepoints)[k].0 == name
    {
      var pos := FindSavepoint(name);
      if pos.None? {
        return Err(NotFound(name));
      }
      savepoints := savepoints[..pos.value];
      r := Ok(());
    }
  }

  // ----- runs -----

  function Run(s: State, steps: seq<Step>): State
    decreases |steps|
  {
    if steps == [] then s else Next(Run(s, steps[..|steps| - 1]), steps[|steps| - 1])
  }

  /** When each open savepoint was created, as bracket matching on the steps alone. */
  function Created(steps: seq<Step>): (c: seq<nat>)
    ensures forall k :: 0 <= k < |c| ==> c[k] < |steps| && steps[c[k]].Savepoint?
    decreases |steps|
  {
    if steps == [] then []
    else
      var n := |steps| - 1;
      var c := Created(steps[..n]);
      match steps[n]
      case Savepoint(_) => c + [n]
      case Statement(_) => c
      case RollbackTo(name) => c[..OpenPrefix(steps, c, name)]
      case Release(name) => if Named(steps, c, name) then c[..OpenPrefix(steps, c, name) - 1] else c
  }

  ghost predicate Times(steps: seq<Step>, c: seq<nat>) {
    forall k :: 0 <= k < |c| ==> c[k] < |steps| && steps[c[k]].Savepoint?
  }

  predicate Named(steps: seq<Step>, c: seq<nat>, name: string)
    requires Times(steps, c)
  {
    exists k :: 0 <= k < |c| && steps[c[k]].name == name
  }

  /** The open savepoints up to the newest one with the name; all of them if there is none. */
  function OpenPrefix(steps: seq<Step>, c: seq<nat>, name: string): (p: nat)
    requires Times(steps, c)
    ensures p <= |c|
    ensures Named(steps, c, name) ==> 1 <= p && steps[c[p - 1]].name == name
    ensures Named(steps, c, name) ==> forall k :: p <= k < |c| ==> steps[c[k]].name != name
    ensures !Named(steps, c, name) ==> p == |c|
    decreases |c|
  {
    if !Named(steps, c, name) then |c|
    else if steps[c[|c| - 1]].name == name then |c|
    else
      var n := |c| - 1;
      assert Named(steps, c[..n], name) by {
        var k :| 0 <= k < |c| && steps[c[k]].name == name;
        assert c[..n][k] == c[k];
      }
      OpenPrefix(steps, c[..n], name)
  }

  /** Entry `k` of the stack belongs to the SAVEPOINT at time `t`: its name and the catalog then. */
  ghost predicate SnapshotOf(s: State, steps: seq<Step>, entry: (string, Database), t: nat) {
    t < |steps| && steps[t].Savepoint? && entry == (steps[t].name, Run(s, steps[..t]).catalog)
  }

  ghost predicate Faithful(s: State, steps: seq<Step>, stack: seq<(string, Database)>, c: seq<nat>) {
    |stack| == |c| && forall k :: 0 <= k < |stack| ==> SnapshotOf(s, steps, stack[k], c[k])
  }

  lemma FaithfulExtended(s: State, steps: seq<Step>, stack: seq<(string, Database)>, c: seq<nat>)
    requires steps != [] && Faithful(s, steps[..|steps| - 1], stack, c)
    ensures Faithful(s, steps, stack, c)
  {
    var n := |steps| - 1;
    forall k | 0 <= k < |stack| ensures SnapshotOf(s, steps, stack[k], c[k]) {
      assert SnapshotOf(s, steps[..n], stack[k], c[k]);
      assert steps[..n][..c[k]] == steps[..c[k]];
    }
  }

  /** The stack's resolution by name and the bracket matching find the same entry. */
  lemma ResolveMatches(s: State, steps: seq<Step>, stack: seq<(string, Database)>, c: seq<nat>, name: string)
    requires Faithful(s, steps, stack, c)
    ensures Times(steps, c)
    ensures Resolve(stack, name).Some? <==> Named(steps, c, name)
    ensures Resolve(stack, name).Some? ==> Resolve(stack, name).value == OpenPrefix(steps, c, name) - 1
  {
    forall k | 0 <= k < |c| ensures c[k] < |steps| && steps[c[k]].Savepoint? && stack[k].0 == steps[c[k]].name {
      assert SnapshotOf(s, steps, stack[k], c[k]);
    }
  }

  /**
   In every run each open savepoint holds the catalog of the moment it was created, and which
   savepoints are open is what bracket matching on the commands says.
  */
  lemma {:induction false} SavepointsFaithful(s: State, steps: seq<Step>)
    requires s.stack == []
    ensures Faithful(s, steps, Run(s, steps).stack, Created(steps))
    decreases |steps|
  {
    if steps != [] {
      var n := |steps| - 1;
      var before := Run(s, steps[..n]);
      SavepointsFaithful(s, steps[..n]);
      FaithfulExtended(s, steps, before.stack, Created(steps[..n]));
      if steps[n].RollbackTo? || steps[n].Release? {
        ResolveMatches(s, steps, before.stack, Created(steps[..n]), steps[n].name);
      }
    }
  }

  /** ROLLBACK TO restores the catalog of the moment its savepoint was set. */
  lemma RollbackRestores(s: State, steps: seq<Step>, c: seq<nat>, name: string)
    requires s.stack == [] && c == Created(steps) && Named(steps, c, name)
    ensures
      var t := c[OpenPrefix(steps, c, name) - 1];
      && steps[t] == Savepoint(name)
      && Next(Run(s, steps), RollbackTo(name)).catalog == Run(s, steps[..t]).catalog
  {
    SavepointsFaithful(s, steps);
    RestoresEntry(s, steps, Run(s, steps), c, name);
  }

  /** ROLLBACK TO from any state whose stack is faithful to the creation times `c`. */
  lemma RestoresEntry(s: State, steps: seq<Step>, end: State, c: seq<nat>, name: string)
    requires Faithful(s, steps, end.stack, c) && Times(steps, c) && Named(steps, c, name)
    ensures
      var t := c[OpenPrefix(steps, c, name) - 1];
      && steps[t] == Savepoint(name)
      && Next(end, RollbackTo(name)).catalog == Run(s, steps[..t]).catalog
  {
    ResolveMatches(s, steps, end.stack, c, name);
    var p := Resolve(end.stack, name).value;
    assert SnapshotOf(s, steps, end.stack[p], c[p]);
  }

  // ----- what lies below is safe -----

  /** The step neither rolls back to nor releases anything at or below position `p`. */
  predicate Above(s: State, step: Step, p: nat) {
    match step
    case Savepoint(_) => true
    case Statement(_) => true
    case RollbackTo(name) => Resolve(s.stack, name).Some? ==> Resolve(s.stack, name).value >= p
    case Release(name) => Resolve(s.stack, name).Some? ==> Resolve(s.stack, name).value >= p
  }

  ghost predicate AllAbove(s: State, steps: seq<Step>, p: nat) {
    forall i :: 0 <= i < |steps| ==> Above(Run(s, steps[..i]), steps[i], p)
  }

  /** Work confined above a stack position leaves the entries below it untouched. */
  lemma {:induction false} BelowUntouched(s: State, steps: seq<Step>, p: nat)
    requires p <= |s.stack| && AllAbove(s, steps, p)
    ensures s.stack[..p] <= Run(s, steps).stack
    decreases |steps|
  {
    if steps != [] {
      var n := |steps| - 1;
      forall i | 0 <= i < n ensures Above(Run(s, steps[..n][..i]), steps[..n][i], p) {
        assert steps[..n][..i] == steps[..i];
        assert Above(Run(s, steps[..i]), steps[i], p);
      }
      BelowUntouched(s, steps[..n], p);
      assert Above(Run(s, steps[..n]), steps[n], p);
    }
  }

  /**
   A savepoint undoes whatever happens after it: SAVEPOINT, any work that stays above it, then
   ROLLBACK TO resolving to it, gives back the catalog and the stack as they were, and doing it
   again changes nothing.
  */
  lemma SavepointUndoes(s: State, name: string, steps: seq<Step>)
    requires AllAbove(Next(s, Savepoint(name)), steps, |s.stack| + 1)
    requires Resolve(Run(Next(s, Savepoint(name)), steps).stack, name) == Some(|s.stack|)
    ensures
      var saved := Next(s, Savepoint(name));
      var back := Next(Run(saved, steps), RollbackTo(name));
      back == saved && Next(back, RollbackTo(name)) == back
  {
    var saved := Next(s, Savepoint(name));
    var end := Run(saved, steps);
    BelowUntouched(saved, steps, |s.stack| + 1);
    assert saved.stack[..|s.stack| + 1] == saved.stack;
    assert end.stack[..|s.stack| + 1] == saved.stack;
    assert end.stack[|s.stack|] == (name, s.catalog);
    assert saved.stack[..|s.stack| + 1] == saved.stack;
  }

  /** RELEASE keeps the catalog and drops the savepoint with everything above it. */
  lemma ReleaseDrops(s: State, name: string, steps: seq<Step>)
    requires AllAbove(Next(s, Savepoint(name)), steps, |s.stack| + 1)
    requires Resolve(Run(Next(s, Savepoint(name)), steps).stack, name) == Some(|s.stack|)
    ensures
      var end := Run(Next(s, Savepoint(name)), steps);
      Next(end, Release(name)) == State(end.catalog, s.stack)
  {
    var saved := Next(s, Savepoint(name));
    var end := Run(saved, steps);
    BelowUntouched(saved, steps, |s.stack| + 1);
    assert saved.stack[..|s.stack| + 1] == saved.stack;
    assert end.stack[..|s.stack|] == saved.stack[..|s.stack|] == s.stack;
  }
}
