/** INSERT, UPDATE and DELETE on the engine's mutable catalog. */
module DmlEngine {
  import opened Basics
  import opened Catalog
  import opened DmlWhere
  import opened CascadeWhere
  import opened ForeignKeys
  import opened Constraints
  import opened DeleteTheory
  import opened DeleteSuccess
  import opened Statements

  /** Both sides of every foreign key have the same number of columns. */
  ghost predicate KeyWidths(t: Table) {
    forall fk :: fk in t.ForeignKeys() ==> |fk.columns| == |fk.refColumns|
  }

  lemma WellFormedWidths(db: Database)
    requires WellFormed(db)
    ensures forall t :: t in db ==> KeyWidths(db[t])
  {
    forall t, fk | t in db && fk in db[t].ForeignKeys() ensures |fk.columns| == |fk.refColumns| {
      var k :| 0 <= k < |db[t].ForeignKeys()| && db[t].ForeignKeys()[k] == fk;
      assert WellFormedKey(db, t, fk);
    }
  }

  /** No row other than `self` has the same cells at the positions `s`. */
  ghost predicate FreeAt(t: Table, s: seq<nat>, row: Row, self: Option<nat>) {
    forall j :: 0 <= j < t.rowCount && self != Some(j) ==> Project(t.RowAt(j), s) != Project(row, s)
  }

  lemma FreeAccepted(t: Table, row: Row)
    ensures RowAccepted(t, row) <==>
      PassesChecks(t, row)
      && (forall s: seq<nat> :: IsUniqueSet(t, s) ==> FreeAt(t, s, row, None))
      && (forall s: seq<nat> :: IsPrimaryKey(t, s) ==> FreeAt(t, s, row, None))
  {
    forall s: seq<nat> ensures FreeAt(t, s, row, None) <==> !Taken(t.Rows(), s, row) {
      if Taken(t.Rows(), s, row) {
        var i :| 0 <= i < |t.Rows()| && Project(t.Rows()[i], s) == Project(row, s);
        assert Project(t.RowAt(i), s) == Project(row, s);
      }
      if !FreeAt(t, s, row, None) {
        var j :| 0 <= j < t.rowCount && Project(t.RowAt(j), s) == Project(row, s);
        assert Project(t.Rows()[j], s) == Project(row, s);
      }
    }
  }

  lemma {:induction false} ResolvePrefix(names: seq<string>, assignments: seq<(string, u64)>, k: nat)
    requires k <= |assignments| && Resolve(names, assignments[..k]).Err?
    ensures Resolve(names, assignments) == Resolve(names, assignments[..k])
    decreases |assignments| - k
  {
    if k < |assignments| {
      assert assignments[..k + 1][..k] == assignments[..k];
      ResolvePrefix(names, assignments, k + 1);
    } else {
      assert assignments[..k] == assignments;
    }
  }

  /** The column-rebuild loop of a DELETE outside MVCC mode. */
  method CompactColumns(t: Table, mask: seq<bool>) returns (t1: Table)
    requires t.Valid() && |mask| == t.rowCount
    ensures t1.Valid() && t1.columnNames == t.columnNames && t1.schema == t.schema
    ensures t1.rowCount == t.rowCount - Count(mask)
    ensures t1.Rows() == Select(t.Rows(), Negated(mask))
  {
    var keep := Negated(mask);
    var columns: seq<seq<u64>> := [];
    for c := 0 to |t.columns|
      invariant |columns| == c
      invariant forall d :: 0 <= d < c ==> columns[d] == Select(t.columns[d], keep)
    {
      var col := t.columns[c];
      var kept: seq<u64> := [];
      for i := 0 to |col|
        invariant kept == Select(col[..i], keep[..i])
      {
        SelectAppend(col[..i], keep[..i], col[i], keep[i]);
        assert col[..i + 1] == col[..i] + [col[i]] && keep[..i + 1] == keep[..i] + [keep[i]];
        if keep[i] {
          kept := kept + [col[i]];
        }
      }
      assert col[..|col|] == col && keep[..|col|] == keep;
      columns := columns + [kept];
    }
    PickedCount(mask);
    t1 := t.(columns := columns, rowCount := t.rowCount - Count(mask));
    CompactRows(t, t1, keep);
    forall c | 0 <= c < |columns| ensures |t1.columns[c]| == t1.rowCount {
      SelectPicked(t.columns[c], keep);
    }
  }

  class Engine {
    var catalog: Database

    constructor (db: Database)
      ensures catalog == db
    {
      catalog := db;
    }

    /** The registered names, in an order the caller must not rely on. */
    method TableNames() returns (names: seq<string>)
      ensures forall n :: n in names <==> n in catalog
      ensures forall i, j :: 0 <= i < j < |names| ==> names[i] != names[j]
    {
      names := [];
      var todo := catalog.Keys;
      while todo != {}
        invariant todo <= catalog.Keys
        invariant forall n :: n in names <==> n in catalog.Keys - todo
        invariant forall i, j :: 0 <= i < j < |names| ==> names[i] != names[j]
        decreases |todo|
      {
        var n :| n in todo;
        forall i | 0 <= i < |names| ensures names[i] != n { assert names[i] in names; }
        names := names + [n];
        todo := todo - {n};
      }
    }

    /** The foreign keys of one table that reference `parent`, in their order; `at` records their numbers. */
    method TableKeys(parent: string, name: string) returns (fks: seq<(string, ForeignKey)>, ghost at: seq<nat>)
      requires name in catalog
      ensures KeysOfTables(catalog, parent, fks, at, {name})
    {
      fks, at := [], [];
      var keys := catalog[name].ForeignKeys();
      for k := 0 to |keys|
        invariant |at| == |fks|
        invariant forall i :: 0 <= i < |fks| ==> fks[i].0 == name && at[i] < k && fks[i].1 == keys[at[i]] && fks[i].1.refTable == parent
        invariant forall j :: 0 <= j < k && keys[j].refTable == parent ==> Listed(fks, at, name, j)
        invariant forall i, j :: 0 <= i < j < |fks| ==> at[i] < at[j]
      {
        if keys[k].refTable == parent {
          forall j | 0 <= j < k && keys[j].refTable == parent ensures Listed(fks + [(name, keys[k])], at + [k], name, j) {
            ListedLater(fks, at, [(name, keys[k])], [k], name, j);
          }
          fks := fks + [(name, keys[k])];
          at := at + [k];
          assert fks[|fks| - 1].0 == name && at[|fks| - 1] == k;
        }
      }
    }

    /** Every foreign key of another table that references `parent`; `at` records their numbers. */
    method ChildKeys(parent: string) returns (fks: seq<(string, ForeignKey)>, ghost at: seq<nat>)
      ensures forall c, fk :: (c, fk) in fks <==>
        c in catalog && c != parent && fk in catalog[c].ForeignKeys() && fk.refTable == parent
      ensures KeysInOrder(catalog, parent, fks, at)
    {
      fks, at := [], [];
      var names := TableNames();
      ghost var tables := {};
      for n := 0 to |names|
        invariant forall t :: t in tables <==> t in names[..n] && t != parent
        invariant KeysOfTables(catalog, parent, fks, at, tables)
      {
        var name := names[n];
        assert names[..n + 1] == names[..n] + [name];
        if name != parent {
          var more;
          ghost var moreAt;
          more, moreAt := TableKeys(parent, name);
          AnotherTable(catalog, parent, fks, at, tables, name, more, moreAt);
          fks, at, tables := fks + more, at + moreAt, tables + {name};
        }
      }
      assert names[..|names|] == names;
      assert tables == catalog.Keys - {parent};
      AllTables(catalog, parent, fks, at);
    }

    /** The referenced values of the rows about to be deleted. */
    method DeletedParentValues(parent: Table, cols: seq<string>, mask: seq<bool>) returns (vals: seq<seq<u64>>)
      requires |mask| == parent.rowCount
      ensures vals == Select(KeysOf(parent, cols), mask)
    {
      vals := [];
      var keys := KeysOf(parent, cols);
      for i := 0 to |mask|
        invariant vals == Select(keys[..i], mask[..i])
      {
        SelectAppend(keys[..i], mask[..i], keys[i], mask[i]);
        assert keys[..i + 1] == keys[..i] + [keys[i]] && mask[..i + 1] == mask[..i] + [mask[i]];
        if mask[i] {
          vals := vals + [Key(parent.columnNames, parent.RowAt(i), cols)];
        }
      }
      assert keys[..|mask|] == keys && mask[..|mask|] == mask;
    }

    /** The RESTRICT scan: does any child row carry one of the tuples? */
    method AnyReferrer(child: Table, cols: seq<string>, tuples: seq<seq<u64>>) returns (found: bool)
      ensures found <==> exists x :: x in child.Rows() && Key(child.columnNames, x, cols) in tuples
    {
      for i := 0 to child.rowCount
        invariant forall j :: 0 <= j < i ==> Key(child.columnNames, child.Rows()[j], cols) !in tuples
      {
        var vals := Key(child.columnNames, child.RowAt(i), cols);
        for k := 0 to |tuples|
          invariant vals !in tuples[..k]
        {
          if vals == tuples[k] {
            assert child.Rows()[i] in child.Rows();
            return true;
          }
          assert tuples[..k + 1] == tuples[..k] + [tuples[k]];
        }
        assert tuples[..|tuples|] == tuples;
      }
      found := false;
    }

    /** One foreign key: the RESTRICT scan, or the recursive DELETE of a CASCADE. */
    method EnforceKey(parent: string, mask: seq<bool>, child: string, fk: ForeignKey,
                      ghost db: Database, ghost dead: set<RowId>, ghost rank: map<string, nat>)
      returns (r: Result<()>, ghost more: set<RowId>)
      requires Enforcing(db, catalog, dead, parent, mask, rank)
      requires child in catalog && fk in catalog[child].ForeignKeys() && fk.refTable == parent
      modifies this
      ensures Pruned(old(catalog), catalog, more)
      ensures Enforcing(db, catalog, dead + more, parent, mask, rank)
      ensures r.Ok? && ExactFor(db, Seed(parent, db[parent], mask)) ==>
        NoReferrer(catalog, child, fk, Select(KeysOf(db[parent], fk.refColumns), mask))
      ensures r.Ok? ==> KeyDone(old(catalog), catalog, more, child, fk, Select(KeysOf(db[parent], fk.refColumns), mask))
      ensures fk.Action() != Cascade ==> catalog == old(catalog)
      ensures fk.Action() != Cascade ==>
        r == if NoReferrer(catalog, child, fk, Select(KeysOf(db[parent], fk.refColumns), mask)) then Ok(()) else Err(Other("23504"))
      ensures (fk.Action() == Cascade ==> NoChildren(old(catalog), child)) ==>
        (r.Ok? <==> PassesNow(old(catalog), child, fk, Select(KeysOf(db[parent], fk.refColumns), mask)))
      ensures KeyNeverFails(old(catalog), fk) && NeverFails(old(catalog)) ==> r.Ok?
      decreases rank[parent], 1
    {
      var tuples := DeletedParentValues(catalog[parent], fk.refColumns, mask);
      more := {};
      if fk.Action() == Restrict || fk.Action() == NoAction {
        PrunedNothing(catalog);
        assert dead + {} == dead;
        var found := AnyReferrer(catalog[child], fk.columns, tuples);
        r := if found then Err(Other("23504")) else Ok(());
      } else {
        assert fk.Action() == Cascade by {
          var i :| 0 <= i < |catalog[child].ForeignKeys()| && catalog[child].ForeignKeys()[i] == fk;
          assert WellFormedKey(catalog, child, fk);
        }
        r, more := CascadeKey(parent, mask, child, fk, tuples, db, dead, rank);
      }
    }

    /** CASCADE: a DELETE on the child for the tuples that go away. */
    method CascadeKey(parent: string, mask: seq<bool>, child: string, fk: ForeignKey, tuples: seq<seq<u64>>,
                      ghost db: Database, ghost dead: set<RowId>, ghost rank: map<string, nat>)
      returns (r: Result<()>, ghost more: set<RowId>)
      requires Enforcing(db, catalog, dead, parent, mask, rank)
      requires child in catalog && fk in catalog[child].ForeignKeys() && fk.refTable == parent && fk.Action() == Cascade
      requires tuples == Select(KeysOf(catalog[parent], fk.refColumns), mask)
      modifies this
      ensures Pruned(old(catalog), catalog, more)
      ensures Enforcing(db, catalog, dead + more, parent, mask, rank)
      ensures r.Ok? && ExactFor(db, Seed(parent, db[parent], mask)) ==>
        NoReferrer(catalog, child, fk, Select(KeysOf(db[parent], fk.refColumns), mask))
      ensures r.Ok? ==> KeyDone(old(catalog), catalog, more, child, fk, Select(KeysOf(db[parent], fk.refColumns), mask))
      ensures NoChildren(old(catalog), child) ==>
        (r.Ok? <==> PassesNow(old(catalog), child, fk, Select(KeysOf(db[parent], fk.refColumns), mask)))
      ensures KeyNeverFails(old(catalog), fk) && NeverFails(old(catalog)) ==> r.Ok?
      decreases rank[parent], 0
    {
      var where := BuildCascadeWhere(fk.columns, tuples);
      ghost var mid := catalog;
      assert ChildOf(mid, child, parent);
      CascadeSeed(mid, child, fk, mask, []);
      var res;
      res, more := ExecuteDelete(child, where, rank);
      CascadeEnforces(db, mid, catalog, dead, more, parent, child, fk, mask, where, rank);
      CascadeReadsIff(mid, child, fk, mask);
      if NoChildren(mid, child) && MatchMask(mid[child], where).Ok? {
        LeafPasses(mid, child, MatchMask(mid[child], where).value);
      }
      if res.Err? {
        return Err(res.error), more;
      }
      CascadeDone(db, mid, catalog, dead, more, parent, child, fk, mask, where);
      r := Ok(());
    }

    /**
     Enforces the foreign keys of every child before rows of `parent` go away. Only tables of
     lower rank change; what is removed lies below every closed set above the addressed rows, and
     is closed where cascades read exactly, whether or not a RESTRICT stops the statement half-way.
    */
    method EnforceFkOnDelete(parent: string, mask: seq<bool>, ghost rank: map<string, nat>)
      returns (r: Result<()>, ghost dead: set<RowId>)
      requires Ready(catalog, rank)
      requires parent in catalog && |mask| == catalog[parent].rowCount && Count(mask) > 0
      modifies this
      ensures Enforcing(old(catalog), catalog, dead, parent, mask, rank)
      ensures r.Ok? && ExactFor(old(catalog), Seed(parent, old(catalog)[parent], mask)) ==> AllClear(catalog, parent, mask)
      ensures r.Ok? ==> DirectDead(old(catalog), parent, mask) <= dead + Seed(parent, old(catalog)[parent], mask)
      ensures r.Ok? && OneLevel(old(catalog), parent) ==>
        dead + Seed(parent, old(catalog)[parent], mask) == DirectDead(old(catalog), parent, mask)
      ensures OneLevel(old(catalog), parent) ==> (r.Ok? <==> DeletePasses(old(catalog), parent, mask))
      ensures NeverFails(old(catalog)) ==> r.Ok?
      decreases rank[parent], 2
    {
      ghost var db := catalog;
      dead := {};
      EnforcingNothing(db, parent, mask, rank);
      var fks;
      ghost var at;
      fks, at := ChildKeys(parent);
      for k := 0 to |fks|
        invariant Enforcing(db, catalog, dead, parent, mask, rank)
        invariant Walking(db, catalog, dead, parent, fks, at, k, mask)
      {
        var (child, fk) := fks[k];
        assert (child, fk) in fks;
        ghost var mid := catalog;
        SameKeys(db, mid, dead, child, fk);
        ghost var more;
        r, more := EnforceKey(parent, mask, child, fk, db, dead, rank);
        WalkStep(db, mid, catalog, dead, more, parent, fks, at, k, mask, r.Ok?);
        dead := dead + more;
        if r.Err? {
          return;
        }
      }
      r := Ok(());
      WalkDone(db, catalog, dead, parent, fks, at, mask, rank);
    }

    /**
     DELETE FROM `name` WHERE ... . Only rows of the least closed set above the addressed rows ever
     go. Where the cascades of this DELETE read exactly, on success exactly that set is gone from the
     whole catalog; on failure the addressed table is untouched and whatever cascades already removed
     is closed on its own. Whether or not they read exactly, a success takes the child rows that the
     last runs of the deleted tuples reach; where CASCADE children have no children it takes no others,
     and keeps integrity iff every other child row finds its key in a spared row.
    */
    method ExecuteDelete(name: string, where: Option<Condition>, ghost rank: map<string, nat>)
      returns (r: Result<nat>, ghost dead: set<RowId>)
      requires Ready(catalog, rank)
      modifies this
      ensures Pruned(old(catalog), catalog, dead)
      ensures ExactFor(old(catalog), DeleteSeed(old(catalog), name, where)) ==> Closed(old(catalog), dead)
      ensures BelowClosed(old(catalog), DeleteSeed(old(catalog), name, where), dead)
      ensures r.Ok? ==> name in old(catalog) && MatchMask(old(catalog)[name], where).Ok?
      ensures r.Ok? && ExactFor(old(catalog), DeleteSeed(old(catalog), name, where)) ==>
        LeastClosed(old(catalog), DeleteSeed(old(catalog), name, where), dead)
      ensures r.Ok? ==> DirectDead(old(catalog), name, MatchMask(old(catalog)[name], where).value) <= dead
      ensures r.Ok? && OneLevel(old(catalog), name) ==>
        dead == DirectDead(old(catalog), name, MatchMask(old(catalog)[name], where).value)
      ensures r.Err? && OneLevel(old(catalog), name) ==> Closed(old(catalog), dead)
      ensures r.Ok? && OneLevel(old(catalog), name) && Integrity(old(catalog)) ==>
        (Integrity(catalog) <==> LeafSafe(old(catalog), name, MatchMask(old(catalog)[name], where).value))
      ensures r.Ok? ==> r.value == Count(MatchMask(old(catalog)[name], where).value)
      ensures r.Ok? ==> catalog[name].Rows() == Keep(old(catalog)[name].Rows(), name, DeleteSeed(old(catalog), name, where))
      ensures r.Err? && name in old(catalog) ==> catalog[name] == old(catalog)[name]
      ensures name !in old(catalog) ==> r == Err(NotFound(name)) && catalog == old(catalog)
      ensures forall id :: id in dead ==> id.0 == name || (id.0 in rank && name in rank && rank[id.0] < rank[name])
      ensures forall u :: u in catalog && name in rank && u != name && rank[u] >= rank[name] ==> catalog[u] == old(catalog)[u]
      ensures OneLevel(old(catalog), name) && name in old(catalog) && MatchMask(old(catalog)[name], where).Ok? ==>
        (r.Ok? <==> DeletePasses(old(catalog), name, MatchMask(old(catalog)[name], where).value))
      ensures RestrictOnly(old(catalog), name) && name in old(catalog) && MatchMask(old(catalog)[name], where).Ok? ==>
        (r.Ok? <==> AllClear(old(catalog), name, MatchMask(old(catalog)[name], where).value))
      ensures NeverFails(old(catalog)) && name in old(catalog) && MatchMask(old(catalog)[name], where).Ok? ==> r.Ok?
      decreases if name in rank then rank[name] else 0, 4
    {
      ghost var db := catalog;
      dead := {};
      PrunedNothing(db);
      if name !in catalog {
        return Err(NotFound(name)), {};
      }
      var mask := MatchMask(catalog[name], where);
      if where.Some? {
        mask := EvalSimpleWhere(catalog[name], Tokens(where.value));
      }
      if mask.Err? {
        return Err(mask.error), {};
      }
      MatchMaskByValue(catalog[name], where);
      var deleted := Count(mask.value);
      ghost var seed := Seed(name, db[name], mask.value);
      if deleted == 0 {
        CountZero(mask.value);
        assert seed == {};
        NothingTaken(db, name, mask.value);
        NothingPasses(db, name, mask.value);
        KeepAll(db[name].Rows(), name, seed);
        r := Ok(0);
      } else {
        r, dead := EnforceAndCompact(name, mask.value, rank);
      }
      if RestrictOnly(db, name) { RestrictPassesIff(db, name, mask.value); }
      if r.Ok? && OneLevel(db, name) && Integrity(db) { LeafIntegrityIff(db, name, mask.value, catalog); }
    }

    /** The second half of a DELETE, once the mask is known and not empty. */
    method EnforceAndCompact(name: string, mask: seq<bool>, ghost rank: map<string, nat>)
      returns (r: Result<nat>, ghost dead: set<RowId>)
      requires Ready(catalog, rank) && name in catalog && ByValue(catalog[name], mask) && Count(mask) > 0
      modifies this
      ensures Outcome(old(catalog), catalog, dead, name, mask, rank, r.Ok?)
      ensures r.Ok? ==> r.value == Count(mask)
      ensures OneLevel(old(catalog), name) ==> (r.Ok? <==> DeletePasses(old(catalog), name, mask))
      ensures NeverFails(old(catalog)) ==> r.Ok?
      decreases rank[name], 3
    {
      ghost var db := catalog;
      var fk;
      fk, dead := EnforceFkOnDelete(name, mask, rank);
      if fk.Err? {
        AfterRefusal(db, catalog, dead, name, mask, rank);
        return Err(fk.error), dead;
      }
      ghost var mid := catalog;
      var t := CompactColumns(catalog[name], mask);
      catalog := catalog[name := t];
      AfterCompaction(db, mid, catalog, dead, name, mask, rank);
      r := Ok(Count(mask));
      dead := dead + Seed(name, db[name], mask);
    }

    // ----- INSERT and UPDATE -----

    /** Does some parent row carry the values? */
    method ParentExists(parent: Table, cols: seq<string>, vals: seq<u64>) returns (found: bool)
      requires |vals| == |cols|
      ensures found <==> Resolved(cols, parent.columnNames) && exists y :: y in parent.Rows() && Key(parent.columnNames, y, cols) == vals
    {
      if !Resolved(cols, parent.columnNames) {
        return false;
      }
      for r := 0 to parent.rowCount
        invariant forall i :: 0 <= i < r ==> Key(parent.columnNames, parent.Rows()[i], cols) != vals
      {
        var same, row := true, parent.RowAt(r);
        for i := 0 to |cols|
          invariant same <==> Key(parent.columnNames, row, cols)[..i] == vals[..i]
        {
          var key := Key(parent.columnNames, row, cols);
          assert key[..i + 1] == key[..i] + [key[i]] && vals[..i + 1] == vals[..i] + [vals[i]];
          same := same && ValueOf(parent.columnNames, row, cols[i]) == vals[i];
        }
        assert Key(parent.columnNames, row, cols)[..|cols|] == Key(parent.columnNames, row, cols) && vals[..|cols|] == vals;
        if same {
          assert parent.Rows()[r] == row;
          return true;
        }
      }
      found := false;
    }

    method ValidateForeignKeys(name: string, rows: seq<Row>) returns (r: Result<()>)
      requires name in catalog && KeyWidths(catalog[name])
      ensures r.Ok? <==> KeysSatisfied(catalog, name, rows)
      ensures r.Err? ==> r == Err(Other("23503"))
    {
      var t := catalog[name];
      var fks := t.ForeignKeys();
      for k := 0 to |rows|
        invariant forall i, fk :: 0 <= i < k && fk in fks ==> KeySatisfied(catalog, name, fk, rows[i])
      {
        for j := 0 to |fks|
          invariant forall i :: 0 <= i < j ==> KeySatisfied(catalog, name, fks[i], rows[k])
        {
          var fk := fks[j];
          assert fk in fks;
          if Resolved(fk.columns, t.columnNames) {
            if fk.refTable !in catalog {
              return Err(Other("23503"));
            }
            var found := ParentExists(catalog[fk.refTable], fk.refColumns, Key(t.columnNames, rows[k], fk.columns));
            if !found {
              return Err(Other("23503"));
            }
          }
        }
      }
      r := Ok(());
    }

    /** Is the column combination of `row` used by another row than `self`? */
    method CombinationTaken(t: Table, s: seq<nat>, row: Row, self: Option<nat>) returns (taken: bool)
      ensures taken <==> exists j :: 0 <= j < t.rowCount && self != Some(j) && Project(t.RowAt(j), s) == Project(row, s)
    {
      for j := 0 to t.rowCount
        invariant forall i :: 0 <= i < j && self != Some(i) ==> Project(t.RowAt(i), s) != Project(row, s)
      {
        if self != Some(j) && Project(t.RowAt(j), s) == Project(row, s) {
          return true;
        }
      }
      taken := false;
    }

    /** The column-level, then the table-level UNIQUE checks for one row. */
    method UniqueFree(t: Table, row: Row, self: Option<nat>) returns (free: bool)
      ensures free <==> forall s: seq<nat> :: IsUniqueSet(t, s) ==> FreeAt(t, s, row, self)
    {
      if t.schema.None? {
        return true;
      }
      var schema := t.schema.value;
      for c := 0 to |schema.columns|
        invariant forall d :: 0 <= d < c && schema.columns[d].unique ==> FreeAt(t, [d], row, self)
      {
        if schema.columns[c].unique {
          var taken := CombinationTaken(t, [c], row, self);
          if taken {
            assert IsUniqueSet(t, [c]);
            return false;
          }
        }
      }
      for k := 0 to |schema.uniqueConstraints|
        invariant forall d :: 0 <= d < k ==>
          (Positions(t.columnNames, schema.uniqueConstraints[d]).Some? ==>
             FreeAt(t, Positions(t.columnNames, schema.uniqueConstraints[d]).value, row, self))
      {
        var combo := Positions(t.columnNames, schema.uniqueConstraints[k]);
        if combo.Some? {
          var taken := CombinationTaken(t, combo.value, row, self);
          if taken {
            assert IsUniqueSet(t, combo.value);
            return false;
          }
        }
      }
      free := true;
      forall s: seq<nat> | IsUniqueSet(t, s) ensures FreeAt(t, s, row, self) {
        if |s| == 1 && s[0] < |schema.columns| && schema.columns[s[0]].unique {
          assert s == [s[0]];
        }
      }
    }

    method PrimaryKeyFree(t: Table, row: Row) returns (free: bool)
      ensures free <==> forall s: seq<nat> :: IsPrimaryKey(t, s) ==> FreeAt(t, s, row, None)
    {
      if t.schema.None? {
        return true;
      }
      var columns := t.schema.value.columns;
      for c := 0 to |columns|
        invariant forall d :: 0 <= d < c && columns[d].primaryKey ==> FreeAt(t, [d], row, None)
      {
        if columns[c].primaryKey {
          var taken := CombinationTaken(t, [c], row, None);
          if taken {
            assert IsPrimaryKey(t, [c]);
            return false;
          }
        }
      }
      free := true;
      forall s: seq<nat> | IsPrimaryKey(t, s) ensures FreeAt(t, s, row, None) {
        assert s == [s[0]];
      }
    }

    /** The constraint checks of INSERT: primary keys of all rows first, then CHECK and UNIQUE row by row. */
    method CheckInsert(t: Table, rows: seq<Row>) returns (r: Result<()>)
      ensures r.Ok? <==> RowsAccepted(t, rows)
    {
      for k := 0 to |rows|
        invariant forall i :: 0 <= i < k ==> forall s: seq<nat> :: IsPrimaryKey(t, s) ==> FreeAt(t, s, rows[i], None)
      {
        var free := PrimaryKeyFree(t, rows[k]);
        if !free {
          FreeAccepted(t, rows[k]);
          assert !RowAccepted(t, rows[k]);
          return Err(Other("23505"));
        }
      }
      for k := 0 to |rows|
        invariant forall i :: 0 <= i < k ==> RowAccepted(t, rows[i])
      {
        FreeAccepted(t, rows[k]);
        if !PassesChecks(t, rows[k]) {
          assert !RowAccepted(t, rows[k]);
          return Err(Other("23514"));
        }
        var free := UniqueFree(t, rows[k], None);
        if !free {
          assert !RowAccepted(t, rows[k]);
          return Err(Other("23505"));
        }
      }
      r := Ok(());
    }

    /** The column-extension loop. */
    method PushRows(t: Table, rows: seq<Row>) returns (t1: Table)
      requires t.Valid() && forall k :: 0 <= k < |rows| ==> |rows[k]| == |t.columns|
      ensures t1 == Appended(t, rows)
    {
      var columns := t.columns;
      for k := 0 to |rows|
        invariant |columns| == |t.columns|
        invariant forall c :: 0 <= c < |columns| ==> columns[c] == t.columns[c] + seq(k, i requires 0 <= i < k => rows[i][c])
      {
        ghost var before := columns;
        for c := 0 to |t.columns|
          invariant |columns| == |t.columns|
          invariant forall d :: 0 <= d < c ==> columns[d] == before[d] + [rows[k][d]]
          invariant forall d :: c <= d < |columns| ==> columns[d] == before[d]
        {
          columns := columns[c := columns[c] + [rows[k][c]]];
        }
        forall c | 0 <= c < |columns|
          ensures columns[c] == t.columns[c] + seq(k + 1, i requires 0 <= i < k + 1 => rows[i][c])
        {
          assert seq(k + 1, i requires 0 <= i < k + 1 => rows[i][c]) == seq(k, i requires 0 <= i < k => rows[i][c]) + [rows[k][c]];
        }
      }
      t1 := t.(columns := columns, rowCount := t.rowCount + |rows|);
      assert t1.columns == Appended(t, rows).columns;
    }

    /** INSERT INTO `name` VALUES ... without a column list and without NULLs. */
    method ExecuteInsert(name: string, rows: seq<Row>) returns (r: Result<nat>)
      requires SameWidthRows(rows)
      requires name in catalog ==> catalog[name].Valid() && KeyWidths(catalog[name])
      modifies this
      ensures r.Ok? <==> InsertAccepted(old(catalog), name, rows)
      ensures r.Ok? ==> catalog == old(catalog)[name := Appended(old(catalog)[name], rows)] && r.value == |rows|
      ensures r.Err? ==> catalog == old(catalog)
    {
      if name !in catalog {
        return Err(NotFound(name));
      }
      var t := catalog[name];
      if |t.columns| != (if rows == [] then 0 else |rows[0]|) {
        return Err(Other("column count"));
      }
      var fk := ValidateForeignKeys(name, rows);
      if fk.Err? {
        return Err(fk.error);
      }
      var ok := CheckInsert(t, rows);
      if ok.Err? {
        return Err(ok.error);
      }
      var t1 := PushRows(t, rows);
      catalog := catalog[name := t1];
      r := Ok(|rows|);
    }

    method ResolveAssignments(names: seq<string>, assignments: seq<(string, u64)>) returns (r: Result<seq<Assignment>>)
      ensures r == Resolve(names, assignments)
    {
      var out: seq<Assignment> := [];
      for k := 0 to |assignments|
        invariant Resolve(names, assignments[..k]) == Ok(out)
      {
        assert assignments[..k + 1][..k] == assignments[..k];
        var c := Position(names, assignments[k].0);
        if c.None? {
          ResolvePrefix(names, assignments, k + 1);
          return Err(NotFound(assignments[k].0));
        }
        out := out + [Assignment(c.value, assignments[k].1)];
      }
      assert assignments[..|assignments|] == assignments;
      r := Ok(out);
    }

    /** The constraint checks of UPDATE, all against the rows as they were. */
    method CheckUpdate(t: Table, mask: seq<bool>, assigns: seq<Assignment>) returns (r: Result<()>)
      requires |mask| == t.rowCount
      ensures r.Ok? <==> ChangesAccepted(t, mask, assigns)
    {
      for i := 0 to |mask|
        invariant forall j :: 0 <= j < i && mask[j] ==> ChangeAccepted(t, j, Assign(t.RowAt(j), assigns))
      {
        if mask[i] {
          var row := Assign(t.RowAt(i), assigns);
          if !PassesChecks(t, row) {
            return Err(Other("23514"));
          }
          var free := UniqueFree(t, row, Some(i));
          if !free {
            assert !ChangeAccepted(t, i, row);
            return Err(Other("23505"));
          }
        }
      }
      r := Ok(());
    }

    /** Row `j` of a column store. */
    static predicate RowIs(columns: seq<seq<u64>>, j: nat, row: Row) {
      |row| == |columns| && forall c :: 0 <= c < |columns| ==> j < |columns[c]| && columns[c][j] == row[c]
    }

    /** The assignments of one row, in order. */
    method AssignRow(columns: seq<seq<u64>>, row: Row, i: nat, assigns: seq<Assignment>) returns (r: seq<seq<u64>>)
      requires RowIs(columns, i, row)
      requires forall k :: 0 <= k < |assigns| ==> assigns[k].col < |columns|
      ensures |r| == |columns| && forall c :: 0 <= c < |r| ==> |r[c]| == |columns[c]|
      ensures RowIs(r, i, Assign(row, assigns))
      ensures forall c, j :: 0 <= c < |r| && 0 <= j < |r[c]| && j != i ==> r[c][j] == columns[c][j]
    {
      r := columns;
      for k := 0 to |assigns|
        invariant |r| == |columns| && forall c :: 0 <= c < |r| ==> |r[c]| == |columns[c]|
        invariant forall c :: 0 <= c < |r| ==> r[c][i] == Assign(row, assigns[..k])[c]
        invariant forall c, j :: 0 <= c < |r| && 0 <= j < |r[c]| && j != i ==> r[c][j] == columns[c][j]
      {
        assert assigns[..k + 1][..k] == assigns[..k];
        var a := assigns[k];
        var col: seq<u64> := r[a.col][i := a.value];
        r := r[a.col := col];
      }
      assert assigns[..|assigns|] == assigns;
    }

    /** The in-place assignment loop. */
    method ApplyAssignments(t: Table, mask: seq<bool>, assigns: seq<Assignment>) returns (t1: Table)
      requires t.Valid() && |mask| == t.rowCount
      requires forall k :: 0 <= k < |assigns| ==> assigns[k].col < |t.columns|
      ensures t1 == Updated(t, mask, assigns)
      ensures forall i :: 0 <= i < t.rowCount ==>
        if mask[i] then CellsWritten(t.RowAt(i), t1.RowAt(i), assigns) else t1.RowAt(i) == t.RowAt(i)
    {
      var columns: seq<seq<u64>> := t.columns;
      for i := 0 to |mask|
        invariant |columns| == |t.columns|
        invariant forall c :: 0 <= c < |columns| ==> |columns[c]| == t.rowCount
        invariant forall j :: 0 <= j < t.rowCount ==>
          RowIs(columns, j, if j < i && mask[j] then Assign(t.RowAt(j), assigns) else t.RowAt(j))
      {
        if mask[i] {
          ghost var before := columns;
          assert RowIs(before, i, t.RowAt(i));
          columns := AssignRow(columns, t.RowAt(i), i, assigns);
          forall j | 0 <= j < t.rowCount && j != i
            ensures RowIs(columns, j, if j < i && mask[j] then Assign(t.RowAt(j), assigns) else t.RowAt(j))
          {
            assert RowIs(before, j, if j < i && mask[j] then Assign(t.RowAt(j), assigns) else t.RowAt(j));
          }
        }
      }
      t1 := t.(columns := columns);
      ghost var spec := Updated(t, mask, assigns);
      forall c | 0 <= c < |columns| ensures columns[c] == spec.columns[c] {
        forall j | 0 <= j < t.rowCount ensures columns[c][j] == spec.columns[c][j] {
          assert RowIs(columns, j, if mask[j] then Assign(t.RowAt(j), assigns) else t.RowAt(j));
        }
      }
      assert t1.columns == spec.columns;
      UpdatedWritten(t, mask, assigns);
    }

    /** The matched rows as they would be after the statement, for the foreign-key check. */
    method CollectChanged(t: Table, mask: seq<bool>, assigns: seq<Assignment>) returns (rows: seq<Row>)
      requires |mask| == t.rowCount
      ensures rows == ChangedRows(t, mask, assigns)
    {
      ghost var all := seq(t.rowCount, i => Assign(t.RowAt(i), assigns));
      rows := [];
      for i := 0 to |mask|
        invariant rows == Select(all[..i], mask[..i])
      {
        SelectAppend(all[..i], mask[..i], all[i], mask[i]);
        assert all[..i + 1] == all[..i] + [all[i]] && mask[..i + 1] == mask[..i] + [mask[i]];
        if mask[i] {
          rows := rows + [Assign(t.RowAt(i), assigns)];
        }
      }
      assert all[..|mask|] == all && mask[..|mask|] == mask;
    }

    /** UPDATE `name` SET ... WHERE ... with literal right-hand sides, outside MVCC mode. */
    method ExecuteUpdate(name: string, assignments: seq<(string, u64)>, where: Option<Condition>) returns (r: Result<nat>)
      requires name in catalog ==> catalog[name].Valid() && KeyWidths(catalog[name])
      modifies this
      ensures r.Ok? <==> UpdateAccepted(old(catalog), name, assignments, where)
      ensures r.Ok? ==> catalog == old(catalog)[name := UpdatedTable(old(catalog)[name], assignments, where)]
      ensures r.Ok? ==> Rewritten(old(catalog)[name], catalog[name], MatchMask(old(catalog)[name], where).value, assignments)
      ensures r.Ok? ==> r.value == Count(MatchMask(old(catalog)[name], where).value)
      ensures r.Err? ==> catalog == old(catalog)
    {
      if name !in catalog {
        return Err(NotFound(name));
      }
      var t := catalog[name];
      var assigns := ResolveAssignments(t.columnNames, assignments);
      if assigns.Err? {
        return Err(assigns.error);
      }
      var mask := MatchMask(t, None);
      if where.Some? {
        mask := EvalSimpleWhere(t, Tokens(where.value));
      }
      if mask.Err? {
        return Err(mask.error);
      }
      var changed := CollectChanged(t, mask.value, assigns.value);
      var fk := ValidateForeignKeys(name, changed);
      if fk.Err? {
        return Err(fk.error);
      }
      var ok := CheckUpdate(t, mask.value, assigns.value);
      if ok.Err? {
        return Err(ok.error);
      }
      var t1 := ApplyAssignments(t, mask.value, assigns.value);
      UpdateRewrites(t, assignments, where);
      catalog := catalog[name := t1];
      r := Ok(Count(mask.value));
    }

    /** DELETE on an acyclic catalog. */
    method ExecuteDeleteStatement(name: string, where: Option<Condition>) returns (r: Result<nat>)
      requires WellFormed(catalog) && Acyclic(catalog)
      modifies this
      ensures Step(old(catalog), Delete(name, where), catalog)
    {
      ghost var rank := AcyclicIsRanked(catalog);
      ghost var dead;
      r, dead := ExecuteDelete(name, where, rank);
      assert DeleteEffect(old(catalog), name, where, dead, catalog);
    }

    method Dispatch(s: Statement) returns (r: Result<nat>)
      requires WellFormed(catalog) && Acyclic(catalog) && (s.Insert? ==> SameWidthRows(s.rows))
      modifies this
      ensures Step(old(catalog), s, catalog)
    {
      WellFormedWidths(catalog);
      match s
      case Insert(name, rows) =>
        r := ExecuteInsert(name, rows);
      case Update(name, assignments, where) =>
        r := ExecuteUpdate(name, assignments, where);
      case Delete(name, where) =>
        r := ExecuteDeleteStatement(name, where);
    }

    /** One DML statement of any kind. */
    method ExecuteDml(s: Statement) returns (r: Result<nat>)
      requires WellFormed(catalog) && Acyclic(catalog) && (s.Insert? ==> SameWidthRows(s.rows))
      modifies this
      ensures Step(old(catalog), s, catalog)
      ensures WellFormed(catalog) && Acyclic(catalog)
    {
      ghost var db := catalog;
      r := Dispatch(s);
      StepKeepsSchema(db, s, catalog);
    }

    /**
     Any list of statements, one after the other, is a run: what runs keep, the engine keeps. `dbs`
     records the catalog between the statements.
    */
    method ExecuteAll(stmts: seq<Statement>) returns (results: seq<Result<nat>>, ghost dbs: seq<Database>)
      requires WellFormed(catalog) && Acyclic(catalog)
      requires forall k :: 0 <= k < |stmts| && stmts[k].Insert? ==> SameWidthRows(stmts[k].rows)
      modifies this
      ensures |results| == |stmts| && IsRun(dbs, stmts) && dbs[0] == old(catalog) && dbs[|stmts|] == catalog
      ensures WellFormed(catalog) && Acyclic(catalog)
      ensures Constrained(old(catalog)) && AllKeepConstraints(dbs, stmts) ==> Constrained(catalog)
      ensures Integrity(old(catalog)) && AllKeepReferences(dbs, stmts) ==> Integrity(catalog)
    {
      results, dbs := [], [catalog];
      for k := 0 to |stmts|
        invariant |results| == k && |dbs| == k + 1 && dbs[0] == old(catalog) && dbs[k] == catalog
        invariant WellFormed(catalog) && Acyclic(catalog)
        invariant forall i :: 0 <= i < k ==> Follows(dbs[i], stmts[i], dbs[i + 1])
      {
        var r := ExecuteDml(stmts[k]);
        results, dbs := results + [r], dbs + [catalog];
      }
      AcyclicNoSelfReference(old(catalog));
      if Constrained(old(catalog)) && AllKeepConstraints(dbs, stmts) { RunKeepsConstraints(dbs, stmts, |stmts|); }
      if Integrity(old(catalog)) && AllKeepReferences(dbs, stmts) { RunKeepsIntegrity(dbs, stmts, |stmts|); }
    }
  }
}
