/**
 Which DELETEs are let through: what each RESTRICT and CASCADE key asks, said of the catalog before the
 statement, whatever the order in which the tables are visited.
*/
module DeleteSuccess {
  import opened Basics
  import opened Catalog
  import opened DmlWhere
  import opened CascadeWhere
  import opened ForeignKeys
  import opened DeleteTheory

  /** Key number `j` of table `c` references `name`. */
  predicate KeyTo(db: Database, name: string, c: string, j: int) {
    c in db && 0 <= j < |db[c].ForeignKeys()| && db[c].ForeignKeys()[j].refTable == name
  }

  /** A list of all keys to `name` and their numbers; the keys of one table come in their order, the tables in any. */
  ghost predicate KeysInOrder(db: Database, name: string, fks: seq<(string, ForeignKey)>, at: seq<nat>) {
    && |at| == |fks|
    && (forall k :: 0 <= k < |fks| ==> KeyTo(db, name, fks[k].0, at[k]) && fks[k].1 == db[fks[k].0].ForeignKeys()[at[k]])
    && (forall c, j {:trigger Listed(fks, at, c, j)} :: KeyTo(db, name, c, j) && c != name ==> Listed(fks, at, c, j))
    && (forall j, k :: 0 <= j < k < |fks| && fks[j].0 == fks[k].0 ==> at[j] < at[k])
  }

  ghost predicate Listed(fks: seq<(string, ForeignKey)>, at: seq<nat>, c: string, j: int)
    requires |at| == |fks|
  {
    exists k :: 0 <= k < |fks| && fks[k].0 == c && at[k] == j
  }

  /** The same for some of the tables. */
  ghost predicate KeysOfTables(db: Database, name: string, fks: seq<(string, ForeignKey)>, at: seq<nat>, tables: set<string>) {
    && AreKeys(db, name, fks, at, tables)
    && (forall c, j {:trigger Listed(fks, at, c, j)} :: KeyTo(db, name, c, j) && c in tables ==> Listed(fks, at, c, j))
    && (forall j, k :: 0 <= j < k < |fks| && fks[j].0 == fks[k].0 ==> at[j] < at[k])
  }

  lemma ListedLater(fks: seq<(string, ForeignKey)>, at: seq<nat>, more: seq<(string, ForeignKey)>, moreAt: seq<nat>, c: string, j: int)
    requires |at| == |fks| && |moreAt| == |more| && (Listed(fks, at, c, j) || Listed(more, moreAt, c, j))
    ensures Listed(fks + more, at + moreAt, c, j)
  {
    var all, allAt := fks + more, at + moreAt;
    if Listed(fks, at, c, j) {
      var k :| 0 <= k < |fks| && fks[k].0 == c && at[k] == j;
      assert all[k].0 == c && allAt[k] == j;
    } else {
      var k :| 0 <= k < |more| && more[k].0 == c && moreAt[k] == j;
      assert all[|fks| + k].0 == c && allAt[|at| + k] == j;
    }
  }

  lemma AnotherTable(db: Database, name: string, fks: seq<(string, ForeignKey)>, at: seq<nat>, tables: set<string>,
                     c: string, more: seq<(string, ForeignKey)>, moreAt: seq<nat>)
    requires KeysOfTables(db, name, fks, at, tables) && KeysOfTables(db, name, more, moreAt, {c}) && c !in tables
    ensures KeysOfTables(db, name, fks + more, at + moreAt, tables + {c})
  {
    var all, allAt := fks + more, at + moreAt;
    forall d, j | KeyTo(db, name, d, j) && d in tables + {c} ensures Listed(all, allAt, d, j) {
      if d == c { assert Listed(more, moreAt, c, j); } else { assert Listed(fks, at, d, j); }
      ListedLater(fks, at, more, moreAt, d, j);
    }
    StillInOrder(fks, at, tables, c, more, moreAt);
    StillKeys(db, name, fks, at, tables, c, more, moreAt);
  }

  ghost predicate AreKeys(db: Database, name: string, fks: seq<(string, ForeignKey)>, at: seq<nat>, tables: set<string>) {
    |at| == |fks| && forall k :: 0 <= k < |fks| ==>
      fks[k].0 in tables && KeyTo(db, name, fks[k].0, at[k]) && fks[k].1 == db[fks[k].0].ForeignKeys()[at[k]]
  }

  lemma StillKeys(db: Database, name: string, fks: seq<(string, ForeignKey)>, at: seq<nat>, tables: set<string>,
                  c: string, more: seq<(string, ForeignKey)>, moreAt: seq<nat>)
    requires AreKeys(db, name, fks, at, tables) && AreKeys(db, name, more, moreAt, {c})
    ensures AreKeys(db, name, fks + more, at + moreAt, tables + {c})
  {
  }

  lemma StillInOrder(fks: seq<(string, ForeignKey)>, at: seq<nat>, tables: set<string>, c: string,
                     more: seq<(string, ForeignKey)>, moreAt: seq<nat>)
    requires |at| == |fks| && |moreAt| == |more| && c !in tables
    requires forall k :: 0 <= k < |fks| ==> fks[k].0 in tables
    requires forall k :: 0 <= k < |more| ==> more[k].0 == c
    requires forall j, k :: 0 <= j < k < |fks| && fks[j].0 == fks[k].0 ==> at[j] < at[k]
    requires forall j, k :: 0 <= j < k < |more| && more[j].0 == more[k].0 ==> moreAt[j] < moreAt[k]
    ensures forall j, k :: 0 <= j < k < |fks + more| && (fks + more)[j].0 == (fks + more)[k].0 ==> (at + moreAt)[j] < (at + moreAt)[k]
  {
  }

  /** All keys of the listed tables are all keys there are. */
  lemma AllTables(db: Database, name: string, fks: seq<(string, ForeignKey)>, at: seq<nat>)
    requires KeysOfTables(db, name, fks, at, db.Keys - {name})
    ensures KeysInOrder(db, name, fks, at)
    ensures forall c, fk :: (c, fk) in fks <==> c in db && c != name && fk in db[c].ForeignKeys() && fk.refTable == name
  {
    forall c, j | KeyTo(db, name, c, j) && c != name ensures Listed(fks, at, c, j) {
      assert c in db.Keys - {name};
    }
    forall c, fk | c in db && c != name && fk in db[c].ForeignKeys() && fk.refTable == name ensures (c, fk) in fks {
      var j :| 0 <= j < |db[c].ForeignKeys()| && db[c].ForeignKeys()[j] == fk;
      assert KeyTo(db, name, c, j);
      assert Listed(fks, at, c, j);
      var k :| 0 <= k < |fks| && fks[k].0 == c && at[k] == j;
      assert fks[k] == (c, fk);
    }
    forall c, fk | (c, fk) in fks ensures c in db && c != name && fk in db[c].ForeignKeys() && fk.refTable == name {
      var k :| 0 <= k < |fks| && fks[k] == (c, fk);
      assert KeyTo(db, name, fks[k].0, at[k]);
    }
  }

  /** An earlier CASCADE key of the same table takes the row. */
  ghost predicate TakenBefore(db: Database, name: string, mask: seq<bool>, c: string, j: int, x: Row)
    requires name in db && |mask| == db[name].rowCount
  {
    exists i :: i < j && TakenByNumber(db, name, mask, c, i, x)
  }

  ghost predicate TakenByNumber(db: Database, name: string, mask: seq<bool>, c: string, i: int, x: Row)
    requires name in db && |mask| == db[name].rowCount
  {
    && KeyTo(db, name, c, i)
    && (c, x) in TakenByKey(db, c, db[c].ForeignKeys()[i], Select(KeysOf(db[name], db[c].ForeignKeys()[i].refColumns), mask))
  }

  predicate AllPrintable(tuples: seq<seq<u64>>, n: nat) {
    forall j :: 0 <= j < |tuples| ==> Printable(tuples[j], n)
  }

  /**
   Key `j` of `c` lets the DELETE through. RESTRICT: every child row that references a deleted tuple
   has been taken before. CASCADE: every deleted tuple prints as a non-negative literal, or no row is left.
  */
  ghost predicate KeyPasses(db: Database, name: string, mask: seq<bool>, c: string, j: int)
    requires name in db && |mask| == db[name].rowCount && KeyTo(db, name, c, j)
  {
    var fk := db[c].ForeignKeys()[j];
    var tuples := Select(KeysOf(db[name], fk.refColumns), mask);
    if fk.Action() == Cascade then
      AllPrintable(tuples, |fk.columns|) || forall x :: x in db[c].Rows() ==> TakenBefore(db, name, mask, c, j, x)
    else
      forall x :: x in db[c].Rows() && Key(db[c].columnNames, x, fk.columns) in tuples ==> TakenBefore(db, name, mask, c, j, x)
  }

  ghost predicate DeletePasses(db: Database, name: string, mask: seq<bool>)
    requires name in db && |mask| == db[name].rowCount
  {
    forall c, j :: KeyTo(db, name, c, j) ==> KeyPasses(db, name, mask, c, j)
  }

  /** The same question when the key's turn has come. */
  ghost predicate PassesNow(mid: Database, c: string, fk: ForeignKey, tuples: seq<seq<u64>>)
    requires c in mid
  {
    if fk.Action() == Cascade then mid[c].rowCount == 0 || AllPrintable(tuples, |fk.columns|) else NoReferrer(mid, c, fk, tuples)
  }

  lemma TakenOfTable(db: Database, c: string, fk: ForeignKey, tuples: seq<seq<u64>>, id: RowId)
    requires id in TakenByKey(db, c, fk, tuples)
    ensures id.0 == c
  {
  }

  lemma EarlierKeyTook(db: Database, name: string, fks: seq<(string, ForeignKey)>, at: seq<nat>, k: nat, mask: seq<bool>, x: Row)
    requires name in db && |mask| == db[name].rowCount && KeysInOrder(db, name, fks, at) && k < |fks|
    requires (fks[k].0, x) in TakenByKeys(db, fks, k, db[name], mask)
    ensures TakenBefore(db, name, mask, fks[k].0, at[k], x)
  {
    var c := fks[k].0;
    TakenByKeysMember(db, fks, k, db[name], mask, (c, x));
    var j :| j < k && TakenAt(db, fks, j, db[name], mask, (c, x));
    TakenOfTable(db, fks[j].0, fks[j].1, Select(KeysOf(db[name], fks[j].1.refColumns), mask), (c, x));
    assert fks[j].0 == c && at[j] < at[k] && db[c].ForeignKeys()[at[j]] == fks[j].1;
    assert TakenByNumber(db, name, mask, c, at[j], x);
  }

  lemma ListedBefore(db: Database, name: string, fks: seq<(string, ForeignKey)>, at: seq<nat>, k: nat, i: int) returns (j: nat)
    requires KeysInOrder(db, name, fks, at) && k < |fks| && fks[k].0 != name
    requires i < at[k] && KeyTo(db, name, fks[k].0, i)
    ensures j < k && fks[j].0 == fks[k].0 && fks[j].1 == db[fks[k].0].ForeignKeys()[i]
  {
    assert Listed(fks, at, fks[k].0, i);
    j :| 0 <= j < |fks| && fks[j].0 == fks[k].0 && at[j] == i;
  }

  lemma EarlierKeyListed(db: Database, name: string, fks: seq<(string, ForeignKey)>, at: seq<nat>, k: nat, mask: seq<bool>, x: Row, i: int)
    requires name in db && |mask| == db[name].rowCount && KeysInOrder(db, name, fks, at) && k < |fks| && fks[k].0 != name
    requires i < at[k] && TakenByNumber(db, name, mask, fks[k].0, i, x)
    ensures (fks[k].0, x) in TakenByKeys(db, fks, k, db[name], mask)
  {
    var c := fks[k].0;
    var j := ListedBefore(db, name, fks, at, k, i);
    assert TakenAt(db, fks, j, db[name], mask, (c, x));
    TakenByKeysMember(db, fks, k, db[name], mask, (c, x));
  }

  lemma TakenBeforeIff(db: Database, name: string, fks: seq<(string, ForeignKey)>, at: seq<nat>, k: nat, mask: seq<bool>, x: Row)
    requires name in db && |mask| == db[name].rowCount && KeysInOrder(db, name, fks, at) && k < |fks| && fks[k].0 != name
    ensures (fks[k].0, x) in TakenByKeys(db, fks, k, db[name], mask) <==> TakenBefore(db, name, mask, fks[k].0, at[k], x)
  {
    if TakenBefore(db, name, mask, fks[k].0, at[k], x) {
      var i :| i < at[k] && TakenByNumber(db, name, mask, fks[k].0, i, x);
      EarlierKeyListed(db, name, fks, at, k, mask, x, i);
    } else if (fks[k].0, x) in TakenByKeys(db, fks, k, db[name], mask) {
      EarlierKeyTook(db, name, fks, at, k, mask, x);
    }
  }

  /** What is left of a table when a key's turn comes is what its earlier keys have not taken. */
  lemma PassesByRows(db: Database, mid: Database, dead: set<RowId>, name: string, mask: seq<bool>, c: string, j: int)
    requires name in db && |mask| == db[name].rowCount && KeyTo(db, name, c, j) && Pruned(db, mid, dead)
    requires forall x :: (c, x) in dead <==> TakenBefore(db, name, mask, c, j, x)
    ensures
      var fk := db[c].ForeignKeys()[j];
      PassesNow(mid, c, fk, Select(KeysOf(db[name], fk.refColumns), mask)) <==> KeyPasses(db, name, mask, c, j)
  {
    assert PrunedTable(c, db[c], mid[c], dead);
    forall x ensures x in mid[c].Rows() <==> x in db[c].Rows() && !TakenBefore(db, name, mask, c, j, x) {
      PrunedRow(db, mid, dead, c, x);
    }
    if mid[c].rowCount > 0 { assert mid[c].Rows()[0] in mid[c].Rows(); }
  }

  /** What a key meets when its turn comes is what can be said of it before the DELETE. */
  lemma PassesNowIff(db: Database, mid: Database, dead: set<RowId>, name: string, fks: seq<(string, ForeignKey)>, at: seq<nat>,
                     k: nat, mask: seq<bool>)
    requires name in db && |mask| == db[name].rowCount && KeysInOrder(db, name, fks, at) && k < |fks| && fks[k].0 != name
    requires Pruned(db, mid, dead) && dead == TakenByKeys(db, fks, k, db[name], mask)
    ensures KeyTo(db, name, fks[k].0, at[k])
    ensures PassesNow(mid, fks[k].0, fks[k].1, Select(KeysOf(db[name], fks[k].1.refColumns), mask)) <==>
      KeyPasses(db, name, mask, fks[k].0, at[k])
  {
    forall x ensures (fks[k].0, x) in dead <==> TakenBefore(db, name, mask, fks[k].0, at[k], x) {
      TakenBeforeIff(db, name, fks, at, k, mask, x);
    }
    PassesByRows(db, mid, dead, name, mask, fks[k].0, at[k]);
  }

  /** The keys that have had their turn let the DELETE through. */
  ghost predicate PassedSoFar(db: Database, name: string, fks: seq<(string, ForeignKey)>, at: seq<nat>, k: nat, mask: seq<bool>)
    requires name in db && |mask| == db[name].rowCount && KeysInOrder(db, name, fks, at) && k <= |fks|
  {
    forall j :: 0 <= j < k ==> KeyTo(db, name, fks[j].0, at[j]) && KeyPasses(db, name, mask, fks[j].0, at[j])
  }

  lemma PassedAll(db: Database, name: string, fks: seq<(string, ForeignKey)>, at: seq<nat>, mask: seq<bool>)
    requires name in db && |mask| == db[name].rowCount && !ChildOf(db, name, name) && KeysInOrder(db, name, fks, at)
    ensures PassedSoFar(db, name, fks, at, |fks|, mask) <==> DeletePasses(db, name, mask)
  {
    if PassedSoFar(db, name, fks, at, |fks|, mask) {
      forall c, j | KeyTo(db, name, c, j) ensures KeyPasses(db, name, mask, c, j) {
        assert ChildOf(db, c, name);
        assert Listed(fks, at, c, j);
        var k :| 0 <= k < |fks| && fks[k].0 == c && at[k] == j;
      }
    }
  }

  /** No CASCADE key references `name`. */
  ghost predicate RestrictOnly(db: Database, name: string) {
    forall c, j :: KeyTo(db, name, c, j) ==> db[c].ForeignKeys()[j].Action() != Cascade
  }

  /** Where all keys restrict, a DELETE is let through iff no row anywhere carries the key of an addressed row. */
  lemma RestrictPassesIff(db: Database, name: string, mask: seq<bool>)
    requires name in db && |mask| == db[name].rowCount && RestrictOnly(db, name)
    ensures OneLevel(db, name) && (DeletePasses(db, name, mask) <==> AllClear(db, name, mask))
  {
    forall c, j, x | KeyTo(db, name, c, j) ensures !TakenBefore(db, name, mask, c, j, x) { }
    forall c, fk | c in db && fk in db[c].ForeignKeys() && fk.refTable == name
      ensures exists j :: KeyTo(db, name, c, j) && db[c].ForeignKeys()[j] == fk
    {
      var j :| 0 <= j < |db[c].ForeignKeys()| && db[c].ForeignKeys()[j] == fk;
      assert KeyTo(db, name, c, j);
    }
    if DeletePasses(db, name, mask) {
      forall c, fk | c in db && fk in db[c].ForeignKeys() && fk.refTable == name
        ensures NoReferrer(db, c, fk, Select(KeysOf(db[name], fk.refColumns), mask))
      {
        var j :| KeyTo(db, name, c, j) && db[c].ForeignKeys()[j] == fk;
        assert KeyPasses(db, name, mask, c, j);
      }
    }
    if AllClear(db, name, mask) {
      forall c, j | KeyTo(db, name, c, j) ensures KeyPasses(db, name, mask, c, j) {
        assert NoReferrer(db, c, db[c].ForeignKeys()[j], Select(KeysOf(db[name], db[c].ForeignKeys()[j].refColumns), mask));
      }
    }
  }

  /** An empty mask is always let through. */
  lemma NothingPasses(db: Database, name: string, mask: seq<bool>)
    requires name in db && |mask| == db[name].rowCount && forall i :: 0 <= i < |mask| ==> !mask[i]
    ensures DeletePasses(db, name, mask)
  {
    forall fk: ForeignKey ensures Select(KeysOf(db[name], fk.refColumns), mask) == [] {
      SelectNone(KeysOf(db[name], fk.refColumns), mask);
    }
  }

  /** The WHERE clause of a cascade can be read iff the child is empty or every tuple prints. */
  lemma CascadeReadsIff(mid: Database, child: string, fk: ForeignKey, mask: seq<bool>)
    requires WellFormed(mid) && child in mid && fk in mid[child].ForeignKeys() && fk.Action() == Cascade
    requires fk.refTable in mid && |mask| == mid[fk.refTable].rowCount && Count(mask) > 0
    ensures
      var tuples := Select(KeysOf(mid[fk.refTable], fk.refColumns), mask);
      MatchMask(mid[child], BuildCascadeWhere(fk.columns, tuples)).Ok? <==>
        mid[child].rowCount == 0 || AllPrintable(tuples, |fk.columns|)
  {
    CascadeTuples(mid, child, fk, mask);
    if mid[child].rowCount > 0 { CascadeMask(mid[child], fk.columns, Select(KeysOf(mid[fk.refTable], fk.refColumns), mask)); }
  }

  /** On a table without children every DELETE is let through. */
  lemma LeafPasses(db: Database, name: string, mask: seq<bool>)
    requires name in db && |mask| == db[name].rowCount && NoChildren(db, name)
    ensures OneLevel(db, name) && DeletePasses(db, name, mask)
  {
    forall c, j ensures !KeyTo(db, name, c, j) { assert !ChildOf(db, c, name); }
    forall c, fk | c in db && fk in db[c].ForeignKeys() ensures fk.refTable != name { assert !ChildOf(db, c, name); }
  }

  /** One key's turn: its answer is the one foreseen. */
  lemma KeyTurn(db: Database, mid: Database, dead: set<RowId>, name: string, fks: seq<(string, ForeignKey)>, at: seq<nat>,
                k: nat, mask: seq<bool>, ok: bool)
    requires WellFormed(db) && name in db && |mask| == db[name].rowCount && OneLevel(db, name) && Pruned(db, mid, dead)
    requires KeysInOrder(db, name, fks, at) && k < |fks| && fks[k].0 != name && TakenSoFar(db, fks, k, name, mask, dead)
    requires fks[k].0 in mid && fks[k].1 in mid[fks[k].0].ForeignKeys()
    requires (fks[k].1.Action() == Cascade ==> NoChildren(mid, fks[k].0)) ==>
      (ok <==> PassesNow(mid, fks[k].0, fks[k].1, Select(KeysOf(db[name], fks[k].1.refColumns), mask)))
    ensures KeyTo(db, name, fks[k].0, at[k]) && (ok <==> KeyPasses(db, name, mask, fks[k].0, at[k]))
  {
    LeavesPruned(db, mid, dead, name);
    PassesNowIff(db, mid, dead, name, fks, at, k, mask);
  }

  // ----- the walk over the keys -----

  /** What one key does to `mid`, and whether it lets the DELETE through. */
  ghost predicate KeyOutcome(db: Database, mid: Database, now: Database, more: set<RowId>, name: string, c: string, fk: ForeignKey,
                             mask: seq<bool>, ok: bool)
    requires name in db && |mask| == db[name].rowCount && c in mid
  {
    var tuples := Select(KeysOf(db[name], fk.refColumns), mask);
    && Pruned(mid, now, more)
    && (ok ==> KeyDone(mid, now, more, c, fk, tuples))
    && (ok && ExactFor(db, Seed(name, db[name], mask)) ==> NoReferrer(now, c, fk, tuples))
    && ((fk.Action() == Cascade ==> NoChildren(mid, c)) ==> (ok <==> PassesNow(mid, c, fk, tuples)))
  }

  /** Before key `k` has its turn. */
  ghost predicate Walking(db: Database, now: Database, dead: set<RowId>, name: string, fks: seq<(string, ForeignKey)>, at: seq<nat>,
                          k: nat, mask: seq<bool>)
    requires name in db && |mask| == db[name].rowCount && KeysInOrder(db, name, fks, at) && k <= |fks|
  {
    && Pruned(db, now, dead)
    && TakenSoFar(db, fks, k, name, mask, dead)
    && (ExactFor(db, Seed(name, db[name], mask)) ==> Cleared(now, fks, k, db[name], mask))
    && (OneLevel(db, name) ==> PassedSoFar(db, name, fks, at, k, mask))
  }

  lemma WalkStep(db: Database, mid: Database, now: Database, dead: set<RowId>, more: set<RowId>, name: string,
                 fks: seq<(string, ForeignKey)>, at: seq<nat>, k: nat, mask: seq<bool>, ok: bool)
    requires WellFormed(db) && name in db && |mask| == db[name].rowCount && KeysInOrder(db, name, fks, at) && k < |fks|
    requires fks[k].0 in mid && fks[k].0 != name && fks[k].1 in mid[fks[k].0].ForeignKeys() && fks[k].1.refTable == name
    requires Walking(db, mid, dead, name, fks, at, k, mask) && KeyOutcome(db, mid, now, more, name, fks[k].0, fks[k].1, mask, ok)
    ensures ok ==> Walking(db, now, dead + more, name, fks, at, k + 1, mask)
    ensures !ok && OneLevel(db, name) ==> !DeletePasses(db, name, mask)
  {
    if OneLevel(db, name) { KeyTurn(db, mid, dead, name, fks, at, k, mask, ok); }
    if ok {
      PrunedTwice(db, mid, now, dead, more);
      TakenStep(db, mid, now, dead, more, fks, k, name, mask);
      if ExactFor(db, Seed(name, db[name], mask)) { ClearedStep(mid, now, more, fks, k, db[name], mask); }
    }
  }

  lemma WalkDone(db: Database, now: Database, dead: set<RowId>, name: string, fks: seq<(string, ForeignKey)>, at: seq<nat>,
                 mask: seq<bool>, rank: map<string, nat>)
    requires Enforcing(db, now, dead, name, mask, rank) && KeysInOrder(db, name, fks, at)
    requires Walking(db, now, dead, name, fks, at, |fks|, mask)
    requires forall c, fk :: (c, fk) in fks <==> c in db && c != name && fk in db[c].ForeignKeys() && fk.refTable == name
    ensures ExactFor(db, Seed(name, db[name], mask)) ==> AllClear(now, name, mask)
    ensures DirectDead(db, name, mask) <= dead + Seed(name, db[name], mask)
    ensures OneLevel(db, name) ==> dead + Seed(name, db[name], mask) == DirectDead(db, name, mask) && DeletePasses(db, name, mask)
  {
    if ExactFor(db, Seed(name, db[name], mask)) { ClearedAll(db, now, dead, fks, name, mask, rank); }
    DirectDeadIsTaken(db, fks, name, mask);
    PassedAll(db, name, fks, at, mask);
  }
}
