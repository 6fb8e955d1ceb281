// Applying and verifying a binding manifest (cmd/kaana-credentials/binding_manifest.go).

module Bindings {
  import opened Base
  import opened Ordering
  import opened Permutations

  /** An assignment, and the part of a readback row that is compared with one. */
  datatype Row = Row(deployment: Text, provider: Text, key: Text, operation: Text)

  predicate DistinctDeployments(rows: seq<Row>)
  {
    forall i, j | 0 <= i < j < |rows| :: rows[i].deployment != rows[j].deployment
  }

  predicate DistinctOperations(rows: seq<Row>)
  {
    forall i, j | 0 <= i < j < |rows| :: rows[i].operation != rows[j].operation
  }

  const OPERATION_PREFIX: Text := [0x6B, 0x64, 0x62, 0x5F]  // "kdb_"

  /** `known` stands for the grammar of providers. */
  predicate WellFormed(known: Text -> bool, row: Row)
  {
    && row.deployment != [] && known(row.provider) && row.key != []
    && |row.operation| == 36 && OPERATION_PREFIX <= row.operation
  }

  /** What a manifest's rows must be. */
  predicate Sound(known: Text -> bool, rows: seq<Row>)
  {
    (forall row | row in rows :: WellFormed(known, row)) && DistinctDeployments(rows) && DistinctOperations(rows)
  }

  function DeploymentsOf(rows: seq<Row>): set<Text>
  {
    set row | row in rows :: row.deployment
  }

  function OperationsOf(rows: seq<Row>): set<Text>
  {
    set row | row in rows :: row.operation
  }

  /** The manifest's two loops over its rows. */
  method ReadRows(known: Text -> bool, assignments: seq<Row>, retained: seq<Row>) returns (ok: bool)
    ensures ok <==> Sound(known, assignments + retained)
  {
    hide Sound;
    hide DeploymentsOf;
    hide OperationsOf;
    ghost var all := assignments + retained;
    var deployments: set<Text> := {};
    var operations: set<Text> := {};
    SoundStart(known, all);
    for i := 0 to |assignments|
      invariant Sound(known, all[..i])
      invariant deployments == DeploymentsOf(all[..i]) && operations == OperationsOf(all[..i])
    {
      var row := assignments[i];
      SoundStep(known, all, i);
      if !WellFormed(known, row) || row.deployment in deployments || row.operation in operations {
        return false;
      }
      deployments := deployments + {row.deployment};
      operations := operations + {row.operation};
    }
    for i := 0 to |retained|
      invariant Sound(known, all[..|assignments| + i])
      invariant deployments == DeploymentsOf(all[..|assignments| + i])
      invariant operations == OperationsOf(all[..|assignments| + i])
    {
      var row := retained[i];
      SoundStep(known, all, |assignments| + i);
      if !WellFormed(known, row) || row.deployment in deployments || row.operation in operations {
        return false;
      }
      deployments := deployments + {row.deployment};
      operations := operations + {row.operation};
    }
    assert all[..|assignments| + |retained|] == all;
    return true;
  }

  lemma SoundStart(known: Text -> bool, rows: seq<Row>)
    ensures Sound(known, rows[..0]) && DeploymentsOf(rows[..0]) == {} && OperationsOf(rows[..0]) == {}
  {
  }

  lemma SoundStep(known: Text -> bool, rows: seq<Row>, n: nat)
    requires n < |rows| && Sound(known, rows[..n])
    ensures DeploymentsOf(rows[..n + 1]) == DeploymentsOf(rows[..n]) + {rows[n].deployment}
    ensures OperationsOf(rows[..n + 1]) == OperationsOf(rows[..n]) + {rows[n].operation}
    ensures Sound(known, rows[..n + 1]) <==>
              && WellFormed(known, rows[n])
              && rows[n].deployment !in DeploymentsOf(rows[..n]) && rows[n].operation !in OperationsOf(rows[..n])
    ensures Sound(known, rows) ==> Sound(known, rows[..n + 1])
  {
    var before, row := rows[..n], rows[n];
    assert rows[..n + 1] == before + [row];
    assert Sound(known, rows) ==> Sound(known, rows[..n + 1]) by {
      assert forall r | r in rows[..n + 1] :: r in rows;
    }
    SoundAppend(known, before, row);
  }

  lemma SoundAppend(known: Text -> bool, rows: seq<Row>, row: Row)
    requires Sound(known, rows)
    ensures DeploymentsOf(rows + [row]) == DeploymentsOf(rows) + {row.deployment}
    ensures OperationsOf(rows + [row]) == OperationsOf(rows) + {row.operation}
    ensures Sound(known, rows + [row]) <==>
              WellFormed(known, row) && row.deployment !in DeploymentsOf(rows) && row.operation !in OperationsOf(rows)
  {
    hide WellFormed;
    hide DistinctDeployments;
    hide DistinctOperations;
    DeploymentsAppend(rows, row);
    OperationsAppend(rows, row);
  }

  lemma DeploymentsAppend(rows: seq<Row>, row: Row)
    requires DistinctDeployments(rows)
    ensures DistinctDeployments(rows + [row]) <==> row.deployment !in DeploymentsOf(rows)
  {
    if row.deployment in DeploymentsOf(rows) {
      var i :| 0 <= i < |rows| && rows[i].deployment == row.deployment;
      assert (rows + [row])[i] == rows[i] && (rows + [row])[|rows|] == row;
    }
  }

  lemma OperationsAppend(rows: seq<Row>, row: Row)
    requires DistinctOperations(rows)
    ensures DistinctOperations(rows + [row]) <==> row.operation !in OperationsOf(rows)
  {
    if row.operation in OperationsOf(rows) {
      var i :| 0 <= i < |rows| && rows[i].operation == row.operation;
      assert (rows + [row])[i] == rows[i] && (rows + [row])[|rows|] == row;
    }
  }

  // ----- verification -----

  /** The last row of each deployment. */
  function ByDeployment(rows: seq<Row>): (m: map<Text, Row>)
    ensures forall d | d in m :: m[d] in rows && m[d].deployment == d
    ensures forall row | row in rows :: row.deployment in m
  {
    if rows == [] then map[]
    else
      var front, last := rows[..|rows| - 1], rows[|rows| - 1];
      ByDeployment(front)[last.deployment := last]
  }

  method MapByDeployment(rows: seq<Row>) returns (m: map<Text, Row>)
    ensures m == ByDeployment(rows)
  {
    m := map[];
    for i := 0 to |rows|
      invariant m == ByDeployment(rows[..i])
    {
      assert rows[..i + 1][..i] == rows[..i];
      m := m[rows[i].deployment := rows[i]];
    }
    assert rows[..|rows|] == rows;
  }

  /**
   * The readback passes exactly when it is a rearrangement of the manifest's rows;
   * that its own ids are distinct is not assumed.
   */
  method Verify(metadata: seq<Row>, assignments: seq<Row>, retained: seq<Row>) returns (ok: bool)
    requires DistinctDeployments(assignments + retained)
    ensures ok <==> multiset(metadata) == multiset(assignments + retained)
  {
    var expected := assignments + retained;
    if |metadata| != |assignments| + |retained| {
      assert |multiset(metadata)| != |multiset(expected)|;
      return false;
    }
    var byDeployment := MapByDeployment(metadata);
    for i := 0 to |expected|
      invariant forall j | 0 <= j < i :: expected[j] in metadata
    {
      var row := expected[i];
      if row.deployment !in byDeployment || byDeployment[row.deployment] != row {
        if multiset(metadata) == multiset(expected) {
          FoundByDeployment(metadata, expected, row);
          assert false;
        }
        return false;
      }
    }
    Pigeonhole(expected, metadata);
    return true;
  }

  /** In a rearrangement of rows with distinct ids, a row is found under its id. */
  lemma FoundByDeployment(metadata: seq<Row>, expected: seq<Row>, row: Row)
    requires multiset(metadata) == multiset(expected) && DistinctDeployments(expected) && row in expected
    ensures row.deployment in ByDeployment(metadata) && ByDeployment(metadata)[row.deployment] == row
  {
    SameElements(metadata, expected);
    assert row in metadata;
    var found := ByDeployment(metadata)[row.deployment];
    assert found in expected;
  }

  /** As many rows as there are distinct rows, and every one of those: nothing else fits. */
  lemma {:induction false} Pigeonhole(expected: seq<Row>, metadata: seq<Row>)
    requires DistinctDeployments(expected) && |metadata| == |expected| && forall row | row in expected :: row in metadata
    ensures multiset(metadata) == multiset(expected)
    decreases |expected|
  {
    if expected != [] {
      var row, rest := expected[0], expected[1..];
      assert expected == [row] + rest && row in metadata;
      var i :| 0 <= i < |metadata| && metadata[i] == row;
      var others := metadata[..i] + metadata[i + 1..];
      assert metadata == metadata[..i] + [row] + metadata[i + 1..];
      forall r | r in rest
        ensures r in others
      {
        Other(expected, r);
        assert r in metadata;
      }
      Pigeonhole(rest, others);
      assert multiset(metadata) == multiset(others) + multiset{row};
    }
  }

  lemma Other(expected: seq<Row>, r: Row)
    requires DistinctDeployments(expected) && expected != [] && r in expected[1..]
    ensures r != expected[0]
  {
  }

  // ----- application -----

  /** A table keyed by deployment. */
  type Table = t: map<Text, Row> | forall d | d in t :: t[d].deployment == d witness map[]

  /** The assignments that the table does not hold exactly. */
  function Missing(table: Table, assignments: seq<Row>): (r: seq<Row>)
    ensures |r| <= |assignments|
  {
    if assignments == [] then []
    else
      var first, rest := assignments[0], Missing(table, assignments[1..]);
      if first.deployment in table && table[first.deployment] == first then rest else [first] + rest
  }

  /** The table with rows bound over whatever their deployments had. */
  function Bound(table: Table, rows: seq<Row>): Table
  {
    if rows == [] then table
    else
      var front, last := rows[..|rows| - 1], rows[|rows| - 1];
      Bound(table, front)[last.deployment := last]
  }

  /** The database's side: binding either fails and changes nothing, or binds the row. */
  class Repository {
    var table: Table
    ghost var calls: seq<Row>

    constructor (initial: Table)
      ensures table == initial && calls == []
    {
      table := initial;
      calls := [];
    }

    method BindDeployment(row: Row, succeeds: bool) returns (ok: bool)
      modifies this
      ensures ok == succeeds && calls == old(calls) + [row]
      ensures table == if succeeds then old(table)[row.deployment := row] else old(table)
    {
      calls := calls + [row];
      if succeeds {
        table := table[row.deployment := row];
      }
      return succeeds;
    }
  }

  /**
   * Rows held exactly are skipped; the others are bound in order until one fails.
   * `verdicts` says, call by call, whether the database would accept.
   */
  method Apply(repository: Repository, assignments: seq<Row>, verdicts: seq<bool>) returns (ok: bool)
    requires |verdicts| == |assignments| && repository.calls == []
    modifies repository
    ensures repository.calls <= Missing(old(repository.table), assignments)
    ensures ok ==> repository.calls == Missing(old(repository.table), assignments)
    ensures ok ==> repository.table == Bound(old(repository.table), repository.calls)
    ensures ok ==> forall i | 0 <= i < |repository.calls| :: verdicts[i]
    ensures !ok ==> repository.calls != [] && !verdicts[|repository.calls| - 1]
    ensures !ok ==> repository.table == Bound(old(repository.table), repository.calls[..|repository.calls| - 1])
    ensures !ok ==> forall i | 0 <= i < |repository.calls| - 1 :: verdicts[i]
  {
    hide Missing;
    hide Bound;
    hide Progress;
    var current := repository.table;
    var used := 0;
    MissingBounds(current, assignments);
    for n := 0 to |assignments|
      invariant used == |repository.calls| <= n
      invariant Progress(current, assignments, n, repository.calls)
      invariant repository.table == Bound(current, repository.calls)
      invariant forall i | 0 <= i < used :: verdicts[i]
    {
      var row := assignments[n];
      MissingStep(current, assignments, n, repository.calls);
      if row.deployment in current && current[row.deployment] == row {
        continue;
      }
      BoundStep(current, repository.calls, row);
      var bound := repository.BindDeployment(row, verdicts[used]);
      if !bound {
        return false;
      }
      used := used + 1;
    }
    MissingEnd(current, assignments, repository.calls);
    return true;
  }

  /** The calls made, with what the remaining assignments miss, are all that is missing. */
  predicate Progress(table: Table, assignments: seq<Row>, n: nat, calls: seq<Row>)
    requires n <= |assignments|
  {
    calls + Missing(table, assignments[n..]) == Missing(table, assignments)
  }

  lemma MissingStep(table: Table, assignments: seq<Row>, n: nat, calls: seq<Row>)
    requires n < |assignments| && Progress(table, assignments, n, calls)
    ensures var row := assignments[n];
            if row.deployment in table && table[row.deployment] == row then Progress(table, assignments, n + 1, calls)
            else Progress(table, assignments, n + 1, calls + [row]) && calls + [row] <= Missing(table, assignments)
  {
    hide Missing;
    MissingFrom(table, assignments, n);
    Regroup(calls, assignments[n], Missing(table, assignments[n + 1..]));
  }

  lemma MissingFrom(table: Table, assignments: seq<Row>, n: nat)
    requires n < |assignments|
    ensures var row, rest := assignments[n], Missing(table, assignments[n + 1..]);
            Missing(table, assignments[n..])
            == if row.deployment in table && table[row.deployment] == row then rest else [row] + rest
  {
    assert assignments[n..][1..] == assignments[n + 1..];
  }

  lemma Regroup(calls: seq<Row>, row: Row, rest: seq<Row>)
    ensures calls + ([row] + rest) == calls + [row] + rest
    ensures calls + [row] <= calls + [row] + rest
  {
  }

  lemma BoundStep(table: Table, rows: seq<Row>, row: Row)
    ensures Bound(table, rows + [row]) == Bound(table, rows)[row.deployment := row]
    ensures (rows + [row])[..|rows + [row]| - 1] == rows
  {
    assert (rows + [row])[..|rows|] == rows;
  }

  lemma MissingEnd(table: Table, assignments: seq<Row>, calls: seq<Row>)
    requires Progress(table, assignments, |assignments|, calls)
    ensures calls == Missing(table, assignments)
  {
  }

  lemma MissingBounds(table: Table, assignments: seq<Row>)
    ensures Progress(table, assignments, 0, []) && Bound(table, []) == table
  {
    assert assignments[0..] == assignments;
  }

  /** The missing rows are those of the assignments that the table does not hold. */
  lemma {:induction false} MissingExactly(table: Table, assignments: seq<Row>)
    ensures forall row :: row in Missing(table, assignments) <==>
              row in assignments && !(row.deployment in table && table[row.deployment] == row)
    ensures (forall row | row in assignments :: row.deployment in table && table[row.deployment] == row)
            ==> Missing(table, assignments) == []
    decreases |assignments|
  {
    if assignments != [] {
      MissingExactly(table, assignments[1..]);
      assert assignments == [assignments[0]] + assignments[1..];
    }
  }

  /** A table after binding: the bound row of each bound deployment, otherwise what it had. */
  lemma {:induction false} BoundHolds(table: Table, rows: seq<Row>)
    requires forall i, j | 0 <= i < |rows| && 0 <= j < |rows| && rows[i].deployment == rows[j].deployment :: rows[i] == rows[j]
    ensures forall row | row in rows :: row.deployment in Bound(table, rows) && Bound(table, rows)[row.deployment] == row
    ensures forall d | (forall row | row in rows :: row.deployment != d) ::
              (d in Bound(table, rows) <==> d in table) && (d in table ==> Bound(table, rows)[d] == table[d])
    decreases |rows|
  {
    if rows != [] {
      var front, last := rows[..|rows| - 1], rows[|rows| - 1];
      BoundHolds(table, front);
      assert rows == front + [last];
    }
  }

  /**
   * After an application in which every call succeeded, the table holds every
   * assignment, has not touched another deployment, and a second application
   * binds nothing.
   */
  lemma AppliedIsSettled(table: Table, assignments: seq<Row>)
    requires DistinctDeployments(assignments)
    ensures var after := Bound(table, Missing(table, assignments));
            && Missing(after, assignments) == []
            && (forall row | row in assignments :: row.deployment in after && after[row.deployment] == row)
            && (forall d | (forall row | row in assignments :: row.deployment != d) ::
                  (d in after <==> d in table) && (d in table ==> after[d] == table[d]))
  {
    var missing := Missing(table, assignments);
    var after := Bound(table, missing);
    MissingExactly(table, assignments);
    BoundHolds(table, missing);
    forall row | row in assignments
      ensures row.deployment in after && after[row.deployment] == row
    {
      if row !in missing {
        assert forall other | other in missing :: other.deployment != row.deployment;
      }
    }
    MissingExactly(after, assignments);
  }

  /** A listing of the whole table: each row once. */
  ghost predicate ListsTable(rows: seq<Row>, table: Table)
  {
    && DistinctDeployments(rows)
    && forall row :: row in rows <==> row.deployment in table && table[row.deployment] == row
  }

  /**
   * Apply, then verify: when every call succeeded, any listing of the table passes
   * exactly when what the table held outside the assignments is what the manifest retains.
   */
  lemma AppliedThenVerified(table: Table, assignments: seq<Row>, retained: seq<Row>, readback: seq<Row>)
    requires DistinctDeployments(assignments + retained)
    requires ListsTable(readback, Bound(table, Missing(table, assignments)))
    ensures multiset(readback) == multiset(assignments + retained) <==>
            forall row :: row in retained <==>
              row.deployment in table && table[row.deployment] == row
              && forall a | a in assignments :: a.deployment != row.deployment
  {
    hide Missing;
    hide Bound;
    var all := assignments + retained;
    assert DistinctDeployments(assignments) by {
      assert forall i | 0 <= i < |assignments| :: assignments[i] == all[i];
    }
    AppliedIsSettled(table, assignments);
    if multiset(readback) == multiset(all) {
      SameElements(readback, all);
      Apart(assignments, retained);
    }
    if forall row :: row in retained <==>
         row.deployment in table && table[row.deployment] == row
         && forall a | a in assignments :: a.deployment != row.deployment {
      assert forall row :: row in readback <==> row in all;
      SameMembers(readback, all);
    }
  }

  /** Rows of the two halves never share a deployment. */
  lemma Apart(assignments: seq<Row>, retained: seq<Row>)
    requires DistinctDeployments(assignments + retained)
    ensures forall a, r | a in assignments && r in retained :: a.deployment != r.deployment
  {
    var all := assignments + retained;
    forall a, r | a in assignments && r in retained
      ensures a.deployment != r.deployment
    {
      var i :| 0 <= i < |assignments| && assignments[i] == a;
      var j :| 0 <= j < |retained| && retained[j] == r;
      assert all[i] == a && all[|assignments| + j] == r;
    }
  }

  lemma {:induction false} SameMembers(xs: seq<Row>, ys: seq<Row>)
    requires DistinctDeployments(xs) && DistinctDeployments(ys) && forall row :: row in xs <==> row in ys
    ensures multiset(xs) == multiset(ys)
  {
    forall row
      ensures multiset(xs)[row] == multiset(ys)[row]
    {
      Once(xs, row);
      Once(ys, row);
    }
  }

  lemma {:induction false} Once(xs: seq<Row>, row: Row)
    requires DistinctDeployments(xs)
    ensures multiset(xs)[row] == if row in xs then 1 else 0
    decreases |xs|
  {
    if xs != [] {
      Once(xs[1..], row);
      assert xs == [xs[0]] + xs[1..];
      assert row == xs[0] ==> row !in xs[1..];
    }
  }
}
