/**
 * What `main` derives from the collected rows: the set of usernames (`short_logins`),
 * the line-group keys (`link_logins`), the de-duplicated upsert batch, and the two
 * checks it evaluates on every stored row.
 */
module Reconcile {
  import opened Subscribers

  /** Width of the line-group key. */
  const LineKeyWidth: nat := 12

  /** `username[:12]`: sessions on one physical line share it. */
  function LineKey(user: string): (key: string)
    ensures |key| == (if |user| < LineKeyWidth then |user| else LineKeyWidth)
    ensures key == user[..|key|]
  {
    if |user| <= LineKeyWidth then user else user[..LineKeyWidth]
  }

  /** The line-group key of each row, in row order. */
  function LineKeys(rows: seq<Login>): (keys: seq<string>)
    ensures |keys| == |rows|
    ensures forall k :: 0 <= k < |rows| ==> keys[k] == LineKey(rows[k].user)
  {
    seq(|rows|, k requires 0 <= k < |rows| => LineKey(rows[k].user))
  }

  /** The usernames of the rows, collected row by row. */
  function Users(rows: seq<Login>): set<string>
    decreases |rows|
  {
    if |rows| == 0 then {} else Users(rows[..|rows| - 1]) + {rows[|rows| - 1].user}
  }

  /** A username is in the set exactly when some row has it. */
  lemma {:induction false} UsersMembers(rows: seq<Login>)
    ensures forall u :: u in Users(rows) <==> exists k :: 0 <= k < |rows| && rows[k].user == u
    decreases |rows|
  {
    if |rows| > 0 {
      var init := rows[..|rows| - 1];
      UsersMembers(init);
      assert forall k :: 0 <= k < |init| ==> init[k] == rows[k];
    }
  }

  /** There are never more usernames than rows. */
  lemma {:induction false} UsersCount(rows: seq<Login>)
    ensures |Users(rows)| <= |rows|
    decreases |rows|
  {
    if |rows| > 0 {
      UsersCount(rows[..|rows| - 1]);
    }
  }

  /** One more row adds its key at the end. */
  lemma LineKeysOfAppend(rows: seq<Login>, l: Login)
    ensures LineKeys(rows + [l]) == LineKeys(rows) + [LineKey(l.user)]
  {
  }

  /** One more row adds its username. */
  lemma UsersOfAppend(rows: seq<Login>, l: Login)
    ensures Users(rows + [l]) == Users(rows) + {l.user}
  {
    assert (rows + [l])[..|rows|] == rows;
  }

  /** `set(tuple(i) for i in connected_logins)`: the rows with exact repeats removed. */
  function UpsertBatch(rows: seq<Login>): (batch: set<Login>)
    ensures forall l :: l in batch <==> l in rows
  {
    set l | l in rows
  }

  /** No row tuple occurs twice. */
  predicate Distinct(rows: seq<Login>) {
    forall i, j :: 0 <= i < j < |rows| ==> rows[i] != rows[j]
  }

  /** One more row keeps the rows distinct exactly when it is new. */
  lemma DistinctSnoc(init: seq<Login>, last: Login)
    ensures Distinct(init + [last]) <==> Distinct(init) && last !in init
  {
    var rows := init + [last];
    if last in init {
      var i :| 0 <= i < |init| && init[i] == last;
      assert rows[i] == rows[|rows| - 1];
    } else if Distinct(init) {
      forall i, j | 0 <= i < j < |rows| ensures rows[i] != rows[j] {
        assert rows[i] == init[i];
        if j < |init| {
          assert rows[j] == init[j];
        }
      }
    }
    if Distinct(rows) {
      forall i, j | 0 <= i < j < |init| ensures init[i] != init[j] {
        assert init[i] == rows[i] && init[j] == rows[j];
      }
    }
  }

  /**
   * The batch is never larger than the collected rows, and it is exactly as large
   * when no tuple is repeated: only exact duplicates are removed.
   */
  lemma {:induction false} BatchSize(rows: seq<Login>)
    ensures |UpsertBatch(rows)| <= |rows|
    ensures |UpsertBatch(rows)| == |rows| <==> Distinct(rows)
    decreases |rows|
  {
    if |rows| > 0 {
      var init := rows[..|rows| - 1];
      var last := rows[|rows| - 1];
      BatchSize(init);
      assert rows == init + [last];
      assert UpsertBatch(rows) == UpsertBatch(init) + {last};
      DistinctSnoc(init, last);
    }
  }

  /** Two different rows for one username both stay in the batch. */
  lemma BatchKeepsRowsOfOneUser(rows: seq<Login>, i: nat, j: nat)
    requires i < |rows| && j < |rows| && rows[i].user == rows[j].user && rows[i] != rows[j]
    ensures rows[i] in UpsertBatch(rows) && rows[j] in UpsertBatch(rows)
    ensures |UpsertBatch(rows)| >= 2
  {
    var pair := {rows[i], rows[j]};
    var batch := UpsertBatch(rows);
    assert |pair| == 2;
    assert batch == (batch - pair) + pair;
    assert (batch - pair) * pair == {};
  }

  /** The check at main.py line 286: a stored row whose username was not collected. */
  predicate IsDown(row: Login, shortLogins: set<string>) {
    row.user !in shortLogins
  }

  /** The check at main.py line 290: a stored row whose line-group key was collected. */
  predicate IsLinkUp(row: Login, linkLogins: seq<string>) {
    LineKey(row.user) in linkLogins
  }

  /** A stored row is down exactly when no collected row has its username. */
  lemma DownIffNotCollected(row: Login, rows: seq<Login>)
    ensures IsDown(row, Users(rows)) <==> forall k :: 0 <= k < |rows| ==> rows[k].user != row.user
  {
    UsersMembers(rows);
  }

  /** A stored row's link is up exactly when some collected row is on the same line. */
  lemma LinkUpIffLineCollected(row: Login, rows: seq<Login>)
    ensures IsLinkUp(row, LineKeys(rows)) <==> exists k :: 0 <= k < |rows| && LineKey(rows[k].user) == LineKey(row.user)
  {
    var keys := LineKeys(rows);
    if IsLinkUp(row, keys) {
      var k :| 0 <= k < |keys| && keys[k] == LineKey(row.user);
      assert LineKey(rows[k].user) == LineKey(row.user);
    }
  }

  /**
   * One collected session keeps the link up for every row on its line, collected or
   * not, while only rows whose own username is absent are down.
   */
  lemma LineSharedBySessions(present: Login, absent: Login, rows: seq<Login>)
    requires present in rows && absent.user !in Users(rows)
    requires |present.user| >= LineKeyWidth && |absent.user| >= LineKeyWidth
    requires present.user[..LineKeyWidth] == absent.user[..LineKeyWidth]
    ensures IsLinkUp(present, LineKeys(rows)) && IsLinkUp(absent, LineKeys(rows))
    ensures !IsDown(present, Users(rows)) && IsDown(absent, Users(rows))
  {
    var k :| 0 <= k < |rows| && rows[k] == present;
    assert LineKeys(rows)[k] == LineKey(present.user);
    UsersMembers(rows);
  }
}
