/**
 * The rewards table: a lookup from a reward's tech name to its item id and
 * type, read from the rewards sheet (`parse_rewards_table`), and the exact-key
 * lookup into it (`find_reward_data`).
 *
 * Layout of the rewards sheet: rows 0 and 1 are headers; every later row holds
 * two side-by-side entries, the first in columns 0 (name), 2 (item id) and 3
 * (type), the second in columns 5, 7 and 8.
 */
module Rewards {
  import opened Wrappers
  import opened Text
  import opened Sheet

  datatype RewardEntry = RewardEntry(itemId: string, itemType: string)

  type Table = map<string, RewardEntry>

  /**
   * The cells the source reads from a data row exist: columns 0 and 5
   * always, columns 2 and 3 when column 0 holds a name (always present once
   * column 5 is), and columns 7 and 8 when column 5 holds a name.
   */
  predicate ReadableRow(row: Row)
  {
    |row| >= 6 && (row[5] != "" ==> |row| >= 9)
  }

  /** Every data row (index 2 on) is readable; the header rows are never read. */
  predicate ReadableRows(g: Grid)
  {
    forall i :: 2 <= i < |g| ==> ReadableRow(g[i])
  }

  /** The entry described by columns 2 and 3 of a row. */
  function LeftEntry(row: Row): RewardEntry
    requires |row| >= 4
  {
    RewardEntry(Strip(row[2]), Strip(row[3]))
  }

  /** The entry described by columns 7 and 8 of a row. */
  function RightEntry(row: Row): RewardEntry
    requires |row| >= 9
  {
    RewardEntry(Strip(row[7]), Strip(row[8]))
  }

  /** One pass of the loop body: register column 0's name, then column 5's. */
  function AddRow(t: Table, row: Row): Table
    requires ReadableRow(row)
  {
    var t' := if row[0] != "" then t[row[0] := LeftEntry(row)] else t;
    if row[5] != "" then t'[row[5] := RightEntry(row)] else t'
  }

  /** The table after the data rows among the first `n` rows of `g`. */
  function TableUpTo(g: Grid, n: nat): Table
    requires ReadableRows(g) && n <= |g|
  {
    if n <= 2 then map[] else AddRow(TableUpTo(g, n - 1), g[n - 1])
  }

  /** The table `parse_rewards_table(g)` returns. */
  function RewardsTable(g: Grid): Table
    requires ReadableRows(g)
  {
    TableUpTo(g, |g|)
  }

  /**
   * `parse_rewards_table` (case-config.py): walks the rows after the two
   * header rows and, for each, registers the name in column 0 and then the
   * name in column 5, each when non-empty; a later registration of a name
   * replaces an earlier one.
   */
  method ParseRewardsTable(rewardsValues: Grid) returns (rewardsTable: Table)
    requires ReadableRows(rewardsValues)
    ensures rewardsTable == RewardsTable(rewardsValues)
  {
    rewardsTable := map[];
    var start := if |rewardsValues| < 2 then |rewardsValues| else 2;
    var rows := rewardsValues[start..];
    for k := 0 to |rows|
      invariant rewardsTable == TableUpTo(rewardsValues, start + k)
    {
      var row := rows[k];
      if row[0] != "" {
        rewardsTable := rewardsTable[row[0] := RewardEntry(Strip(row[2]), Strip(row[3]))];
      }
      if row[5] != "" {
        rewardsTable := rewardsTable[row[5] := RewardEntry(Strip(row[7]), Strip(row[8]))];
      }
    }
  }

  /** Row `row` registers `name`: it is the non-empty name in column 0 or column 5. */
  predicate Registers(row: Row, name: string)
  {
    ReadableRow(row) && name != "" && (row[0] == name || row[5] == name)
  }

  /** Row `i` is a data row that registers `name` and no later row does. */
  predicate LastRegistration(g: Grid, i: nat, name: string)
  {
    2 <= i < |g| && Registers(g[i], name) && forall j :: i < j < |g| ==> !Registers(g[j], name)
  }

  /** A name some data row registers has a last registering row. */
  lemma {:induction false} LastRegistrationFrom(g: Grid, i: nat, name: string)
    requires 2 <= i < |g| && Registers(g[i], name)
    ensures exists j :: i <= j && LastRegistration(g, j, name)
    decreases |g| - i
  {
    if exists j :: i < j < |g| && Registers(g[j], name) {
      var j :| i < j < |g| && Registers(g[j], name);
      LastRegistrationFrom(g, j, name);
    } else {
      assert LastRegistration(g, i, name);
    }
  }

  /** The entry a registering row gives `name`: column 5's when both columns name it. */
  function EntryFrom(row: Row, name: string): RewardEntry
    requires Registers(row, name)
  {
    if row[5] == name then RightEntry(row) else LeftEntry(row)
  }

  /** What one row does to the entry under `name`. */
  lemma AddRowAt(t: Table, row: Row, name: string)
    requires ReadableRow(row)
    ensures name in AddRow(t, row) <==> name in t || Registers(row, name)
    ensures Registers(row, name) ==> AddRow(t, row)[name] == EntryFrom(row, name)
    ensures !Registers(row, name) && name in t ==> AddRow(t, row)[name] == t[name]
  {
  }

  /** The names in the table are exactly the names registered by some data row. */
  lemma {:induction false} TableUpToKeys(g: Grid, n: nat, name: string)
    requires ReadableRows(g) && n <= |g|
    ensures name in TableUpTo(g, n) <==> exists i :: 2 <= i < n && Registers(g[i], name)
  {
    if n > 2 {
      TableUpToKeys(g, n - 1, name);
      AddRowAt(TableUpTo(g, n - 1), g[n - 1], name);
    }
  }

  /** The names in the parsed table are exactly the names registered by some row at index 2 or later. */
  lemma {:induction false} RewardsTableKeys(g: Grid, name: string)
    requires ReadableRows(g)
    ensures name in RewardsTable(g) <==> exists i :: 2 <= i < |g| && Registers(g[i], name)
  {
    TableUpToKeys(g, |g|, name);
  }

  /** Last write wins, stated for the first `n` rows. */
  lemma {:induction false} TableUpToLastWrite(g: Grid, n: nat, i: nat, name: string)
    requires ReadableRows(g) && 2 <= i < n <= |g|
    requires Registers(g[i], name)
    requires forall j :: i < j < n ==> !Registers(g[j], name)
    ensures name in TableUpTo(g, n) && TableUpTo(g, n)[name] == EntryFrom(g[i], name)
  {
    var prev := TableUpTo(g, n - 1);
    assert TableUpTo(g, n) == AddRow(prev, g[n - 1]);
    AddRowAt(prev, g[n - 1], name);
    if n - 1 > i {
      TableUpToLastWrite(g, n - 1, i, name);
      assert !Registers(g[n - 1], name);
    }
  }

  /**
   * Last write wins: a name maps to the entry given by the last row that
   * registers it, and within that row column 5's entry beats column 0's.
   */
  lemma {:induction false} RewardsTableLastWrite(g: Grid, i: nat, name: string)
    requires ReadableRows(g) && LastRegistration(g, i, name)
    ensures name in RewardsTable(g) && RewardsTable(g)[name] == EntryFrom(g[i], name)
  {
    TableUpToLastWrite(g, |g|, i, name);
  }

  /** The two header rows play no part: grids that differ only there give the same table. */
  lemma {:induction false} TableUpToIgnoresHeaders(g: Grid, h: Grid, n: nat)
    requires ReadableRows(g) && ReadableRows(h) && |g| == |h| && n <= |g|
    requires forall i :: 2 <= i < |g| ==> g[i] == h[i]
    ensures TableUpTo(g, n) == TableUpTo(h, n)
  {
    if n > 2 {
      TableUpToIgnoresHeaders(g, h, n - 1);
    }
  }

  /**
   * `find_reward_data` (case-config.py): `rewards_table.get(reward_name, None)`,
   * the entry stored under exactly that name, or none.
   */
  function FindRewardData(rewardName: string, rewardsTable: Table): (r: Option<RewardEntry>)
    ensures r.Some? <==> rewardName in rewardsTable
    ensures r.Some? ==> r.value == rewardsTable[rewardName]
  {
    if rewardName in rewardsTable then Some(rewardsTable[rewardName]) else None
  }

  /** No partial matching: entries under any other name do not affect a lookup. */
  lemma FindRewardDataOnlyExactKey(rewardName: string, other: string, e: RewardEntry, t: Table)
    requires other != rewardName
    ensures FindRewardData(rewardName, t[other := e]) == FindRewardData(rewardName, t)
    ensures FindRewardData(rewardName, t - {other}) == FindRewardData(rewardName, t)
  {
  }

  /**
   * A lookup in the parsed rewards table finds a name exactly when some data
   * row registers it, and then returns what the last such row gave it.
   */
  lemma {:induction false} FindInRewardsTable(g: Grid, rewardName: string)
    requires ReadableRows(g)
    ensures FindRewardData(rewardName, RewardsTable(g)).Some?
      <==> exists i :: 2 <= i < |g| && Registers(g[i], rewardName)
    ensures forall i: nat | LastRegistration(g, i, rewardName) ::
      FindRewardData(rewardName, RewardsTable(g)) == Some(EntryFrom(g[i], rewardName))
  {
    RewardsTableKeys(g, rewardName);
    forall i: nat | LastRegistration(g, i, rewardName)
      ensures FindRewardData(rewardName, RewardsTable(g)) == Some(EntryFrom(g[i], rewardName))
    {
      RewardsTableLastWrite(g, i, rewardName);
    }
  }
}
