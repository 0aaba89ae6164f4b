/**
 * `parse_cases`: reading one case definition out of the cases sheet.
 *
 * Layout of the cases sheet (rows and columns counted from 0): the case's
 * display name in row 0, column 0; its tech name in row 2, column 1; group
 * headers in row 1 at the slot columns 3, 7, 11, ...; a group's chance in
 * row 3, one column right of its header; and from row 5 on, under each
 * group header, one reward per row: name, count and chance in the header's
 * column and the two columns right of it.
 *
 * Python's `int(...)` and `float(...)` are not modelled; they are the
 * parameters `toInt` and `toFloat`, which give `None` where Python raises
 * `ValueError`. Chances are kept as the parsed number divided by 100.
 */
module Cases {
  import opened Wrappers
  import opened Text
  import opened Sheet
  import opened Rewards
  import opened Selection

  /** The number readers the parser uses in place of Python's `int` and `float`. */
  datatype Parsers = Parsers(toInt: string -> Option<int>, toFloat: string -> Option<real>)

  /** One resolved reward of a group. */
  datatype RewardRef = RewardRef(itemTechName: string, itemType: string, count: int, itemId: string, chance: real)

  datatype Group = Group(groupChance: real, rewards: seq<RewardRef>)

  datatype CaseConfig = CaseConfig(caseTechName: string, groups: map<string, Group>)

  /** The substring that marks a group header in row 1. */
  const GroupMarker: string := "Group"

  /** The column of the `s`-th group slot (counting from 0). */
  function SlotColumn(s: nat): nat
  {
    3 + 4 * s
  }

  /** Column `c` is a slot column: 3, 7, 11, ... */
  predicate IsSlot(c: nat)
  {
    c >= 3 && c % 4 == 3
  }

  /** The group number the parser's counter holds when it reaches slot column `c`. */
  function SlotNumber(c: nat): nat
  {
    (c - 3) / 4 + 1
  }

  /** The name `f"group_{n}"`. */
  function GroupName(n: nat): string
  {
    "group_" + NatToString(n)
  }

  /** Distinct slot numbers give distinct group names. */
  lemma GroupNameInjective(n: nat, m: nat)
    ensures GroupName(n) == GroupName(m) <==> n == m
  {
    if GroupName(n) == GroupName(m) {
      assert NatToString(n) == GroupName(n)[6..] == GroupName(m)[6..] == NatToString(m);
      NatToStringInjective(n, m);
    }
  }

  /** Python's `"Group" in cell`. */
  predicate IsGroupHeader(cell: string)
  {
    Contains(cell, GroupMarker)
  }

  /**
   * The cells the source reads without a bounds check exist: row 0 column 0,
   * row 2 column 1, and the chance cell of every group header. The source
   * only reads them when the sheet has at least five rows.
   */
  predicate Indexable(g: Grid)
  {
    |g| >= 5 ==>
      && |g[0]| >= 1
      && |g[2]| >= 2
      && forall c: nat :: c < |g[1]| && IsSlot(c) && IsGroupHeader(g[1][c]) ==> c + 1 < |g[3]|
  }

  /** A chance cell's text, `None` where the source's guarded read gives a falsy value. */
  function ChanceText(cell: string): (r: Option<string>)
  {
    var s := if cell != "" then PercentText(cell) else "";
    if s == "" then None else Some(s)
  }

  /**
   * The count text of a reward row: the stripped cell right of the name, or
   * "" where the source has `None` (the cell is missing or empty); both are
   * falsy to the source.
   */
  function CountText(row: Row, col: nat): string
  {
    if |row| > col + 1 && row[col + 1] != "" then Strip(row[col + 1]) else ""
  }

  /** The chance text of a reward row, two cells right of the name, read the same way. */
  function RewardChanceText(row: Row, col: nat): string
  {
    if |row| > col + 2 && row[col + 2] != "" then PercentText(row[col + 2]) else ""
  }

  /**
   * What a reward row contributes to the group whose header is in column
   * `col`: the guarded reads of name, count and chance, both numbers parsed,
   * the name resolved in the rewards table; `None` when any step fails.
   */
  function RewardFromRow(row: Row, col: nat, table: Table, p: Parsers): Option<RewardRef>
  {
    if |row| <= col then None
    else
      var rewardName := row[col];
      var countStr := CountText(row, col);
      var chanceStr := RewardChanceText(row, col);
      if rewardName == "" || countStr == "" || chanceStr == "" then None
      else
        var count, chance := p.toInt(countStr), p.toFloat(chanceStr);
        if count.None? || chance.None? then None
        else match FindRewardData(rewardName, table)
          case None => None
          case Some(entry) =>
            Some(RewardRef(rewardName, entry.itemType, count.value, entry.itemId, chance.value / 100.0))
  }

  /** Row `i` of `g` contributes a reward to the group in column `col`. */
  predicate Contributes(g: Grid, i: nat, col: nat, table: Table, p: Parsers)
  {
    i < |g| && RewardFromRow(g[i], col, table, p).Some?
  }

  /** The rewards the rows from 5 up to (not including) `n` contribute, in row order. */
  function GroupRewards(g: Grid, col: nat, table: Table, p: Parsers, n: nat): seq<RewardRef>
    requires n <= |g|
  {
    if n <= 5 then []
    else
      GroupRewards(g, col, table, p, n - 1)
        + match RewardFromRow(g[n - 1], col, table, p) case Some(r) => [r] case None => []
  }

  /** The rows, from 5 up to (not including) `n`, that contribute a reward, in increasing order. */
  function RewardRows(g: Grid, col: nat, table: Table, p: Parsers, n: nat): (ix: seq<nat>)
    requires n <= |g|
    ensures forall k :: 0 <= k < |ix| ==> 5 <= ix[k] < n
  {
    Select(5, n, (i: nat) => Contributes(g, i, col, table, p))
  }

  /**
   * The contributing rows are listed in increasing order, all from row 5 on,
   * and every row from 5 on that contributes is listed.
   */
  lemma {:induction false} RewardRowsExact(g: Grid, col: nat, table: Table, p: Parsers, n: nat)
    requires n <= |g|
    ensures forall k :: 0 <= k < |RewardRows(g, col, table, p, n)| ==>
      5 <= RewardRows(g, col, table, p, n)[k] < n && Contributes(g, RewardRows(g, col, table, p, n)[k], col, table, p)
    ensures forall k, l :: 0 <= k < l < |RewardRows(g, col, table, p, n)| ==>
      RewardRows(g, col, table, p, n)[k] < RewardRows(g, col, table, p, n)[l]
    ensures forall i :: 5 <= i < n && Contributes(g, i, col, table, p) ==> i in RewardRows(g, col, table, p, n)
  {
    SelectExact(5, n, (i: nat) => Contributes(g, i, col, table, p));
  }

  /** The group's rewards are exactly those of its contributing rows, in row order. */
  lemma {:induction false} GroupRewardsAt(g: Grid, col: nat, table: Table, p: Parsers, n: nat)
    requires n <= |g|
    ensures |GroupRewards(g, col, table, p, n)| == |RewardRows(g, col, table, p, n)|
    ensures forall k :: 0 <= k < |RewardRows(g, col, table, p, n)| ==>
      RewardFromRow(g[RewardRows(g, col, table, p, n)[k]], col, table, p) == Some(GroupRewards(g, col, table, p, n)[k])
  {
    RewardRowsExact(g, col, table, p, n);
    if n > 5 {
      GroupRewardsAt(g, col, table, p, n - 1);
      RewardRowsExact(g, col, table, p, n - 1);
    }
  }

  /**
   * A group's chance, as a fraction, from its chance cell; `None` when the
   * cell is blank, or strips to nothing, or does not parse (the source skips
   * the group in all three cases).
   */
  function GroupChance(cell: string, p: Parsers): Option<real>
  {
    match ChanceText(cell)
    case None => None
    case Some(s) =>
      match p.toFloat(s)
      case None => None
      case Some(v) => Some(v / 100.0)
  }

  /** The group the slot at column `col` adds to the case, if any. */
  function SlotGroup(g: Grid, col: nat, table: Table, p: Parsers): Option<Group>
    requires |g| >= 5 && Indexable(g) && IsSlot(col) && col < |g[1]|
  {
    if !IsGroupHeader(g[1][col]) then None
    else
      match GroupChance(g[3][col + 1], p)
      case None => None
      case Some(chance) =>
        var rewards := GroupRewards(g, col, table, p, |g|);
        if rewards == [] then None else Some(Group(chance, rewards))
  }

  /**
   * The groups the first `k` slots file, slot `s` (counting from 0) under
   * `group_<s + 1>` when `slots(s)` yields one: the counter advances on every
   * slot, whether or not it yields a group.
   */
  function Filed(slots: nat -> Option<Group>, k: nat): map<string, Group>
  {
    if k == 0 then map[]
    else
      match slots(k - 1)
      case None => Filed(slots, k - 1)
      case Some(grp) => Filed(slots, k - 1)[GroupName(k) := grp]
  }

  /** What every slot of row 1 yields; nothing beyond the end of the row. */
  function SlotGroups(g: Grid, table: Table, p: Parsers): nat -> Option<Group>
    requires |g| >= 5 && Indexable(g)
  {
    (s: nat) =>
      if SlotColumn(s) < |g[1]| then
        SlotColumnFacts(s);
        SlotGroup(g, SlotColumn(s), table, p)
      else None
  }

  /** Slot `s` lies in column `SlotColumn(s)`, and the counter reads `s + 1` there. */
  lemma SlotColumnFacts(s: nat)
    ensures IsSlot(SlotColumn(s))
    ensures SlotNumber(SlotColumn(s)) == s + 1
  {
  }

  /** `k` slots fit in a row of width `w` and a further one does not: there are exactly `k`. */
  lemma SlotCountExact(k: nat, w: nat)
    requires 4 * k <= w < 4 * k + 4
    ensures SlotCount(w) == k
  {
  }

  /** The number of slot columns in a header row of width `w`. */
  function SlotCount(w: nat): (n: nat)
    ensures 4 * n <= w
    ensures forall c: nat :: IsSlot(c) && c < w ==> c < SlotColumn(n)
  {
    w / 4
  }

  /** The mapping `parse_cases(g, table)` returns. */
  function ParsedCases(g: Grid, table: Table, p: Parsers): map<string, CaseConfig>
    requires Indexable(g)
  {
    if |g| < 5 then map[]
    else map[g[0][0] := CaseConfig(g[2][1], Filed(SlotGroups(g, table, p), SlotCount(|g[1]|)))]
  }

  /**
   * The reward loop of `parse_cases` for the group whose header is in column
   * `groupIdx`: rows from 5 on, each appending at most one reward, the one
   * `RewardFromRow` gives (a row that is skipped with `continue` gives none).
   */
  method ReadGroupRewards(casesValues: Grid, groupIdx: nat, rewardsTable: Table, parsers: Parsers)
    returns (rewards: seq<RewardRef>)
    requires |casesValues| >= 5
    ensures rewards == GroupRewards(casesValues, groupIdx, rewardsTable, parsers, |casesValues|)
  {
    rewards := [];
    for rewardIdx := 5 to |casesValues|
      invariant rewards == GroupRewards(casesValues, groupIdx, rewardsTable, parsers, rewardIdx)
    {
      var reward := RewardFromRow(casesValues[rewardIdx], groupIdx, rewardsTable, parsers);
      if reward.Some? {
        rewards := rewards + [reward.value];
      }
    }
  }

  /**
   * The body of the slot loop of `parse_cases` for the slot at column
   * `groupIdx`: a header without "Group" is passed over; a blank chance
   * cell, one that strips to nothing or one that does not parse skips the
   * slot; otherwise the rewards are read, and the group is kept only when
   * it has some.
   */
  method ReadSlot(casesValues: Grid, groupIdx: nat, rewardsTable: Table, parsers: Parsers)
    returns (group: Option<Group>)
    requires |casesValues| >= 5 && Indexable(casesValues) && IsSlot(groupIdx) && groupIdx < |casesValues[1]|
    ensures group == SlotGroup(casesValues, groupIdx, rewardsTable, parsers)
  {
    group := None;
    if IsGroupHeader(casesValues[1][groupIdx]) {
      var chanceCell := casesValues[3][groupIdx + 1];
      var groupChanceStr := if chanceCell != "" then PercentText(chanceCell) else "";
      if groupChanceStr == "" {
        return;
      }
      var parsed := parsers.toFloat(groupChanceStr);
      if parsed.None? {
        return;
      }
      var groupChance := parsed.value / 100.0;
      var rewards := ReadGroupRewards(casesValues, groupIdx, rewardsTable, parsers);
      if rewards != [] {
        group := Some(Group(groupChance, rewards));
      }
    }
  }

  /**
   * `parse_cases` (case-config.py): gives up with an empty mapping on fewer
   * than five rows; otherwise walks the slot columns of row 1, numbering
   * every slot, and files each group a slot yields under `group_<number>`.
   */
  method ParseCases(casesValues: Grid, rewardsTable: Table, parsers: Parsers)
    returns (caseConfig: map<string, CaseConfig>)
    requires Indexable(casesValues)
    ensures caseConfig == ParsedCases(casesValues, rewardsTable, parsers)
    ensures |casesValues| < 5 ==> caseConfig == map[]
    ensures |casesValues| >= 5 ==>
      caseConfig.Keys == {casesValues[0][0]} && caseConfig[casesValues[0][0]].caseTechName == casesValues[2][1]
  {
    caseConfig := map[];
    if |casesValues| < 5 {
      return;
    }
    var caseName := casesValues[0][0];
    var caseTechName := casesValues[2][1];
    caseConfig := caseConfig[caseName := CaseConfig(caseTechName, map[])];
    var groupIdx := 3;
    var groupNumber := 1;
    while groupIdx < |casesValues[1]|
      invariant groupNumber >= 1 && groupIdx == SlotColumn(groupNumber - 1)
      invariant 4 * (groupNumber - 1) <= |casesValues[1]|
      invariant caseConfig == map[caseName := CaseConfig(caseTechName, Filed(SlotGroups(casesValues, rewardsTable, parsers), groupNumber - 1))]
      decreases |casesValues[1]| - groupIdx
    {
      SlotColumnFacts(groupNumber - 1);
      var group := ReadSlot(casesValues, groupIdx, rewardsTable, parsers);
      if group.Some? {
        var groupName := GroupName(groupNumber);
        var config := caseConfig[caseName];
        caseConfig := caseConfig[caseName := config.(groups := config.groups[groupName := group.value])];
      }
      groupIdx := groupIdx + 4;
      groupNumber := groupNumber + 1;
    }
    SlotCountExact(groupNumber - 1, |casesValues[1]|);
  }

  /** The group filed under `name`, if any. */
  function Lookup(groups: map<string, Group>, name: string): (r: Option<Group>)
    ensures r.Some? <==> name in groups
    ensures r.Some? ==> r.value == groups[name]
  {
    if name in groups then Some(groups[name]) else None
  }

  /** The group filed under `group_<n>` is what slot `n - 1` yields. */
  lemma {:induction false} FiledAt(slots: nat -> Option<Group>, k: nat, n: nat)
    requires 1 <= n <= k
    ensures Lookup(Filed(slots, k), GroupName(n)) == slots(n - 1)
  {
    GroupNameInjective(k, n);
    if n < k {
      FiledAt(slots, k - 1, n);
    } else {
      FiledAbove(slots, k - 1, k);
    }
  }

  /** No slot beyond the first `k` has its name among the groups they file. */
  lemma {:induction false} FiledAbove(slots: nat -> Option<Group>, k: nat, n: nat)
    requires k < n
    ensures GroupName(n) !in Filed(slots, k)
  {
    if k > 0 {
      FiledAbove(slots, k - 1, n);
      GroupNameInjective(n, k);
    }
  }

  /** Every name the first `k` slots file is `group_<n>` for one of those slots. */
  lemma {:induction false} FiledKeys(slots: nat -> Option<Group>, k: nat, name: string)
    requires name in Filed(slots, k)
    ensures exists n :: 1 <= n <= k && name == GroupName(n)
  {
    if name != GroupName(k) {
      FiledKeys(slots, k - 1, name);
    }
  }

  /**
   * Slot numbering in the parsed case: the slot at column `c` of row 1 is
   * filed under `group_<(c - 3) / 4 + 1>` exactly when it yields a group,
   * whatever the slots before it yielded.
   */
  lemma ParsedGroupAt(g: Grid, table: Table, p: Parsers, c: nat)
    requires |g| >= 5 && Indexable(g) && IsSlot(c) && c < |g[1]|
    ensures g[0][0] in ParsedCases(g, table, p)
    ensures Lookup(ParsedCases(g, table, p)[g[0][0]].groups, GroupName(SlotNumber(c))) == SlotGroup(g, c, table, p)
  {
    var s := (c - 3) / 4;
    assert SlotColumn(s) == c;
    FiledAt(SlotGroups(g, table, p), SlotCount(|g[1]|), s + 1);
  }

  /** Every group name in the parsed case is the name of a slot column inside row 1. */
  lemma ParsedGroupKeys(g: Grid, table: Table, p: Parsers, name: string)
    requires |g| >= 5 && Indexable(g)
    requires name in ParsedCases(g, table, p)[g[0][0]].groups
    ensures exists c: nat :: IsSlot(c) && c < |g[1]| && name == GroupName(SlotNumber(c))
  {
    var k := SlotCount(|g[1]|);
    FiledKeys(SlotGroups(g, table, p), k, name);
    var n :| 1 <= n <= k && name == GroupName(n);
    SlotColumnFacts(n - 1);
  }

  /**
   * When a slot yields a group: its header says "Group", its chance cell
   * reads as a chance, and some row from 5 on contributes a reward; the
   * group carries that chance and, in row order, the rewards of exactly the
   * contributing rows.
   */
  lemma SlotGroupSpec(g: Grid, c: nat, table: Table, p: Parsers)
    requires |g| >= 5 && Indexable(g) && IsSlot(c) && c < |g[1]|
    ensures SlotGroup(g, c, table, p).Some? <==>
      IsGroupHeader(g[1][c]) && GroupChance(g[3][c + 1], p).Some? && RewardRows(g, c, table, p, |g|) != []
    ensures SlotGroup(g, c, table, p).Some? ==>
      && SlotGroup(g, c, table, p).value.groupChance == GroupChance(g[3][c + 1], p).value
      && |SlotGroup(g, c, table, p).value.rewards| == |RewardRows(g, c, table, p, |g|)|
      && forall k :: 0 <= k < |RewardRows(g, c, table, p, |g|)| ==>
           RewardFromRow(g[RewardRows(g, c, table, p, |g|)[k]], c, table, p) == Some(SlotGroup(g, c, table, p).value.rewards[k])
  {
    GroupRewardsAt(g, c, table, p, |g|);
  }

  /**
   * A row yields a reward exactly when its name, count and chance cells are
   * present and non-empty after stripping, both numbers parse and the name
   * is a key of the rewards table; the reward then takes its name from the
   * row, its count and chance from the parsed numbers and its item id and
   * type from the table entry.
   */
  lemma RewardFromRowSpec(row: Row, col: nat, table: Table, p: Parsers)
    ensures RewardFromRow(row, col, table, p).Some? <==>
      && col + 2 < |row|
      && row[col] != ""
      && Strip(row[col + 1]) != ""
      && PercentText(row[col + 2]) != ""
      && p.toInt(Strip(row[col + 1])).Some?
      && p.toFloat(PercentText(row[col + 2])).Some?
      && row[col] in table
    ensures RewardFromRow(row, col, table, p).Some? ==>
      RewardFromRow(row, col, table, p).value == RewardRef(
        row[col], table[row[col]].itemType, p.toInt(Strip(row[col + 1])).value,
        table[row[col]].itemId, p.toFloat(PercentText(row[col + 2])).value / 100.0)
  {
  }

  /**
   * Where a reward's item id and type come from when the table is the one
   * parsed from the rewards sheet `h`: the last row of `h` that registers the
   * reward's name.
   */
  lemma RewardFromSheet(row: Row, col: nat, h: Grid, p: Parsers)
    requires ReadableRows(h) && RewardFromRow(row, col, RewardsTable(h), p).Some?
    ensures var r := RewardFromRow(row, col, RewardsTable(h), p).value;
      exists i: nat :: LastRegistration(h, i, r.itemTechName) && EntryFrom(h[i], r.itemTechName) == RewardEntry(r.itemId, r.itemType)
  {
    var r := RewardFromRow(row, col, RewardsTable(h), p).value;
    var name := r.itemTechName;
    RewardFromRowSpec(row, col, RewardsTable(h), p);
    FindInRewardsTable(h, name);
    var i :| 2 <= i < |h| && Registers(h[i], name);
    LastRegistrationFrom(h, i, name);
  }
}
