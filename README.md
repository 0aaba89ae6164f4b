# case-config: loot-case configuration from two spreadsheet grids

`case-config.py` reads two Google Sheets grids. The cases sheet describes one
case: its display name, its tech name, and reward groups laid out in 4-column
slots. The rewards sheet maps reward tech names to item ids and types. The
script turns the two grids into a nested configuration. This project models the
transformation once the grids are in hand:

- `clean_data`: drops rows without a non-empty cell and right-pads the rest
  with empty cells to a common width. It is `Sheet.CleanData` in `grid.dfy`.
- `parse_rewards_table`: builds the name → `{item_id, type}` table from
  the rewards grid. It is `Rewards.ParseRewardsTable` in `rewards.dfy`.
- `find_reward_data`: an exact-key lookup in that table. It is
  `Rewards.FindRewardData`.
- `parse_cases`: walks the slot columns 3, 7, 11, … of the cases grid's
  row 1, reads each group's chance and reward rows, and resolves every reward
  in the table. It is `Cases.ParseCases` in `cases.dfy`, with its loop body
  `Cases.ReadSlot` and the reward loop `Cases.ReadGroupRewards`.

Each imperative operation is a `method` proved against a specification
function: `Cleaned`, `RewardsTable`, `SlotGroup`, `GroupRewards` and
`ParsedCases`. Lemmas then state what those functions mean. The supporting
files are:

- `text.dfy`: Python's `str.strip()` (over the `str.isspace` characters),
  `str.strip(chars)`, `sub in s` and decimal rendering;
- `selection.dfy`: the increasing list of indices satisfying a predicate;
- `wrappers.dfy`: `Option`;
- `examples.dfy`: worked instances.

Python's `int(...)` and `float(...)` are parameters of the model
(`Cases.Parsers`). They are partial functions returning `None` where Python
raises `ValueError`. Chances are the parsed value divided by `100.0`, over
`real`.

Unchecked indexing in the source becomes `requires` clauses:

- `Rewards.ReadableRows`: every data row of the rewards grid (index 2 on)
  has columns 0 to 5, which the source always reads. When column 5 holds a
  name, the row also has columns 7 and 8, which are read only then.
  Columns 2 and 3 are read only when column 0 holds a name, and they exist
  whenever column 5 does.
- `Cases.Indexable`: `cases_values[0][0]`, `cases_values[2][1]` and the
  chance cell `cases_values[3][c + 1]` of every group header exist.

Where the source itself guards a read, such as a short reward row or a blank
cell, the model follows the guarded path instead of requiring anything.

### Behaviour worth noting

- **Percent signs.** The code strips `%` first and whitespace second
  (`case-config.py:53`, `case-config.py:73`). A chance cell `" 7 % "` is
  therefore handed to `float` as `"7 %"`, while `"42%"` becomes `"42"`.
  `Examples.PercentSignKeptInsideWhitespace` and
  `Examples.PercentSignRemoved` show both.
- **Where a group's cells are.** A group's chance is read one column right
  of its header, in row 3 (`case-config.py:53`). Its reward rows start at
  row 5 (`case-config.py:68`), so row 4 is never read.
- **Narrow rewards rows.** A data row of six to eight cells with an empty
  column 5 is read normally (`Examples.NarrowRowRegisters`). A data row with
  fewer than six cells, or a name in column 5 but fewer than nine cells,
  makes the code fail with an index error. The model states this as the
  precondition `Rewards.ReadableRows` instead of an error result.

## Model

| member | source | states |
|---|---|---|
| Sheet.CleanData | case-config.py:31-38 | the method's result is `Cleaned(values)`: the filter loop keeps exactly the rows with a non-empty cell, and the padding loop appends `''` until each row reaches the widest kept row's length |
| Sheet.KeptIndices | case-config.py:32 | the kept row indices are in range, strictly increasing, each names a row with a non-empty cell, and every such row is listed |
| Sheet.MaxLen | case-config.py:34 | the width bounds every row, some row attains it, and it is 0 for no rows |
| Sheet.CleanedShape | case-config.py:32-37 | output row `k` comes from input row `KeptIndices[k]` (original order), holds that row's cells unchanged at their indices followed only by `''`, and has the common width; that width is the length of some kept input row |
| Sheet.CleanedRows | case-config.py:32-37 | every output row has a non-empty cell and exactly the common width |
| Sheet.CleanedAllEmpty | case-config.py:32-33 | an input whose rows are all empty yields `[]` |
| Sheet.CleanedIdempotent | case-config.py:31-38 | cleaning a cleaned grid changes nothing |
| Rewards.ParseRewardsTable | case-config.py:99-106 | the loop's table is `RewardsTable(g)`: rows 2.. in order, the column-0 entry and then the column-5 entry of each row, each only when its name is non-empty |
| Rewards.RewardsTableKeys | case-config.py:101-105 | a name is a key exactly when some row at index ≥ 2 has it as a non-empty cell in column 0 or 5 |
| Rewards.RewardsTableLastWrite | case-config.py:101-105 | a name maps to the entry of the last row registering it (stripped columns 2/3, or 7/8); within that row column 5 beats column 0 |
| Rewards.TableUpToIgnoresHeaders | case-config.py:101 | grids that differ only in rows 0 and 1 give the same table |
| Rewards.LastRegistrationFrom | case-config.py:101-105 | a name registered by some data row has a last registering row |
| Rewards.FindRewardData | case-config.py:96-97 | the lookup gives `Some(t[name])` exactly when `name in t`, and `None` otherwise |
| Rewards.FindRewardDataOnlyExactKey | case-config.py:96-97 | adding or removing any other key does not change the lookup: no partial matching |
| Rewards.FindInRewardsTable | case-config.py:96-106 | a lookup in the parsed table succeeds exactly when some data row registers the name, and then yields that name's last registration |
| Text.StripCharsSpec | case-config.py:53 | `strip` drops the longest leading and trailing runs of the given characters and keeps the middle unchanged; the result neither starts nor ends with one of them |
| Text.StripCharsEmpty | case-config.py:54 | a stripped text is empty (falsy) exactly when every character of the original is stripped |
| Text.StripCharsIdempotent | case-config.py:73 | stripping again removes nothing more |
| Text.StripCharsUnchanged | case-config.py:53 | a text that neither starts nor ends with a stripped character is returned as it is |
| Text.NatToStringInjective | case-config.py:52 | distinct numbers have distinct decimal texts |
| Cases.GroupNameInjective | case-config.py:52 | `group_{n}` names differ for different `n` |
| Cases.SlotCount | case-config.py:50 | the number of slots fits in row 1, and every slot column inside row 1 lies below the first slot that does not fit |
| Cases.RewardRowsExact | case-config.py:68-87 | the contributing rows are listed in increasing order, all at index ≥ 5, and every contributing row is listed |
| Cases.GroupRewardsAt | case-config.py:68-87 | the group's rewards are those of its contributing rows, one each, in row order |
| Cases.RewardFromRowSpec | case-config.py:69-87 | a row yields a reward exactly when the name, count and chance cells exist and are non-empty after stripping, both numbers parse and the name is a table key; the reward's name is the cell, count and chance are the parsed numbers (chance / 100), and item id and type come from the table entry |
| Cases.RewardFromSheet | case-config.py:83-85 | with the table parsed from a rewards grid, a reward's item id and type are those of the last rewards row registering its name |
| Cases.ReadGroupRewards | case-config.py:66-87 | the reward loop's list is `GroupRewards(...)`, the rewards of the contributing rows from row 5 on |
| Cases.ReadSlot | case-config.py:51-91 | one slot's processing yields `SlotGroup(...)`: nothing unless the header contains `"Group"`, the chance cell reads and parses and some reward survives |
| Cases.SlotGroupSpec | case-config.py:51-91 | a slot yields a group exactly when its header contains `"Group"`, its chance parses and some row contributes; the group has that chance / 100 and exactly the contributing rows' rewards in row order |
| Cases.FiledAt | case-config.py:49-93 | after `k` slots, `group_{n}` holds exactly what slot `n - 1` yielded, for every `n ≤ k`, whatever earlier slots yielded |
| Cases.FiledAbove | case-config.py:49-93 | no name of a slot not yet visited is present |
| Cases.FiledKeys | case-config.py:49-93 | every name present is `group_{n}` for a visited slot `n` |
| Cases.ParseCases | case-config.py:40-94 | fewer than 5 rows give `{}`; otherwise the only key is `cases_values[0][0]`, its tech name is `cases_values[2][1]`, and its groups are `ParsedCases(...)`; the slot loop terminates |
| Cases.ParsedGroupAt | case-config.py:48-93 | the slot at column `c` is filed under `group_{(c-3)/4+1}` exactly when it yields a group, and holds that group |
| Cases.ParsedGroupKeys | case-config.py:48-93 | every group name in the result is the name of a slot column inside row 1 |
| Examples.PercentSignRemoved | case-config.py:73 | `"42%"` reads as `"42"` |
| Examples.PercentSignTrailing | case-config.py:73 | `strip('%')` of `"42%"` is `"42"` |
| Examples.WhitespaceAroundSign | case-config.py:53 | `strip()` of `" 7 % "` is `"7 %"` |
| Examples.PercentSignKeptInsideWhitespace | case-config.py:53 | `" 7 % "` reads as `"7 %"`: a `%` with whitespace outside it is kept |
| Examples.GroupTwelve | case-config.py:52 | slot 12 is named `"group_12"` |
| Examples.FirstGroupNames | case-config.py:52 | the first two slots are named `"group_1"` and `"group_2"` |
| Examples.NarrowRowRegisters | case-config.py:101-103 | a six-cell data row with an empty column 5 satisfies the row precondition and registers its column-0 name with the stripped columns 2 and 3 |
| Examples.SkippedSlotKeepsNumber | case-config.py:59-64 | when slot 1 yields nothing and slot 2 yields a group, the result has `group_2` and no `group_1` |

## Left out

- `get_service` (`case-config.py:10-24`): the OAuth flow, token cache and file
  access belong to foreign libraries and I/O.
- `read_sheet` (`case-config.py:26-29`): a network call to the Sheets API.
  The grids are the model's inputs.
- `main` (`case-config.py:108-122`): the orchestration, JSON rendering and file
  write. The modelled calls compose as `ParseCases(CleanData(cases),
  ParseRewardsTable(CleanData(rewards)))`.
- The diagnostic `print` calls: console output only; they do not affect the
  result.
- Python's `int` and `float` grammars and IEEE floating point: the parsers are
  parameters, and chances are exact `real` quotients. Values such as `nan` or
  `inf` have no counterpart.
- Cells are strings. The Sheets API returns every cell as a string, and an
  empty cell inside a row arrives as `""`. Only trailing cells of a row can
  be absent: `clean_data` pads those, and `parse_cases` guards its reward
  reads against them. Non-string cells are not modelled.
- Cases.ParseCases: the source's `groups` dictionary keeps its keys in
  insertion order, which is slot order, and `json.dumps` prints them in that
  order. A Dafny `map` has no order, so the model does not capture the key
  order of `groups`.
- Sheet.CleanData: models `clean_data` on values. The source pads the
  caller's row lists in place, so rows shared with the caller's grid change
  too. That aliasing is not captured.
- Cases.ReadGroupRewards: the per-row `continue` chain is modelled as the
  function `RewardFromRow`, which yields the row's reward or nothing. The
  `try` around `int` and `float` is folded into "either parse fails".
- Python's `str.strip()` is modelled over the fixed set of characters for
  which `str.isspace()` holds (`Text.Whitespace`).
