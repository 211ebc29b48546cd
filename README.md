# Prefix registry and status pages of the PB bot, in Dafny

This project models the two pieces of the bot's informational cogs that hold
state or page semantics:

- **The per-guild prefix registry** (`cogs/BotInfo.py`, the `prefix` command
  group). `bot.prefixes` maps a guild id to an ordered list of prefixes.
  `prefix add`, `prefix remove` and `prefix clear` change that list in place
  after a chain of early-return guards. Each accepted change sends one UPDATE
  to the `prefixes` table.
  - Module `BotInfo` states each command as a pure step on one guild's list:
    `AddStep`, `RemoveStep` and `ClearStep`. A step gives the reply, the new
    list and the statements issued.
  - The class `BotInfo.PrefixRegistry` holds the map and a ghost log of the
    database statements. Its methods run the source's guards and are proved
    to do exactly what the step functions say.
  - The lemmas prove what the registry keeps over any sequence of commands:
    every list stays non-empty and duplicate-free, with at most 51 entries.
    Replaying the issued statements on the stored copy reproduces the
    in-memory list.
- **The Discord status page source** (`cogs/Info.py`,
  `DiscordStatusSource`). It is a fixed six-page source over the parsed
  `summary.json` and `history.json`.
  - Module `Info` defines `FormatPage`, a pure description of each page: title,
    description, fields and footer.
  - `RenderPage` builds the same embed field by field with the source's
    loops. It is proved equal to `FormatPage`.
  - `Info` also covers the animated/static emoji split of `serverinfo`.
- Module `Text` holds the Python string operations the pages use. These are
  `str(n)` (with its parse-back round trip), ASCII `str.title()` and a
  substring relation.
- Module `Wrappers` holds `Option`.

Points where the code's behaviour is easy to misread, and how the model
treats them:

- **Capacity.** The guard at `cogs/BotInfo.py:93` is `> 50`. So a 50-entry
  list accepts a 51st prefix, and lists reach 51 entries. The reply at
  `cogs/BotInfo.py:94` still says "50 prefixes". The model keeps the `> 50`
  guard.
- **No rollback.** Memory is changed before the database statement is sent,
  and nothing is undone if the statement fails. The model has no storage
  failures and no rollback.
- **Remove in memory and in the database.** `list.remove` drops the first
  occurrence of the prefix. The UPDATE's `array_remove` drops every
  occurrence. The two agree when the list has no duplicates
  (`BotInfo.RemoveAgreesWhenUnique`). The commands never create a duplicate,
  so the lists stay duplicate-free (`BotInfo.RunAllKeepsGoodList`).
- **No lazy seeding.** The commands index `bot.prefixes[ctx.guild.id]`
  directly. `prefix` (show) raises `KeyError` for a guild with no entry, so
  `Show` requires the guild to be in the map. `add` and `remove` test the
  prefix's length first (`cogs/BotInfo.py:89`, `:106`) and read the map only
  after that guard, so an over-long prefix gets the too-long reply even for a
  guild with no entry; only a prefix that passes the guard raises `KeyError`
  there. `Add` and `Remove` therefore require the guild to be in the map or
  the prefix to be over 100 characters, and for an unseeded guild they ensure
  the too-long reply with no change. The mutating methods also require the
  registry invariant `Valid()`: every list is non-empty, duplicate-free and at
  most 51 entries long. They preserve it. `clear` assigns the entry, so
  `Clear` does not require the guild to be in the map. Seeding new guilds
  happens outside these files.
- **No locking.** The code has no per-guild lock, so none is modelled.
- **Out-of-range pages.** `format_page` has no branch for page 6 or above, so
  `embed` is never bound there and the call raises. It also indexes
  `response["months"][page - 3]` without a check. `ValidPage` enforces both
  conditions as a precondition.
- **The page index.** `format_page` dispatches on `menu.current_page`, not on
  its `page` argument. With one entry per page the two are the same index,
  and the model takes that index as `page`.

## Model

| member | source | states |
|---|---|---|
| `BotInfo.AddStep` | cogs/BotInfo.py:89-95 | add is accepted exactly when the prefix has at most 100 characters, is not yet present and the list has at most 50 entries; an over-long prefix gets the too-long reply, a present one the already-a-prefix reply, a short new one on a list of more than 50 entries the at-capacity reply; acceptance appends the prefix at the end and issues one `Append`; any refusal leaves the list as it was and issues nothing |
| `BotInfo.RemoveStep` | cogs/BotInfo.py:106-113 | remove is accepted exactly when the prefix has at most 100 characters, is present and the list does not have exactly one entry; too-long, not-found and only-prefix replies for those three guards; acceptance removes the first occurrence (length drops by one) and issues one `ArrayRemove`; a refusal changes nothing and issues nothing |
| `BotInfo.ClearStep` | cogs/BotInfo.py:123-126 | clear is accepted exactly when confirmed; then the list becomes exactly `["pb"]` and one replace-all with `["pb"]` is issued; declined leaves the list and issues nothing |
| `BotInfo.Message` | cogs/BotInfo.py:90-127 | every reply but a declined clear sends a message, a declined clear none; each message about a given prefix quotes that prefix |
| `BotInfo.OneWritePerAcceptedCommand` | cogs/BotInfo.py:95-126 | for every command: exactly one database statement when accepted, none when refused, and a refused command leaves the list unchanged; `clear` is accepted exactly when confirmed, and then leaves exactly `["pb"]` and issues one replace-all with `["pb"]` |
| `BotInfo.RemoveFirst` | cogs/BotInfo.py:112 | `list.remove`: a list without the prefix is unchanged; otherwise the length drops by one and the multiset loses exactly one copy of the prefix |
| `BotInfo.RemoveFirstCutsFirstOccurrence` | cogs/BotInfo.py:112 | the removed element is precisely the first occurrence, and everything before and after it keeps its order |
| `BotInfo.RemoveAll` | cogs/BotInfo.py:113 | `array_remove`: the result holds every other element exactly as often as the list did and no copy of the prefix, so on a list with duplicates all copies go |
| `BotInfo.RemoveAgreesWhenUnique` | cogs/BotInfo.py:112-113 | on a duplicate-free list the in-memory removal equals the database's `array_remove`, the prefix is no longer present and the result is still duplicate-free |
| `BotInfo.UniqueSnoc` | cogs/BotInfo.py:91-95 | appending a prefix that the duplicate check let through keeps the list duplicate-free |
| `BotInfo.RunKeepsGoodList` | cogs/BotInfo.py:89-125 | one command on a non-empty, duplicate-free list of at most 51 entries leaves a list with all three properties (remove never empties a list; add never exceeds 51) |
| `BotInfo.RunAllKeepsGoodList` | cogs/BotInfo.py:89-125 | the same holds after any sequence of add/remove/clear commands |
| `BotInfo.DatabaseFollowsMemory` | cogs/BotInfo.py:95-126 | applying the statement a command issues to a stored copy equal to the duplicate-free in-memory list gives the new in-memory list |
| `BotInfo.ApplyWrite` | cogs/BotInfo.py:96-126 | the stored array after a statement: `array_append` adds the prefix at the end, `array_remove` drops every copy of it and keeps every other element's count, the clear statement replaces the array |
| `BotInfo.DatabaseFollowsMemoryThroughout` | cogs/BotInfo.py:95-126 | replaying every statement of any command sequence on the stored copy reproduces the in-memory list after that sequence |
| `BotInfo.PrefixRegistry.Show` | cogs/BotInfo.py:75-80 | outside a guild, the direct-message notice; with exactly one prefix, that prefix; otherwise the whole list |
| `BotInfo.PrefixRegistry.Add` | cogs/BotInfo.py:89-97 | for a guild in the map, the reply, the guild's new list and the appended log entries are those of `AddStep` on the old list; for a guild not in the map (reachable only with an over-long prefix) the too-long reply and no change to the map or the log; every other guild's list is untouched; the registry invariant (every list non-empty, duplicate-free, at most 51 entries) is kept |
| `BotInfo.PrefixRegistry.Remove` | cogs/BotInfo.py:106-114 | for a guild in the map, the reply, new list and log entries are those of `RemoveStep`; for a guild not in the map (reachable only with an over-long prefix) the too-long reply and no change; other guilds untouched; the registry invariant is kept |
| `BotInfo.PrefixRegistry.Clear` | cogs/BotInfo.py:123-127 | with the prompt's answer as input: confirmed sets the guild's list to exactly `["pb"]` (creating the entry if the guild had none) and logs one replace-all; declined changes neither the map nor the log; the reply agrees with `ClearStep`; the registry invariant is kept |
| `Info.ImportantOf` | cogs/Info.py:25 | keeps exactly the components whose name is in `important_components`, no more of them than there are components |
| `Info.OperationalOf` | cogs/Info.py:26 | keeps exactly the components whose status is `operational` |
| `Info.ImportantOfCounts` | cogs/Info.py:25 | each allow-listed component is kept exactly as often as it occurs in the summary, the others not at all |
| `Info.OperationalOfCounts` | cogs/Info.py:26 | each operational component is kept exactly as often as it occurs, the others not at all |
| `Info.GeneralPageCounts` | cogs/Info.py:25-30 | the operational count is at most the total; the total counts every allow-listed entry of the summary as often as it occurs, and the operational count every allow-listed operational entry, repeats included |
| `Info.FormatPage` | cogs/Info.py:18-55 | every page's footer is `Footer(page)`; page 0 has no fields and a description containing "operational/total" |
| `Info.FooterText` | cogs/Info.py:54 | the footer of page `p` is literally "Page {p+1}/6" |
| `Info.IncidentField` | cogs/Info.py:37 | an incident's field is named after the incident, is inline, and its value contains the message and the impact |
| `Info.IncidentFields` | cogs/Info.py:36-37 | one field per incident, in order |
| `Info.ComponentField` | cogs/Info.py:42-44 | a component's field is named after it, not inline; its value starts with the description, or with "No Description" when the description is null or empty, and contains the title-cased status |
| `Info.ComponentFields` | cogs/Info.py:40-44 | one field per allow-listed component, in summary order |
| `Info.CurrentIncidentsPage` | cogs/Info.py:31-37 | page 1: no current incidents gives the fixed "no issues" description and no fields; otherwise one field per incident, in order, each containing its message and impact |
| `Info.ComponentOverviewPage` | cogs/Info.py:38-44 | page 2: as many fields as page 0's total; each names its allow-listed component, in order, and shows its description or "No Description" |
| `Info.MonthPage` | cogs/Info.py:45-52 | pages 3 to 5 show month `page-3`: a month without incidents gives the fixed text and no fields; otherwise one field per incident, in order |
| `Info.AddIncidentFields` | cogs/Info.py:36-37 | the loop of `add_field` calls appends exactly the incidents' fields, in order |
| `Info.RenderPage` | cogs/Info.py:18-55 | building the embed branch by branch and field by field yields exactly `FormatPage` for that page |
| `Info.AsWrittenFailsOnIncident` | cogs/Info.py:33-37 | for every summary with a current incident, page 1 as written raises a NameError, while the repaired page has one field per incident, in order, named after it |
| `Info.AnimatedOf` | cogs/Info.py:80 | keeps exactly the animated emojis |
| `Info.StaticOf` | cogs/Info.py:81 | keeps exactly the non-animated emojis |
| `Info.EmojiSplitIsPartition` | cogs/Info.py:80-81 | the two lists together hold every emoji of the guild exactly as often as it occurs, so their lengths sum to the total |
| `Info.EmojiCountsOf` | cogs/Info.py:113-117 | Total is the number of the guild's emojis, Animated and Static the lengths of the two lists, and Static plus Animated equals Total |
| `Text.DecimalRoundTrip` | cogs/Info.py:30 | `str(n)`, as the f-strings render the counts, loses nothing: reading the digits back gives `n` |
| `Text.TitleIdempotent` | cogs/Info.py:29 | `str.title()` (ASCII) is idempotent |

## Left out

- The HTTP fetches of `summary.json` and `history.json` are network I/O. The model takes the parsed documents as the `StatusSource` bundle.
- The `menus.MenuPages` navigation loop (next/previous/stop, clamping, reaction cleanup) is library code that is not part of this model.
- `ListPageSource.get_max_pages` is library code. The page count is the constant 6 that `range(6)` with one entry per page gives.
- The database pool calls are modelled only as a ghost log of `Append`, `ArrayRemove` and `ReplaceAll` statements. Storage failures and the connection pool are not modelled.
- The `Confirm` prompt of `clear` is interactive I/O. Its answer is the boolean `confirmed`, with a timeout counted as false.
- The `guild_only` and `manage_guild` permission decorators are enforced by the framework. Calls from outside a guild reach only `Show`, through `guild == None`.
- Concurrency between commands is left out: the code has no locks, and commands are modelled one at a time.
- The `uptime`, `ping` and `botinfo` commands are left out. They format clocks, floating-point latencies and process statistics.
- `avatar` and the rest of `serverinfo` read platform objects and format text. Only the emoji split and its three counts are kept.
- The embed colour and `bot.utils.humanize_list` are rendering details. `Show` returns the list itself, not its humanized text.
- The reply texts of add, remove and clear are given verbatim by `BotInfo.Message`. The text of the plain `prefix` reply is not, because it depends on `humanize_list`.
- The Python list is shared and updated in place. In the model the map holds list values and the entry is replaced, so aliasing of the list object is not captured.
- Text.Title: `str.title()` is modelled for ASCII letters only. Other characters pass through unchanged and count as uncased, whereas Python applies Unicode case mappings.
- Years and counts are natural numbers, so `str` of a negative number is not modelled.

## Findings

| source | as written | input that shows it | evidently intended | confidence | as-written member | corrected member |
|---|---|---|---|---|---|---|
| cogs/Info.py:36 | the page-1 loop iterates `summary['incidents']`, a name not bound in `format_page` (nor in the module), so the page raises `NameError` whenever there is a current incident | a summary with one incident `{name: "A", message: "M", impact: "minor"}`, page 1 | iterate `self.summary['incidents']`, giving one field per current incident | high, not executed | `Info.AsWrittenFailsOnIncident` | `Info.CurrentIncidentsPage` |
