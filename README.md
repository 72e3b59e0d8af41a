# chronos: the party table and its commands, in Dafny

chronos is a Discord bot that converts times between the time zones of a
"party" of players. This project models its core: the party table kept by
the `Bot` object (`chronos/bot.py`) and the command layer that reads and
writes it, together with the two helpers of `chronos/utils.py`.

- **The table.** It maps a party name to a member map, and the member map
  takes a member id to a UTC offset in hours. Both levels are Python dicts,
  and the bot depends on their insertion order. `Dicts` models a dict as a
  sequence of key/value pairs with distinct keys. Assigning to a present key
  keeps its position and assigning to a new key appends it. `del` drops the
  pair, so a key that is deleted and assigned again moves to the end.
- **The handlers** (`Handlers`). `createparty`, `deleteparty`,
  `addtimezone`, `convert`, `convert-as`, `parties`, `help` and `hof` are
  functions from the table and the message to the new table and an
  `Outcome`. An `Outcome` is the reply the handler would send, or `Raised`
  when the handler raises.
  - `addtimezone` is modelled as written. Its removal loop rebinds
    `partyname`, so the member is added to the party that comes last in
    insertion order, not to the one named. The loop runs before
    `int(offset)`, so an invalid offset still removes the member from every
    party.
  - `convert` and `convert-as` raise once the party is found when the
    message did not come from a guild text channel (a direct message):
    they assert `isinstance(message.channel, TextChannel)` before
    `do_convert`. `Handlers.Message` carries that fact as `inTextChannel`.
  - `convert-as` is modelled as written. It splits with `maxsplit=1` and
    then unpacks the result into three names, so it always replies with its
    usage text.
- **The dispatcher** (`Dispatch`). `on_message` is a step function on the
  bot's state: the table, the load flag and the content of the storage
  message. It ignores bots and messages without the `c!` prefix. It loads
  the stored table at most once and matches the command token exactly.
  After any matched command it stores the table, even when the handler
  raised. `on_reaction_add` is a predicate: the emoji is named `nat20` and
  the count is exactly 4.
- **The stored snapshot** (`Parties`). Old snapshots may hold member keys
  that are strings. `load_parties` repairs them into integers with
  `del`/re-insert. The model gives that repair as a fold over the string
  keys, proves what it leaves under each integer key, and proves that
  reloading what `store_parties` wrote gives the table back.
- **Time** (`Clocks`, `Utils`). Times are whole minutes. A naive `datetime`
  counts minutes from 0001-01-01 00:00, which was a Monday. `utc(offset)`
  is a fixed offset of `offset` hours and exists only strictly between -24
  and 24 hours. What `strftime('%A at %H:%M')` shows is modelled as a
  weekday index (0 is Monday), an hour and a minute.
- **The `Bot` class** (`ChronosBot`). Its fields are `parties`,
  `_loaded_parties` and the storage message's content. Its methods run the
  loops of the source: the removal loop of `addtimezone`, the search loop
  of `_party_of` and the repair loop of `load_parties`. Each method is
  proved against the functions above. `OnMessage` is proved to do one
  `Dispatch.Step` and to keep the invariant that the table has been loaded
  at most once.

Outside inputs are parameters (`Handlers.Env`, and the channel flag of
`Handlers.Message`):
- what HumanTime parses a time expression to;
- whether `fetch_message` finds a message id;
- whether the Hall of Fame channel exists.

The files are `wrappers.dfy`, `dicts.dfy`, `text.dfy`, `clocks.dfy`,
`utils.dfy`, `parties.dfy`, `handlers.dfy`, `dispatch.dfy` and `bot.dfy`,
one module each. They are verified together.

## Operations

The functions that model the source's operations. Their properties are
stated by the lemmas and methods of the next section.

| function | models |
|---|---|
| `Dicts.Lookup`, `Dicts.Set`, `Dicts.Remove` | `d[k]`, `d[k] = v`, `del d[k]` |
| `Text.SplitWs`, `Text.SplitOnce` | `str.split()`, `str.split(" ", 1)` |
| `Text.ParseInt`, `Text.Strip` | `int(text)`, with the white space it strips |
| `Text.FormatOffset` | `{offset:+03}` (chronos/bot.py:215) |
| `Clocks.Attach`, `Clocks.LocalIn`, `Clocks.ClockAt` | `dt.replace(tzinfo=tz)`, `dt.astimezone(tz)`, `strftime('%A at %H:%M')` |
| `Utils.ById`, `Utils.Utc` | `by_id` and `utc` (chronos/utils.py:5-18) |
| `Parties.RemoveMember` | the removal loop of `addtimezone` (chronos/bot.py:176-181) |
| `Parties.FirstPartyIndex`, `Parties.PartyOf` | `_party_of` (chronos/bot.py:198-205) |
| `Parties.StrKeys`, `Parties.RepairStep`, `Parties.RepairKeys`, `Parties.RepairedParty`, `Parties.RepairTable` | the legacy key repair of `load_parties` (chronos/bot.py:59-65) |
| `Parties.LiftTable` | what `store_parties` writes (chronos/bot.py:79) |
| `Handlers.CreateParty`, `Handlers.DeleteParty` | `createparty`, `deleteparty` (chronos/bot.py:92-139) |
| `Handlers.AddTimezone`, `Handlers.AddMember`, `Handlers.AddToLast` | `addtimezone` (chronos/bot.py:141-196) |
| `Handlers.Lines`, `Handlers.Show`, `Handlers.ShowIn` | `do_convert` and the end of `convert` (chronos/bot.py:207-267) |
| `Handlers.Convert` | `convert` (chronos/bot.py:221-267) |
| `Handlers.ConvertAs`, `Handlers.ConvertAsFor` | `convert-as` (chronos/bot.py:269-315) |
| `Handlers.ListParties`, `Handlers.ShowHelp`, `Handlers.ManualHof` | `parties`, `help`, `hof` with `add_to_hof` (chronos/bot.py:317-409) |
| `Dispatch.Token`, `Dispatch.ParseCommand` | the token and the `COMMANDS` lookup (chronos/bot.py:411-443) |
| `Dispatch.Load`, `Dispatch.Handle`, `Dispatch.Step` | `on_message` (chronos/bot.py:422-450) |
| `Dispatch.Run` | messages handled one after another |
| `Dispatch.ReachesHof` | the trigger of `on_reaction_add` (chronos/bot.py:452-463) |

## Model

| member | source | states |
|---|---|---|
| Dicts.Lookup | chronos/bot.py:63 | `d[k]` is defined exactly when `k in d`, and then it is the value paired with `k` |
| Dicts.SetLookup | chronos/bot.py:110 | after `d[k] = v`, `d[k]` is `v`, every other key reads as before, and keys stay distinct |
| Dicts.RemoveLookup | chronos/bot.py:126 | after `del d[k]`, `k` is absent, every other key reads as before, the remaining pairs are exactly the old ones without `k`, and keys stay distinct |
| Text.SplitWsJoin | chronos/bot.py:148 | `split()` gives back the words that were joined by single spaces |
| Text.SplitOnce | chronos/bot.py:229 | `split(" ", 1)` gives one or two pieces; it gives two exactly when there is a space, the first piece holds no space, and the pieces rebuild the text |
| Text.StripParts | chronos/bot.py:166 | what `int()` strips is white space on both ends, and the kept middle has no white space at either end |
| Text.ParseDecimal | chronos/bot.py:166 | `int(str(n)) == n` for every natural `n` |
| Text.ParseRejects | chronos/bot.py:167 | `int()` raises on text holding a character that is not white space, a sign, an underscore or a digit |
| Text.FormatOffset | chronos/bot.py:215 | `{offset:+03}` renders a sign (`-` exactly for negative offsets) followed by at least two digits whose value is the magnitude |
| Text.ParseFormatOffset | chronos/bot.py:215 | the rendered `+hh` label reads back as the offset |
| Clocks.ClockAt | chronos/bot.py:216 | the shown weekday, hour and minute are in range and give the reading's position in its week |
| Clocks.ClockShift | chronos/bot.py:216 | moving a wall-clock reading by `d` minutes moves the shown clock by `d` around the week, across midnight and across the end of the week |
| Utils.ById | chronos/utils.py:16-18 | the result has the needle's id and no earlier item has it; there is no result exactly when no item has that id |
| Utils.Reexpress | chronos/utils.py:5-6 | a naive time taken in `utc(a)` and shown in `utc(b)` reads `b - a` hours later |
| Parties.RemoveMemberSpec | chronos/bot.py:176-181 | after the removal loop no party holds the member; names, order, the table's shape and every other member's offset are unchanged |
| Parties.FirstPartyIndex | chronos/bot.py:200-203 | the index found is the first party, in order, holding the user; there is none exactly when no party holds the user |
| Parties.PartyOf | chronos/bot.py:198-205 | `_party_of` returns the user's offset, the party's name and its member map for the first party holding the user, and raises exactly when no party holds the user |
| Parties.PartyOfUnique | chronos/bot.py:198-205 | with single membership the party returned is the one party holding the user |
| Parties.StrKeys | chronos/bot.py:62 | the collected keys are exactly the party's string keys |
| Parties.StrKeysDistinct | chronos/bot.py:62 | the collected string keys are pairwise distinct |
| Parties.RepairStepSpec | chronos/bot.py:63-65 | one round fails exactly when `int(key)` does; otherwise `int(key)` holds the string key's value, overwriting any existing int key, and every other integer key is unchanged |
| Parties.RepairStepStrKeys | chronos/bot.py:63-64 | one round drops its own string key and keeps the others |
| Parties.RepairKeysFails | chronos/bot.py:62-65 | the loop over the string keys fails exactly when some string key is not an integer |
| Parties.RepairKeysStrs | chronos/bot.py:62-65 | when the loop succeeds, keys stay distinct, visited string keys are gone and unvisited ones are unchanged |
| Parties.RepairKeysInts | chronos/bot.py:62-65 | when the loop succeeds, each integer key holds the value of the last string key reading as it, or its own value if there is none |
| Parties.RepairedPartySpec | chronos/bot.py:59-65 | a party's repair fails exactly when it has a non-integer string key; otherwise its keys are distinct and each integer maps to its repaired value |
| Parties.RepairLeavesNoStrKey | chronos/bot.py:59-65 | after a successful repair no string key is left, and the repaired member map is the whole repaired party |
| Parties.RepairTableSpec | chronos/bot.py:59-65 | the repair keeps party names and order and repairs each party on its own; it fails exactly when some party's repair fails |
| Parties.RepairTableValid | chronos/bot.py:59-65 | a snapshot with distinct names and distinct member keys repairs to a well-formed table |
| Parties.RepairTableLift | chronos/bot.py:55 | loading what `store_parties` wrote (line 79) gives the table back unchanged |
| Handlers.CreatePartySpec | chronos/bot.py:99-114 | a missing name raises and a present name changes nothing; a new name is appended with an empty member map and nothing else changes; both table invariants are kept |
| Handlers.DeletePartySpec | chronos/bot.py:123-139 | a missing argument raises and an absent name changes nothing; a present name is removed from its position with the rest kept in order |
| Handlers.DeletePartyPreserves | chronos/bot.py:123-126 | after `deleteparty` the name is absent, every remaining party was there before unchanged, and both invariants hold |
| Handlers.RemovePartySpec | chronos/bot.py:126 | `del self.parties[name]` keeps both invariants, removes the name and adds nothing |
| Handlers.RemovePartySingle | chronos/bot.py:126 | removing a party keeps every member in at most one party |
| Handlers.AddTimezoneRejects | chronos/bot.py:148-172 | a token count other than 3 or 4, an unknown party or a non-integer member id leave the table unchanged and reply |
| Handlers.AddTimezoneInvalidOffset | chronos/bot.py:176-188 | a non-integer offset still removes the member from every party and replies "Invalid offset" |
| Handlers.AddTimezoneAdds | chronos/bot.py:176-190 | on success the member is written into the last party in insertion order, and the reply names that party |
| Handlers.AddToLastShape | chronos/bot.py:176-184 | every party keeps its name and position and loses the member; the last party then gets the member appended with its offset |
| Handlers.MovedToEnd | chronos/bot.py:184 | the re-added member reads its new offset, every other member reads as before, and keys stay distinct |
| Handlers.AddToLastMembership | chronos/bot.py:176-184 | after a successful add the member is in exactly one party, the last one, with `int(offset)`; every other member keeps its offset in every party; the table stays well formed |
| Handlers.AddToLastSingle | chronos/bot.py:176-184 | a successful add keeps every member in at most one party |
| Handlers.AddTimezonePreserves | chronos/bot.py:141-196 | on every path `addtimezone` keeps the table well formed and keeps single membership |
| Handlers.RemoveMemberSingle | chronos/bot.py:176-181 | the removal loop alone keeps both invariants |
| Handlers.LinesSpec | chronos/bot.py:213-218 | one line per member in member order, holding the member, its offset and the time in its zone; no lines exactly when some offset is outside `utc`'s range |
| Handlers.ShowSpec | chronos/bot.py:262-263 | the conversion raises exactly when the sender's or some member's offset is out of range; otherwise line `i` shows the naive time moved by (member offset - sender offset) hours |
| Handlers.ShowPairShift | chronos/bot.py:216 | any two lines of one reply show clocks that differ, around the week, by the difference of the two members' offsets |
| Handlers.ConvertSpec | chronos/bot.py:228-267 | the usage reply comes exactly when the message has no space; for a parsed time, "not in any party" comes exactly when no party holds the sender; once the sender's first party is found, `convert` shows the time to that party (as `ShowSpec` states) from a text channel and raises from any other channel |
| Handlers.ConvertAsAlwaysUsage | chronos/bot.py:277 | `convert-as` always replies with its usage text, because no split with `maxsplit=1` unpacks into three names |
| Handlers.ManualHofSpec | chronos/bot.py:352-381 | a repost happens exactly for one integer argument naming a message that exists while the Hall of Fame channel exists; an unknown id gets "not found"; raising needs a missing channel |
| Dispatch.ParseCommandExact | chronos/bot.py:440-443 | a token selects a command exactly when it equals that command's key |
| Dispatch.ParseCommandName | chronos/bot.py:411-420 | every command's key selects that command |
| Dispatch.TokenSpec | chronos/bot.py:437-438 | for a prefixed message the token is the text between `c!` and the first space or the end |
| Dispatch.HandleReadOnly | chronos/bot.py:411-420 | only `createparty`, `deleteparty` and `addtimezone` can change the table |
| Dispatch.HandlePreserves | chronos/bot.py:443-446 | every handler keeps the table well formed and keeps single membership |
| Dispatch.StepIgnored | chronos/bot.py:423-427 | a message is ignored exactly when it comes from a bot, from the bot itself, or lacks the prefix; an ignored message loads nothing and changes nothing |
| Dispatch.StepLoad | chronos/bot.py:429-431 | the load runs exactly when the flag is unset and the message is not ignored; a load that completes sets the flag, and the flag is never cleared |
| Dispatch.StepStore | chronos/bot.py:440-450 | an unknown token stores nothing; a known command stores the table it leaves, even if its handler raised, and reloading that gives the same table |
| Dispatch.StepHandlesLoaded | chronos/bot.py:429-446 | a handled command ran on the loaded table: the repaired snapshot on first load, the current table afterwards |
| Dispatch.LoadFailedRepeats | chronos/bot.py:429-431 | a load that raises changes nothing and so fails again on the next command message |
| Dispatch.StepPreserves | chronos/bot.py:422-450 | once loaded, a step keeps the table well formed and keeps single membership |
| Dispatch.StepKeepsHealthy | chronos/bot.py:422-450 | every step, the one that loads included, keeps the table well formed with single membership, given that the snapshot a pending load would install is so too |
| Dispatch.RunKeepsHealthy | chronos/bot.py:422-450 | over any sequence of messages a healthy state stays healthy |
| Dispatch.LifetimeHealthy | chronos/bot.py:21-26 | a bot that starts with an empty table and a storage message that is absent, written by `store_parties` from a healthy table, or repairing to a healthy table (or not at all) holds a well-formed table with single membership after any sequence of messages |
| Dispatch.LoadsAtMostOnce | chronos/bot.py:429-431 | over any sequence of messages at most one load completes, none once the flag is set, and after one the flag is set |
| Dispatch.LoadedStaysLoaded | chronos/bot.py:429-431 | once set, the load flag stays set over any sequence of messages |
| Dispatch.RisingCountRepostsOnce | chronos/bot.py:459-463 | as reactions arrive one by one, the message is reposted once when the count reaches 4 with the `nat20` emoji, and never for another emoji |
| ChronosBot.RepairParty | chronos/bot.py:62-65 | the del/re-insert loop over one party's string keys computes the repaired party, or fails where `int(key)` raises |
| ChronosBot.RepairKey | chronos/bot.py:63-65 | one round of the loop (read, `del`, re-insert under `int(key)`) computes one repair step, or fails where `int(key)` raises |
| ChronosBot.RepairAll | chronos/bot.py:59-65 | the repair loop over every party computes the repaired table, or fails where some party's repair fails |
| ChronosBot.Bot.constructor | chronos/bot.py:21-26 | a new bot has an empty table, is not loaded, and sees the storage channel's current content |
| ChronosBot.Bot.LoadParties | chronos/bot.py:49-74 | the table becomes the repaired snapshot when there is one and is unchanged when there is none; a failed repair leaves the table unchanged |
| ChronosBot.Bot.StoreParties | chronos/bot.py:76-90 | the storage message holds the current table, created or edited; nothing else changes |
| ChronosBot.Bot.CreateParty | chronos/bot.py:92-114 | the new table and the reply are those of `createparty`, and nothing else changes |
| ChronosBot.Bot.DeleteParty | chronos/bot.py:116-139 | the new table and the reply are those of `deleteparty`, and nothing else changes |
| ChronosBot.Bot.AddTimezone | chronos/bot.py:141-196 | the new table and the reply are those of `addtimezone`, and nothing else changes |
| ChronosBot.Bot.AddMember | chronos/bot.py:176-196 | after the removal loop and the write into the rebound `partyname`, the table and the reply are those of `addtimezone` once its arguments are read |
| ChronosBot.Bot.RemoveFromAll | chronos/bot.py:176-181 | the loop deletes the member from every party and leaves `partyname` bound to the last party's name |
| ChronosBot.Bot.PartyOf | chronos/bot.py:198-205 | the search loop with its early return computes `_party_of` |
| ChronosBot.Bot.Convert | chronos/bot.py:221-267 | the reply is that of `convert`, with the sender's party found by the search loop and the text-channel assertion checked before the conversion |
| ChronosBot.Bot.Execute | chronos/bot.py:443-446 | running the selected handler changes the table and replies as that handler does, and nothing else changes |
| ChronosBot.Bot.OnMessage | chronos/bot.py:422-450 | one message moves the bot's state exactly as one dispatcher step does, with the same result, and keeps the invariant that the table has been loaded at most once |

## Left out

- Discord I/O is not modelled. This covers sending and editing messages,
  `fetch_message`, `get_user`, and looking up the guild and channels
  through environment variables. A reply is the value it would send, and a
  lookup's answer is an input (`Handlers.Env`).
- The storage message's history scan and cache (`_find_storage_message`)
  are not modelled. The storage content is a field, `None` when there is
  no message.
- `pickle` and base64 are foreign code. The stored form is the table with
  its member keys tagged as integers (`Parties.LiftTable`), and the legacy
  string keys are the only thing that can differ from it.
- `HumanTime.parseTime` is an input function from text to a naive time in
  minutes.
- The weekday and month names of `strftime` are not rendered. A shown time
  is a weekday index, an hour and a minute.
- `datetime`'s year range is not modelled, so an `OverflowError` near year
  1 or year 9999 is not modelled either. Minutes are unbounded integers.
- Embeds are not rendered. `parties`, `help` and the Hall of Fame repost
  are reduced to which reply is sent. The `embed` variable that the image
  loop of `add_to_hof` shadows is out of scope.
- Logging (structlog) and `async` scheduling are not modelled. Each
  handler runs to completion before the next message.
- `chronos/__main__.py` is not part of this model. It only wires the
  client.
- Dicts.Remove: `del` on an absent key raises `KeyError`. The source
  deletes only keys it has just checked. The model's `Remove` returns the
  dictionary unchanged instead.
- ChronosBot.Bot.LoadParties: when the repair raises partway, the source
  keeps the partly repaired snapshot in `self.parties`. The model keeps the
  previous table. No later step can tell the two apart: the flag stays
  unset, and the next command message reloads and fails the same way
  (`Dispatch.LoadFailedRepeats`).
- Text.ParseInt: `int()` is modelled for ASCII digits, a sign, surrounding
  white space and single underscores between digits. Other Unicode decimal
  digits are not modelled.
