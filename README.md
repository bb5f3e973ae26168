# kirbybot core in Dafny

kirbybot relays the posts of one Twitter account into Discord channels. Each
guild (Discord server) chooses one destination channel, and administrators
manage that choice with `!kb` chat commands. This project models and proves
two parts of the bot:

- the in-memory configuration store `MapRepo` (data.go), a table from guild ID
  to channel ID that is updated in place (`store.dfy`, module `Store`);
- the bot's decisions (bot.go), with Discord and Twitter abstracted away
  (`bot.dfy`, module `Bot`). These are: which tweets are relayed and with what
  text, which channels a relayed tweet is sent to, who counts as an
  administrator, and how a `!kb` command is answered and what it does to the
  store.

`text.dfy` (module `Text`) models the two Go string primitives the decisions
depend on. `strings.Fields` splits on exactly the characters `unicode.IsSpace`
accepts. `len` on a string counts UTF-8 bytes, so it is modelled as `Utf8Len`.
`wrappers.dfy` holds `Option` and the store's error type.

How the model is built:

- A Go map is a reference, so it is modelled as the class `Store.Table`.
  `MapRepo.channels` is one such object, fixed when the store is made.
  `GetKirbChannels` copies it entry by entry into a fresh `Table`. Frame
  reasoning then shows that writes into a snapshot never reach the store.
- The Discord session is an oracle. `Bot.Session` answers the member lookup and
  the guild-roles lookup, and a lookup fails when the key is absent.
- Messages the bot would send are returned as `Reply` values. Delivery attempts
  of a relayed tweet are returned as `Post` values.
- bot.go:132 and bot.go:206 use `repo.GetKirbChannels()` as if it returned
  only the map, but the interface at data.go:15 returns `(map, error)`. The
  `MapRepo` version never returns an error (data.go:48), so the model takes the
  map and drops the error.
- `main` leaves `repo` nil in bolt mode (bot.go:58-64). Only the `MapRepo` store
  is modelled.

Behaviour worth noting:

- The tweet filter (bot.go:123) does not test for quote tweets, so a quote
  tweet that is neither a retweet nor a reply is relayed.
- The `set-kirb-post` command ignores the store's error and always confirms
  (bot.go:192-193).

## Model

| member | source | states |
|---|---|---|
| `Store.MapRepo.constructor` | data.go:23-25 | `NewMapRepo` yields a store holding an empty table, in a freshly made map |
| `Store.MapRepo.SetKirbChannel` | data.go:27-32 | afterwards the guild maps to the channel; every other guild's entry is unchanged; the error is nil |
| `Store.MapRepo.RemoveKirbChannel` | data.go:34-39 | afterwards the guild is absent; every other guild's entry is unchanged; removing an absent guild leaves the table identical; the error is nil |
| `Store.MapRepo.GetKirbChannels` | data.go:41-49 | returns a freshly allocated map equal to the current table, built entry by entry, and a nil error; the method has no write access to the store, so the store is unchanged |
| `Store.EditSnapshot` | data.go:44-47 | a caller that writes into a snapshot changes only the snapshot; the store's table is unchanged |
| `Store.Table.Lookup` | bot.go:206 | comma-ok map lookup: `(v, true)` when the key is present with value v, else `("", false)` |
| `Store.Apply` | data.go:30-37 | one set or remove: the named guild then maps to the new channel (set) or is absent (remove), and every other guild keeps its entry |
| `Store.NetEffect` | data.go:27-39 | after any sequence of sets and removes applied in call order, each guild's entry is what the last mutation naming that guild decided, or its initial entry if none did |
| `Store.LastWriterWins` | data.go:30 | setting (g, c1) then (g, c2) leaves g mapped to c2 and the rest of the table as before |
| `Store.SetIdempotent` | data.go:30 | repeating the same set has the same effect as doing it once |
| `Store.RemoveAbsentIsNoop` | data.go:37-38 | removing a guild that is not configured leaves the table identical |
| `Text.WordEnd` | bot.go:176 | the longest prefix without white space: everything before it is non-space, and the character after it is white space |
| `Text.IsSpace` | bot.go:176 | the white space `strings.Fields` splits on; below 0x80 it is exactly tab, newline, vertical tab, form feed, carriage return and space |
| `Text.Fields` | bot.go:176 | `strings.Fields` yields only non-empty fields with no white space |
| `Text.FieldsOfWord` | bot.go:176 | a single word with no white space splits to exactly itself |
| `Text.FieldsAfterSpace` | bot.go:176 | leading white space contributes no field (with `FieldsOfWord`, `FieldsAppend` and `FieldsEmptyIff` this fixes the fields of every text: its maximal non-space runs, in order) |
| `Text.FieldsEmptyIff` | bot.go:176-179 | a message has no fields if and only if it consists of white space only |
| `Text.FieldsAppend` | bot.go:176 | joining two texts at a white-space boundary yields the fields of the first followed by the fields of the second |
| `Text.RuneLen` | bot.go:127 | a character takes one to four bytes in UTF-8, and exactly one when it is ASCII |
| `Text.Utf8Len` | bot.go:127 | Go's `len`: the byte length of a string lies between its character count and four times that |
| `Text.Utf8LenAppend` | bot.go:127 | the byte length of a concatenation is the sum of the byte lengths |
| `Text.Utf8LenAscii` | bot.go:127 | on ASCII text the byte length equals the character count |
| `Bot.QuoteTweetsPass` | bot.go:123 | the tweet filter ignores the quoted tweet: a quote tweet is accepted exactly when the same tweet without a quote is, so an original, non-reply quote tweet is relayed |
| `Bot.DisplayText` | bot.go:126-129 | the relayed text is `Text` or `FullText`; its byte length is the larger of the two; `Text` is kept unless `FullText` is strictly longer |
| `Bot.DoKirbPost` | bot.go:122-140 | a retweet, a tweet with a retweeted status, or a reply produces no post; an accepted tweet produces exactly one post per configured guild, to that guild's channel, carrying the display text |
| `Bot.IsAdmin` | bot.go:251-273 | true if and only if the member lookup and the roles lookup both succeed and some guild role whose ID the member holds has the Administrator bit set |
| `Bot.Invocation` | bot.go:173-185 | a message invokes a subcommand exactly when its author is not a bot and its first field is `!kb`; the subcommand is the second field, is a single word, and is `help` for a bare `!kb` |
| `Bot.OnMessage` | bot.go:172-221 | bot authors, messages without fields and messages not starting with `!kb` get no reply and leave the store unchanged; guarded commands from non-admins get only the permission reply and leave the store unchanged; an admin's set maps the guild to the current channel and remove deletes it, each with its confirmation; check leaves the store unchanged and names the channel or says none is set; help sends the help menu; any other subcommand gets the fixed "I dunno" reply and leaves the store unchanged |
| `Bot.BareKbIsHelp` | bot.go:181-184 | a bare `!kb` invokes the same subcommand as `!kb help` typed in the same message, and that subcommand is `help` |
| `Bot.OnlyPrefixIsHandled` | bot.go:176-181 | a message of white space only, or one whose first field is not exactly `!kb`, invokes nothing |

## Left out

- Locking: the `sync.RWMutex` in `MapRepo` is not modelled. Each store method is treated as one atomic step.
- `PostgresRepo` (data.go:51-104) is not modelled. Its behaviour is SQL run by a database server.
- The bolt store is not modelled. In bolt mode `main` never assigns `repo`.
- `main` (bot.go:35-85) is not modelled. It covers environment lookup, flags, session start-up and signal handling, all process wiring and I/O.
- `listenToKirby` (bot.go:87-120) is not modelled. It covers OAuth, the Twitter stream and the endless reconnect loop, all network I/O.
- Bot.DoKirbPost: records the delivery attempts but not their outcome. Left out are the goroutines, the wait-group join and the fallback that messages the guild owner when a send fails. These are concurrency and Discord calls.
- `postHelp` (bot.go:223-249) is not modelled beyond recording a `HelpMenu` reply. Its content is a static embed.
- `onReady` is not modelled. It only logs.
- Logging is not modelled, nor are the errors of the `ChannelMessageSend` calls in `onMessage`, which the code ignores.
- Bot.IsAdmin: a failed lookup is modelled as a missing key in the session oracle. Transient network failure and successful lookup are not told apart in time.
- Text.Fields: works on Unicode scalar values. Go's handling of invalid UTF-8 is not modelled, because Discord message content arrives as valid UTF-8.
