# Keva, verified

A Dafny model of the data path of the Keva key-value server: request bytes become commands, commands
change a database of two incrementally rehashed hash tables, the database is saved to and restored from
a checksummed snapshot file. `dafny verify dfyconfig.toml` checks everything.

## How it is built

Code that updates state is modelled by classes and methods on the same fields, arrays and cursors, with the
same loops: `DictImpl.Dict`, `DatabaseImpl.Database`, `BufferImpl.Buffer`, `ConnectionImpl.Connection`,
`RdbImpl.RdbWriter` and `RdbImpl.RdbReader`, the handlers in `Handlers`, the parser in `RespParser` and the
dispatch loop in `Dispatch`. Each method is proved to compute a function on values (`DictSpec`, `StoreSpec`,
`Commands`, `Resp`, `RdbSpec`); what the program promises is then proved about those functions.

| files | subject |
|---|---|
| `Common`, `Pow2`, `Decimal` | bytes and machine integers, powers of two, decimal text |
| `DictTable`, `DictSpec`, `Dict` | the dictionary: tables, state machine, class |
| `DictMap`, `DictScan`, `DictRehash`, `LoadFactor` | it is one map; enumeration and sampling; duration and load of migrations; the float tests |
| `Buffer`, `Objects` | byte buffers and value encodings |
| `StoreSpec`, `Database` | the database as two maps; the class over two dictionaries |
| `Commands`, `Registry`, `Handlers`, `Glob` | commands, their names and arities, the handlers, `KEYS` patterns |
| `CommandMeaning`, `CommandReads`, `SetWords`, `CommandLaws`, `ExpiryLaws` | what each command replies and what later reads see, the options of `SET`, what every command keeps, expiry over whole runs |
| `Resp`, `RespCodec`, `RespParser`, `Stream` | RESP2 parser and encoder, messages from a stream |
| `Connection`, `Serve`, `Dispatch`, `Replies`, `Wire` | connection buffers, serving messages, the pipeline loop and the life of a connection, replies as clients parse them, requests and replies byte by byte |
| `Crc64`, `RdbFormat`, `RdbSpec`, `RdbLaws`, `RdbRestore`, `RdbDamage`, `RdbImpl` | snapshots |

The hash is an arbitrary function from keys to 64-bit numbers, so every statement holds for every hash and
every seed. The clock, random numbers, what the sockets deliver and take, and how much the disk takes and delivers
are parameters; how the system cuts a read or a write in pieces is arbitrary. All lemmas switch off Dafny's automatic induction: every induction is
written out.

## Main results

* **One map.** In every run of `set`, `get`, `del`, `rehash_step` and `clear`, with migrations in any state,
  the two tables answer exactly like one map (`FreshRunRefines`), nothing is visited twice or missed
  (`ForEachListsContents`), a migration ends within `min(u + n/10 + 1, n)` calls (`NewMigrationEnds`), and
  an expansion always ends before its table is full (`RunKeepsRoom`, `NoShrinkKeepsLoad`). The load tests are
  those of the program, in single precision; `ExpandTestIs` and `ShrinkTestIs` say what they mean. No operation
  moves a migration by more than eleven buckets (`OpBound`).
* **Commands.** Every command of the table is pinned by what it replies and what a later read shows, for every
  store, clock and argument (`CommandMeaning`, `CommandReads`). `SET` is read from its words: any series of
  options in any case, read in exactly one way (`OneReading`), stores, refuses or fails as the words say, and the
  last `EX` or `PX` counts (`SetMeaning`, `SetTimed`). A request reaches a command exactly if its first word names it
  and the number of arguments fits (`RequestMeaning`).
* **Expiry as clients see it.** Over whole runs with lazy deletion, sampling and rehashing in the background,
  every reply is that of a store from which keys vanish the moment they expire, except where `DEL`, `TTL`,
  `PTTL`, `DBSIZE` or `INFO` meets a key that has expired and is still stored (`LazyIsEager`, an if-and-only-if
  for each reply; `RunsAgree` for whole runs). Such states are reachable (`LeftoverSeenByDel` and neighbours).
  The expiry cycle deletes exactly what it samples and finds expired, runs on exactly behind worthwhile rounds, and
  clears up to twenty deadlines completely if no migration hides some of them (`ActiveExpireCycle`).
* **Streaming.** Re-parsing a growing buffer is safe (`CompleteIsLocal`, `ErrorIsStable`,
  `PrefixIsIncomplete`); encode-then-parse is exact if and only if no line-based string contains a line end
  (`RoundTrip`). A whole connection, reads, dispatching and writes, computes the session of its chunks, and the
  client gets exactly as many of the bytes as the socket takes (`ServeConnection`). The cutting into chunks never changes the database or the unconsumed bytes, and it
  changes the reply bytes exactly when a chunk arrives after a malformed one (`SessionIsChunkFree`). A client
  reads one reply per message if and only if no message echoes a line end (`ReplyPerMessage`).
* **Snapshots.** A completed save restores exactly what was live, with deadlines never early and late by at
  most the duration of the save; an interrupted save is never accepted (`SaveIsAllOrNothing`,
  `SavedFileRestores`, and `RestoresExactlyShort` for the limit of 2^32 bytes). Run one after the other, save and
  load succeed exactly if the disk takes and delivers the whole file (`SaveAndReload`). Two accepted files cannot differ
  within eight consecutive bytes only, the stored checksum included (`DamageDetected`).

## Where the code differs from its documentation

The model follows the code.

* `create_string` stores `007` and `-0` as integers, so they read back as `7` and `0` (`Objects.ReadBack`,
  `Objects.SpellingLost`).
* `RespEncoder::error` always writes the prefix `ERR `. A line end inside a simple string or error is sent as it
  is (`RespCodec.LineBroken`), so an unknown command name with one yields several replies
  (`Replies.SplitReply`). Numbers after `:`, `$` and `*` may be followed by
  garbage up to the line end, which is ignored.
* After a protocol error the connection stays open and the malformed bytes stay in the buffer, so the server
  complains again for every further chunk (`Serve.ComplainsTwice`).
* `PTTL` answers 0, not -2, for an expired key that is still stored; `DEL`, `DBSIZE` and `INFO` count such a key
  (`ExpiryLaws.LeftoverSeenByPTtl`, `LeftoverSeenByDel`,
  `LeftoverSeenByDbSize`, `LeftoverSeenByInfo`).
* `DECRBY` has no overflow test (`CommandMeaning.SubtractIsUnguarded`). Signed overflow is undefined in C++; the
  model wraps around, as compiled code does.
* String lengths of 2^32 and more are truncated in the file (`RdbFormat.StringFound`, `RdbFormat.LengthLost`).
* Load factors are compared in single precision. From 2^24 buckets on a table may hold more entries than
  buckets before it expands (`LoadFactor.ExpandTestIs`, `ExpandTestRounds`), and from 2^29 buckets on one tenth
  is not exactly one tenth (`ShrinkTestIs`, `ShrinkTestRounds`).
* A readable event without data closes the connection (`Dispatch.OnReadable`), and `Buffer::resize(0)` on a
  buffer that never allocated writes through a null pointer (`BufferImpl.Buffer.Resize`).
* The tag bits of string lengths are `00`, `10` and `11`, not those of documentation.md:1033-1037.
* A key expires at `now >= deadline`, not after it, and the expiry cycle goes on at 25% expired samples, not
  above (documentation.md:942-944).
* The loader keeps keys whose deadline has passed (documentation.md:1059 says that it drops them). By
  `StoreSpec.CanonEquiv` clients cannot tell, except through `DEL`, `TTL`, `PTTL`, `DBSIZE` and `INFO`.

## Model

| member | source | states |
|---|---|---|
| Pow2.BitCeilIsLeast | src/core/dict.cpp:220 | `bit_ceil` is the least power of two that is large enough |
| Pow2.MaskIsMod | src/core/dict.cpp:201 | for power-of-two sizes, masking a hash with `size - 1` is reduction modulo `size` |
| DictTable.PrependOk | src/core/dict.cpp:332-337 | a prepended new entry adds exactly its key to the table's meaning, keeps every entry in its own bucket and the counter equal to the chain lengths |
| DictTable.OverwriteOk | src/core/dict.cpp:312-330 | replacing a value changes that key only, for every bucket layout |
| DictTable.UnlinkOk | src/core/dict.cpp:378-408 | unlinking removes exactly that key |
| DictTable.DropHeadOk | src/core/dict.cpp:274-286 | taking the head off the migrating chain removes exactly its key from the first table |
| DictSpec.CursorInside | src/core/dict.cpp:262-268 | while the first table holds an entry, a non-empty bucket lies at or after the cursor: the skip loop cannot run off the table |
| DictSpec.ShapeMigrate | src/core/dict.cpp:271-288 | migrating a bucket moves all of it, keeps the total count and the emptiness of everything below the cursor |
| DictMap.ContentsIsLookup | src/core/dict.cpp:346-368 | the abstract map of a half-migrated dictionary is what lookups return |
| DictMap.MigrateBucketOk | src/core/dict.cpp:271-288 | between the steps of a migration no lookup changes and no key is in both tables |
| DictMap.RehashStepOk | src/core/dict.cpp:256-300 | a rehash step changes no lookup and reports completion exactly when no migration is left |
| DictMap.StoreOk | src/core/dict.cpp:305-341 | `set` binds its key, changes no other, and reports exactly whether the key was new |
| DictMap.EraseOk | src/core/dict.cpp:373-410 | `del` unbinds its key, changes no other, and reports exactly whether it was there |
| DictMap.PokeContents | src/core/db.cpp:128-136 | writing through a pointer returned by `get` is an update of that key of the map |
| DictMap.StepRefines | src/core/dict.cpp:159-410 | every operation keeps the invariant, and changes and answers like the operation on one map |
| DictMap.RunRefines | src/core/dict.cpp:159-410 | so does every run, from every reachable state, for every hash function |
| DictMap.FreshRunRefines | src/core/dict.cpp:128-135 | every run from a new dictionary answers like a run on the empty map |
| DictScan.ForEachListsContents | src/core/dict.cpp:422-434 | `for_each` visits every key of the map exactly once with its value, also in mid-migration, and `used` adds up to the number of keys |
| DictScan.SampleIsPrefix | src/core/dict.cpp:454-465 | the wrapping sampling loop takes the head of the entries listed from the random bucket on |
| DictScan.SampleOk | src/core/dict.cpp:439-466 | a sample has at most `count` entries, all different, all in the dictionary; outside of a migration exactly `count`, or all there are |
| DictScan.SampleAll | src/core/dict.cpp:439-466 | outside of a migration a sample that is large enough lists the whole dictionary |
| DictRehash.StepCost | src/core/dict.cpp:256-300 | a call of `rehash_step` completes the migration or lowers both work measures, without changing the sizes or the total |
| DictRehash.StepBound | src/core/dict.cpp:256-300 | a call empties at most `steps` buckets and passes over at most ten times as many |
| DictRehash.OpBound | src/core/dict.cpp:305-410 | no single `set`, `get` or `del` moves the cursor of a migration by more than eleven buckets |
| DictRehash.MigrationEnds | src/core/dict.cpp:256-300 | whatever operations interleave, the migration completes before either measure is used up |
| DictRehash.NewMigrationEnds | src/core/dict.cpp:256-300 | from `u` entries in `n` buckets it completes within `u + n/10 + 1` and within `n` calls |
| DictRehash.StepKeepsRoom | src/core/dict.cpp:213-243 | every operation keeps `used0 + used1 + (size0 - rehashidx) <= size1` during expansions, and otherwise `used <= size + size / 2^24` unless it starts a shrink |
| DictRehash.RunKeepsRoom | src/core/dict.cpp:213-341 | in every run the room inequality holds throughout every expansion |
| DictRehash.RoomMeansLoad | src/core/dict.cpp:213-226 | the inequality means that the new table's load stays below 1 until the expansion completes |
| DictRehash.NoShrinkKeepsLoad | src/core/dict.cpp:213-341 | in runs where no shrink starts, with the single-precision tests and for all sizes, no table ever exceeds `size + size / 2^24` entries, which is `size` below 2^24 buckets |
| LoadFactor.ExpandTestIs | src/core/dict.cpp:213-251 | for every number of entries and every size, the single-precision test expands exactly when `used > size + size / 2^24` |
| LoadFactor.ExpandTestRounds | src/core/dict.cpp:217-218 | at 2^24 buckets one entry more than buckets is not seen as a load above 1 |
| LoadFactor.ExpandExactWhen | src/core/dict.cpp:217-218 | rounding never decides about expansion if and only if there are fewer than 2^24 buckets |
| LoadFactor.ShrinkTestIs | src/core/dict.cpp:231-251 | for every number of entries and every size, the single-precision test with `0.1f` in integers |
| LoadFactor.ShrinkExactWhen | src/core/dict.cpp:235-236 | rounding never decides about shrinking if and only if there are at most 2^28 buckets |
| LoadFactor.ShrinkTestRounds | src/core/dict.cpp:235-236 | an input with 2^29 buckets on which rounding decides |
| DictRehash.DecisionsAre | src/core/dict.cpp:213-243 | when a dictionary starts to expand and to shrink, in integers, for all sizes |
| DictRehash.NewSizes | src/core/dict.cpp:213-243 | the new table is a power of two with room for two to four times the entries when it grows, and for the entries up to twice as many, but at least 4, when it shrinks |
| DictRehash.DelShrinks | src/core/dict.cpp:231-243 | a `del` that removes something never leaves a sparse table behind without starting to shrink it |
| DictImpl.Dict.constructor | src/core/dict.cpp:128-135 | a new dictionary is the fresh state and the empty map |
| DictImpl.Dict.Clear | src/core/dict.cpp:159-179 | `clear` leaves the fresh state and the empty map |
| DictImpl.Dict.MigrateChain | src/core/dict.cpp:271-288 | the in-place chain loop computes the migration of one bucket |
| DictImpl.Dict.SkipEmpty | src/core/dict.cpp:263-268 | the skip loop stays inside the bucket array and stops at the first non-empty bucket or when its budget runs out |
| DictImpl.Dict.RehashStep | src/core/dict.cpp:256-300 | the loops on the arrays compute the step of the state machine, and the map is unchanged |
| DictImpl.Dict.MaybeExpand | src/core/dict.cpp:213-226 | starts an expansion exactly at single-precision load above 1 |
| DictImpl.Dict.MaybeShrink | src/core/dict.cpp:231-243 | starts a shrink exactly at single-precision load below one tenth and above four buckets |
| DictImpl.Dict.FindIn | src/core/dict.cpp:199-208 | walks one chain and finds the entry's position if and only if it is there |
| DictImpl.Dict.Set | src/core/dict.cpp:305-341 | new map and new-flag, and the exact new state of both tables |
| DictImpl.Dict.Get | src/core/dict.cpp:346-358 | the mapped value, with one migration step that does not change the map |
| DictImpl.Dict.Peek | src/core/dict.cpp:360-368 | the const lookup returns the mapped value |
| DictImpl.Dict.Del | src/core/dict.cpp:373-410 | new map and existed-flag, and the exact new state of both tables |
| DictImpl.Dict.ForEach | src/core/dict.cpp:422-434 | the visited sequence lists the map |
| DictImpl.Dict.RandomSample | src/core/dict.cpp:439-466 | distinct entries of the map, at most `count` |
| BufferImpl.Buffer.Grow | src/core/buffer.cpp:109-124 | contents kept, capacity suffices, and growth is charged as in `Charge` |
| BufferImpl.Buffer.Append | src/core/buffer.cpp:129-143 | contents are extended by exactly the given bytes; the sentinel stays |
| BufferImpl.Buffer.Resize | src/core/buffer.cpp:148-155 | contents truncated or zero-filled, except that the sentinel goes through the null pointer exactly when a buffer that never allocated is resized to zero |
| BufferImpl.Buffer.Reserve | src/core/buffer.cpp:160-162 | contents kept, capacity at least what was asked for |
| BufferImpl.Buffer.Assign | src/core/buffer.cpp:68-79 | the buffer becomes a copy of the other, which may be the buffer itself |
| BufferImpl.Buffer.Clear | src/core/buffer.cpp:167-170 | empty, capacity kept |
| BufferImpl.Buffer.Equals | src/core/buffer.cpp:175-183 | true exactly for equal contents |
| BufferImpl.RunCost | src/core/buffer.cpp:109-162 | over any run, all bytes ever copied are at most the capacity, which is 0 or a power of two from 16 on and below twice the peak demand |
| Decimal.PrintThenParse | src/core/object.cpp:115-146 | printing a 64-bit integer and parsing it back is the identity, stopping right behind the digits |
| Decimal.PrintedLength | src/core/buffer.cpp:188-193 | no 64-bit integer prints longer than the 20 bytes that `try_parse_int` looks at |
| Decimal.ParseThenPrint | src/core/object.cpp:74-110 | an integer spelling prints back as itself if and only if it is canonical |
| Objects.ReadBack | src/core/object.cpp:74-139 | a string reads back unchanged if and only if it is not an integer in unusual spelling |
| Objects.SpellingLost | src/core/object.cpp:78 | `007` and `-0` read back as `7` and `0` |
| Objects.Restore | src/core/object.cpp:74-146 | storing what was read rebuilds the same object with the same encoding |
| StoreSpec.CanonLater | src/core/db.cpp:65-69 | with a clock that moves forward, forgetting expired keys early or late is the same |
| StoreSpec.FetchCanon | src/core/db.cpp:74-98 | `get` and `peek` agree with the map restricted to live keys, and lazy deletion does not change that map |
| StoreSpec.PttlPromise | src/core/db.cpp:148-155 | the remaining time is as promised exactly unless an expired key is still stored, when it is 0 |
| StoreSpec.CanonEquiv | src/persistence/rdb_load.cpp:174-183 | a store is indistinguishable from itself without expired keys |
| StoreSpec.SweepEquiv | src/core/db.cpp:160-196 | deleting any expired keys is invisible |
| StoreSpec.SweepCount | src/core/db.cpp:160-196 | it removes exactly as many keys as it reports |
| DatabaseImpl.Database.constructor | src/core/db.cpp:48-52 | a new database is empty |
| DatabaseImpl.Database.DeleteKey | src/core/db.cpp:57-60 | value and deadline go together, with one `del` on each dictionary |
| DatabaseImpl.Database.IsExpired | src/core/db.cpp:65-69 | exactly the keys whose deadline is not in the future |
| DatabaseImpl.Database.Get | src/core/db.cpp:74-87 | the live value, deleting an expired key, whatever migrations are in progress; a read that deletes nothing is one `get` on the key dictionary |
| DatabaseImpl.Database.PeekAt | src/core/db.cpp:92-98 | the live value, the contents unchanged, with one `get` on the key dictionary |
| DatabaseImpl.Database.Set | src/core/db.cpp:103-107 | binds the value and drops the deadline, with one `set` and one `del` on the dictionaries |
| DatabaseImpl.Database.Del | src/core/db.cpp:112-116 | removes the key and reports whether it was stored, expired or not |
| DatabaseImpl.Database.Exists | src/core/db.cpp:121-123 | true exactly for live keys |
| DatabaseImpl.Database.Expire | src/core/db.cpp:128-136 | the deadline is set, also when it overwrites one through the returned pointer |
| DatabaseImpl.Database.Persist | src/core/db.cpp:141-143 | the deadline is gone and the key dictionary is not touched |
| DatabaseImpl.Database.RemainingMs | src/core/db.cpp:148-155 | remaining time, -1 or -2; the key dictionary is not touched |
| DatabaseImpl.Database.RehashStep | src/core/db.cpp:211-214 | both dictionaries migrate a hundred buckets, and no content changes |
| DatabaseImpl.Database.ForEach | src/core/db.cpp:219-228 | every live key exactly once, and no other |
| DatabaseImpl.Database.Flush | src/core/db.cpp:233-238 | empty |
| DatabaseImpl.Database.ExpireRound | src/core/db.cpp:166-192 | the round deletes exactly the sampled keys with `now >= deadline`, and reports the sizes of the sample and of that set |
| DatabaseImpl.Database.ActiveExpireCycle | src/core/db.cpp:160-196 | a first round exactly if there are deadlines, a further one exactly while fewer than three have run and the last one was worthwhile (`n != 0`, `deleted * 4 >= n`); each round samples what the earlier ones left and deletes what has expired in the sample; the result is the number deleted; with at most 20 deadlines and no migration of them no expired key remains and the result is the number there were |
| Glob.GlobMatch | src/command/handlers/key_cmd.cpp:52-66 | the recursive matcher with its backtracking loop decides `Matches` |
| Glob.MatchesIsFits | src/command/handlers/key_cmd.cpp:52-66 | it accepts a string if and only if the string can be cut into pieces, one per pattern byte, any piece for `*` and one byte for `?` |
| Registry.FindIs | src/command/command.cpp:66-72 | exactly the registered names are found, each letter in either case |
| Registry.ArityIs | src/command/command.cpp:133-138 | the numbers of arguments accepted are those registered, name by name |
| CommandLaws.ExecSane | src/command/handlers/string_cmd.cpp:81-460 | every command keeps `dom(expires_)` within `dom(keys_)` and every object as a constructor builds it |
| CommandLaws.ExecEquiv | src/command/handlers/string_cmd.cpp:81-460 | on stores that differ in expired leftovers only, every command leaves such stores again, and all but `DEL`, `TTL`, `PTTL`, `DBSIZE` and `INFO` reply alike |
| SetWords.OneReading | src/command/handlers/string_cmd.cpp:91-115 | every series of option words is read as options in exactly one way: `EX` and `PX` together with the next word, if there is one |
| SetWords.ParseReads | src/command/handlers/string_cmd.cpp:87-115 | the option loop reads its words as exactly these options: number errors, `NX`, `XX`, the last time, skipped words |
| SetWords.SetMeaning | src/command/handlers/string_cmd.cpp:81-130 | `SET` with any option words in either case: the error without a change if some `EX` or `PX` has no positive number; nil without a visible change if `NX` meets a key that is shown or `XX` one that is not; otherwise the value is read until the time of the last `EX` or `PX` has passed, for good without one, and all other keys are as before; other words do nothing |
| SetWords.SetThenGet | src/command/handlers/string_cmd.cpp:81-156 | behind an accepted `SET` every later `GET` replies the stored text until then, and nil from then on |
| SetWords.SetForms | src/command/handlers/string_cmd.cpp:113-119 | `SET`, `SET … NX` and `SET … xx` on every store: what is replied and what `GET` replies afterwards |
| SetWords.SetTimed | src/command/handlers/string_cmd.cpp:97-126 | `EX n`, `px n`, and both, for every positive `n`: the value is there for `1000 n` or `n` milliseconds, and the last option counts |
| CommandReads.GetMeaning | src/command/handlers/string_cmd.cpp:135-157 | `GET` replies the text of the stored object if the key has no passed deadline and nil otherwise, and changes nothing visible |
| CommandReads.StrLenMeaning | src/command/handlers/string_cmd.cpp:271-291 | `STRLEN` replies the length of what `GET` shows, 0 where nothing is shown |
| CommandReads.TypeMeaning | src/command/handlers/key_cmd.cpp:93-104 | `TYPE` replies `string` or `none` |
| CommandReads.TtlMeaning | src/command/handlers/key_cmd.cpp:157-169 | `PTTL` replies the milliseconds to the deadline and `TTL` the whole seconds, 0 at the least, -1 without a deadline, -2 without the key |
| CommandReads.SizeMeaning | src/command/handlers/key_cmd.cpp:232-234 | `DBSIZE` replies the number of stored keys; `FLUSHDB` leaves none |
| CommandReads.EchoMeaning | src/command/handlers/server_cmd.cpp:55-69 | `PING` and `ECHO` reply `PONG` or their operand and change nothing |
| CommandReads.SaveMeaning | src/command/handlers/server_cmd.cpp:132-172 | `SAVE` and `BGSAVE` report the failure if there is one; `QUIT` replies `OK` |
| CommandReads.SelectMeaning | src/command/handlers/server_cmd.cpp:177-186 | there is one database, number 0 |
| CommandReads.InfoMeaning | src/command/handlers/server_cmd.cpp:82-127 | `INFO` ends in the number of stored keys |
| CommandMeaning.SetExMeaning | src/command/handlers/string_cmd.cpp:408-443 | `SETEX`, `PSETEX`: the error without a change, or the value exactly until that many seconds or milliseconds from now |
| CommandMeaning.GetSetMeaning | src/command/handlers/string_cmd.cpp:162-189 | replies what was shown before; every later read sees the new value |
| CommandMeaning.SetNxMeaning | src/command/handlers/string_cmd.cpp:448-460 | binds the key for good exactly if nothing is shown for it |
| CommandMeaning.AppendMeaning | src/command/handlers/string_cmd.cpp:232-266 | every later read sees what was shown before with the operand behind it, and the reply is its length |
| CommandMeaning.MSetMeaning | src/command/handlers/string_cmd.cpp:194-205 | every named key is bound to its last pair without a deadline, all others are untouched; a missing operand changes nothing |
| CommandMeaning.MGetMeaning | src/command/handlers/string_cmd.cpp:210-227 | the live value of each key in order, nil where there is none, and nothing visible changes |
| CommandMeaning.ExistsMeaning | src/command/handlers/key_cmd.cpp:82-88 | the number of arguments that name a live key, and nothing visible changes |
| CommandMeaning.DelMeaning | src/command/handlers/key_cmd.cpp:71-77 | exactly the named keys go with their deadlines, and the count is that of the distinct stored ones |
| CommandMeaning.ExpireMeaning | src/command/handlers/key_cmd.cpp:109-152 | `EXPIRE`, `PEXPIRE`, `EXPIREAT`: a key that is shown keeps its value exactly until `now + 1000 n`, `now + n` or `1000 n` |
| CommandMeaning.PersistMeaning | src/command/handlers/key_cmd.cpp:174-179 | a live key keeps its value for good |
| CommandMeaning.RenameMeaning | src/command/handlers/key_cmd.cpp:203-227 | the very same object under the new name for good, the old name gone, all others untouched |
| CommandMeaning.KeysIsExact | src/command/handlers/key_cmd.cpp:184-198 | `KEYS p` lists each live key fitting `p` exactly once and nothing else |
| CommandMeaning.AddIsGuarded | src/command/handlers/string_cmd.cpp:308-378 | `INCR`, `INCRBY`, `DECR` bind the key to the exact sum of the number shown for it (0 where nothing is shown) and the step, or refuse without a visible change exactly where a number is missing or the sum leaves the 64-bit range |
| CommandMeaning.SubtractIsUnguarded | src/command/handlers/string_cmd.cpp:383-403 | `DECRBY` is exact if and only if the difference fits 64 bits, and off by 2^64 otherwise |
| CommandMeaning.SubtractWraps | src/command/handlers/string_cmd.cpp:400 | a concrete input on which `DECRBY` wraps and `DECR` refuses |
| ExpiryLaws.DelPromise | src/command/handlers/key_cmd.cpp:71-77 | `DEL` counts as promised if and only if none of its keys is an expired leftover |
| ExpiryLaws.RemainingPromise | src/command/handlers/key_cmd.cpp:157-169 | `TTL` and `PTTL` answer as promised if and only if the key is not an expired leftover |
| ExpiryLaws.DbSizePromise | src/command/handlers/key_cmd.cpp:232-234 | `DBSIZE` counts the visible keys if and only if there is no expired leftover |
| ExpiryLaws.InfoPromise | src/command/handlers/server_cmd.cpp:124 | `INFO` reports the visible keys if and only if there is no expired leftover |
| ExpiryLaws.PromiseKept | src/command/command.cpp:140-142 | every command replies as on the store without expired keys if and only if it meets no expired leftover of a key it speaks about |
| ExpiryLaws.LeftoverSeenByDel | src/core/db.cpp:112-116 | after `SET k v PX 1`, `DEL k` counts the expired key one millisecond later |
| ExpiryLaws.LeftoverSeenByPTtl | src/core/db.cpp:148-155 | in the same state `PTTL k` replies 0 instead of -2 |
| ExpiryLaws.LeftoverSeenByDbSize | src/command/handlers/key_cmd.cpp:232-234 | in the same state `DBSIZE` replies 1 instead of 0 |
| ExpiryLaws.LeftoverSeenByInfo | src/command/handlers/server_cmd.cpp:124 | in the same state `INFO` reports one key instead of none |
| ExpiryLaws.LazyIsEager | src/core/db.cpp:74-196 | over whole runs of all commands with background sweeps, each transparent command replies as if keys vanished the moment they expire, and each other one exactly when it meets no leftover |
| ExpiryLaws.RunsAgree | src/core/db.cpp:74-196 | whole runs give the same replies as that ideal if and only if no request meets a leftover |
| Handlers.HandleSet | src/command/handlers/string_cmd.cpp:81-130 | options, `NX`/`XX` test, value and deadline, against the function whose meaning is `SetWords.SetMeaning` |
| Handlers.SetArguments | src/command/handlers/string_cmd.cpp:87-115 | the option loop computes the options that `SetWords.ParseReads` reads from the words |
| Handlers.HandleMSet | src/command/handlers/string_cmd.cpp:194-205 | the loop stores pair by pair what `MSetMeaning` describes, or reports the missing operand |
| Handlers.HandleMGet | src/command/handlers/string_cmd.cpp:210-227 | the loop collects the replies that `MGetMeaning` describes |
| Handlers.HandleAppend | src/command/handlers/string_cmd.cpp:232-266 | the text read before plus the argument, re-encoded; its length is the reply |
| Handlers.HandleGetSet | src/command/handlers/string_cmd.cpp:162-189 | replies with the previous live value and replaces it |
| Handlers.HandleIncr | src/command/handlers/string_cmd.cpp:308-326 | the test for the largest integer is the overflow test of `INCRBY` with 1 |
| Handlers.HandleDecr | src/command/handlers/string_cmd.cpp:363-378 | the test for the smallest integer is the overflow test of `INCRBY` with -1 |
| Handlers.HandleIncrBy | src/command/handlers/string_cmd.cpp:331-358 | sum or overflow error |
| Handlers.HandleDecrBy | src/command/handlers/string_cmd.cpp:383-403 | difference without overflow test |
| Handlers.HandleSetEx | src/command/handlers/string_cmd.cpp:408-443 | `SETEX` and `PSETEX`: value and deadline, or the error without a change |
| Handlers.HandleSetNx | src/command/handlers/string_cmd.cpp:448-460 | stores only where no live value is |
| Handlers.HandleDel | src/command/handlers/key_cmd.cpp:71-77 | the loop deletes and counts as `DelMeaning` describes |
| Handlers.HandleExists | src/command/handlers/key_cmd.cpp:82-88 | the loop counts as `ExistsMeaning` describes |
| Handlers.HandleExpire | src/command/handlers/key_cmd.cpp:109-152 | `EXPIRE`, `PEXPIRE`, `EXPIREAT` |
| Handlers.HandlePersist | src/command/handlers/key_cmd.cpp:174-179 | removes the deadline of a live key |
| Handlers.HandleKeys | src/command/handlers/key_cmd.cpp:184-198 | the matching live keys in the order of the key dictionary |
| Handlers.HandleRename | src/command/handlers/key_cmd.cpp:203-227 | copies the value to the new name, without its deadline |
| Handlers.ExecuteServer | src/command/handlers/server_cmd.cpp:55-194 | `PING`, `ECHO`, `FLUSHDB`, `SELECT`, `QUIT`, `INFO`, `SAVE` and `BGSAVE` reply and leave the database as they should |
| Handlers.Execute | src/command/command.cpp:140-142 | every handler computes its command's function on the database's contents; what the functions reply and leave is said by `CommandMeaning`, `CommandReads` and `SetWords` |
| Resp.CompleteIsLocal | src/protocol/resp_parser.cpp:42-212 | a complete parse depends only on the bytes it consumes |
| Resp.ErrorIsStable | src/protocol/resp_parser.cpp:42-212 | an error stays an error whatever bytes follow |
| Resp.PrefixIsIncomplete | src/protocol/resp_parser.cpp:42-212 | every proper prefix of a complete message is incomplete |
| RespParser.FindLineEnd | src/protocol/resp_parser.cpp:42-49 | the scanning loop finds the first line end |
| RespParser.ParseArrayAt | src/protocol/resp_parser.cpp:145-180 | the element loop with its early returns |
| RespParser.ParseValueAt | src/protocol/resp_parser.cpp:185-202 | the recursive descent with a moving position |
| RespParser.ParseMessage | src/protocol/resp_parser.cpp:207-212 | `Complete` consumes at least one and at most all bytes, other outcomes consume none |
| RespCodec.RoundTrip | src/protocol/resp_encoder.cpp:29-138 | parsing an encoded value followed by anything gives the value back, errors prefixed by `ERR `, and consumes exactly the encoding, if and only if no line-based string inside contains a line end |
| RespCodec.LineBroken | src/protocol/resp_encoder.cpp:46-50 | a simple string with a line end is read as its first half |
| Stream.ExtractAppend | src/command/command.cpp:77-113 | extracting early and continuing with the leftover is extracting from everything |
| Stream.ErrorStays | src/command/command.cpp:94-98 | after a protocol error nothing more is extracted, whatever arrives |
| Stream.ChunkingInvisible | src/command/command.cpp:77-113 | the values extracted, the bytes left over and the error do not depend on how the stream is cut |
| Stream.PipelineExtracted | src/command/command.cpp:77-113 | a pipeline of encoded messages is extracted exactly as sent |
| ConnectionImpl.Connection.CompactReadBuffer | src/net/connection.cpp:173-182 | unconsumed bytes are kept |
| ConnectionImpl.Connection.FillReadBuffer | src/net/connection.cpp:53-99 | appends exactly the bytes that arrive, reports their number, the end of input or an error, and at most half of the buffer is consumed waste |
| ConnectionImpl.Connection.Consume | src/net/connection.cpp:143-149 | drops exactly the consumed bytes, clamped |
| ConnectionImpl.Connection.FlushWriteBuffer | src/net/connection.cpp:104-129 | the client gets the waiting bytes in order, as many as the socket takes before its first refusal; the rest waits; the connection closes exactly if the socket fails while bytes wait |
| ConnectionImpl.EncodeTo | src/protocol/resp_encoder.cpp:114-138 | the recursive encoder appends exactly the encoding |
| Serve.ServeConcat | src/command/command.cpp:77-152 | serving two series of messages is serving one after the other |
| Serve.ServeAllSane | src/command/command.cpp:77-152 | at every message boundary deadlines belong to stored keys |
| Serve.SessionMeaning | src/command/command.cpp:77-152 | a session serves the messages of the whole stream and complains once for every chunk from the first malformed one on |
| Serve.SessionIsChunkFree | src/net/tcp_server.cpp:165-205 | database and unconsumed bytes never depend on the cutting into chunks, the reply bytes exactly when a chunk arrives after a malformed one |
| Serve.ComplainsTwice | src/command/command.cpp:94-98 | two malformed bytes bring one error reply together and two one by one |
| Dispatch.ServeMessage | src/command/command.cpp:101-142 | shape checks, lookup, arity check and handler for one message |
| Dispatch.ServeNext | src/command/command.cpp:82-151 | one turn of the loop: wait, protocol error, or consume exactly one message and append its reply |
| Dispatch.Run | src/command/command.cpp:77-152 | the loop terminates and serves exactly the complete messages, leaving the rest of the bytes and one complaint if they are malformed |
| Dispatch.OnReadable | src/net/tcp_server.cpp:165-205 | one readable event: read, dispatch, flush; sent and waiting bytes grow by exactly the replies, as many are sent as the socket takes, and the connection closes exactly without data or if the socket fails while bytes wait |
| Dispatch.ServeConnection | src/net/tcp_server.cpp:165-205 | over all events of a connection, the database, the bytes for the client and the unconsumed bytes are those of the session of the arrived chunks, the number sent follows from what the socket takes after each chunk, all of them if it takes everything, and only a delivery without data or a failing socket ends the connection |
| Wire.RequestMeaning | src/command/command.cpp:104-142 | a request reaches a command exactly if it is an array whose first word names it and whose length it accepts; every other message gets the error that says why |
| Wire.QuitMeaning | src/command/handlers/server_cmd.cpp:191-194 | exactly the request `QUIT` without operands, in either case, makes the connection write-only |
| Wire.RequestReceived | src/protocol/resp_parser.cpp:98-180 | a request written as an array of bulk strings is received exactly, whatever follows |
| Wire.LineSent | src/protocol/resp_encoder.cpp:46-77 | simple strings, errors and numbers as bytes |
| Wire.BulkSent | src/protocol/resp_encoder.cpp:81-95 | bulk strings and nil as bytes |
| Wire.LineRead | src/protocol/resp_parser.cpp:68-96 | what every `+`, `-` and `:` line is read as |
| Wire.PayloadRead | src/protocol/resp_parser.cpp:100-141 | a bulk string is as many bytes as announced with a line end behind them, and refused without it |
| Wire.NoLength | src/protocol/resp_parser.cpp:100-160 | a length below -1 or none is refused, and -1 means nil |
| Wire.OtherRefused | src/protocol/resp_parser.cpp:185-202 | no input is incomplete, and a message begins with one of five bytes or is refused |
| Wire.ComplaintSent | src/command/command.cpp:94-98 | bytes that are no message bring one fixed error line |
| Wire.TextSent | src/protocol/resp_encoder.cpp:55-59 | texts of the program go out character by character |
| Wire.PingAnswered | src/command/handlers/server_cmd.cpp:55-62 | `PING` in either case brings the bytes `+PONG` and a line end |
| Wire.PingEchoed | src/command/handlers/server_cmd.cpp:55-62 | with an operand it brings the operand as a bulk string |
| Wire.Conversation | src/command/command.cpp:77-152 | on every database, the bytes of `SET key value` and `get key` bring `+OK` and the value, byte by byte |
| Replies.ReplyClean | src/protocol/resp_encoder.cpp:55-59 | a reply contains no line end in a line-based string if and only if the message is no unknown command name with one |
| Replies.ReplyPerMessage | src/command/command.cpp:77-152 | a client that parses the reply bytes gets exactly one value per message, in order, with nothing left over, if and only if no message echoes a line end |
| Replies.OneReply | src/command/command.cpp:124-129 | one reply is read back as one value if and only if the message does not echo a line end |
| Replies.SplitReply | src/command/command.cpp:124-129 | a concrete command name that makes the client read two replies |
| Crc64.TableStep | src/persistence/rdb_save.cpp:85-93 | one table lookup equals eight bitwise polynomial steps |
| Crc64.InitTable | src/persistence/rdb_save.cpp:72-83 | the nested loops fill the table with eight steps of every byte |
| Crc64.KnownShift | src/persistence/rdb_save.cpp:72-83 | the table entry of 128 is the polynomial |
| Crc64.UpdateByTable | src/persistence/rdb_save.cpp:85-93 | the update loop computes the bitwise definition |
| Crc64.UpdateSplits | src/persistence/rdb_load.cpp:50-58 | the sum does not depend on how the input is split across updates |
| Crc64.KnownSum | src/persistence/rdb_save.cpp:85-93 | the sums of the empty input and of one byte 255, which fixes the complements |
| Crc64.WindowDetected | src/persistence/rdb_save.cpp:72-93 | inputs of equal length that differ only within eight consecutive bytes have different sums |
| RdbFormat.SignedRoundTrip | src/persistence/rdb_save.cpp:127 | a signed 64-bit number survives the file |
| RdbFormat.NumberForm | src/persistence/rdb_save.cpp:124-127 | numbers of two, four and eight bytes go out with the least significant byte first |
| RdbFormat.LengthFound | src/persistence/rdb_save.cpp:129-146 | every length is read back, from 16384 on modulo 2^32 |
| RdbFormat.StringFound | src/persistence/rdb_load.cpp:83-104 | a written string is read back if and only if it is shorter than 2^32 |
| RdbFormat.LengthLost | src/persistence/rdb_save.cpp:140-143 | a string of 2^32 bytes is read back as the empty string |
| RdbLaws.LengthExamples | src/persistence/rdb_save.cpp:129-146 | the three forms of a length as bytes |
| RdbLaws.RecordExample | src/persistence/rdb_save.cpp:183-197 | the bytes of a key and its value |
| RdbLaws.DeadlineExample | src/persistence/rdb_save.cpp:169-185 | the bytes of a deadline, which precede the record |
| RdbLaws.FrameExample | src/persistence/rdb_save.cpp:219-236 | the bytes before the records of database 0 and behind them |
| RdbLaws.RecordFound | src/persistence/rdb_load.cpp:155-188 | a written record is read as one insertion, with its deadline |
| RdbLaws.FileLoads | src/persistence/rdb_load.cpp:120-201 | a saved file is accepted, read to its last byte and inserts exactly its records |
| RdbLaws.LoadLocal | src/persistence/rdb_load.cpp:60-115 | a successful load depends only on the bytes it consumes |
| RdbLaws.LoadRefuses | src/persistence/rdb_load.cpp:133-148 | a file cut in front of its version, with another mark or a newer version is refused with its own status and nothing stored |
| RdbLaws.UnknownSkipped | src/persistence/rdb_load.cpp:150-189 | opcodes that the loader does not know are skipped anywhere between records, and the file loads as without them |
| RdbLaws.CutRejected | src/persistence/rdb_load.cpp:60-76 | an accepted file that ends, or fails to be read, before the last byte consumed is not accepted |
| RdbLaws.PrefixRejected | src/persistence/rdb_load.cpp:60-115 | no strict prefix of a saved file is accepted |
| RdbLaws.LoadSane | src/persistence/rdb_load.cpp:120-201 | whatever the file contains, deadlines stay with stored keys |
| RdbLaws.LoadShort | src/persistence/rdb_load.cpp:83-104 | whatever the file contains, only keys and values shorter than 2^32 are stored |
| RdbLaws.LoadChecksSum | src/persistence/rdb_load.cpp:106-115 | a load succeeds only if the stored sum is the sum of all bytes consumed before it |
| RdbDamage.SealedRegister | src/persistence/rdb_save.cpp:85-93 | contents followed by their checksum always leave the register in the same state |
| RdbDamage.DamageDetected | src/persistence/rdb_load.cpp:106-115 | two accepted files of one length cannot differ within eight consecutive bytes only, wherever these lie, the stored sum included |
| RdbDamage.SavedFileDamaged | src/persistence/rdb_load.cpp:106-115 | a saved file with such damage is not accepted to its last byte |
| RdbRestore.StampDrift | src/persistence/rdb_save.cpp:169-181 | a saved deadline is never earlier than the real one, later by at most the elapsed time, and never the mark -1 |
| RdbRestore.SavedFileRestores | src/persistence/rdb_save.cpp:159-253 | loading a saved file into an empty database restores exactly the live keys with content, encoding and deadline up to the duration of the save |
| RdbRestore.RestoresExactlyShort | src/persistence/rdb_save.cpp:129-146 | the restoration succeeds if and only if every live key and value is shorter than 2^32 |
| RdbRestore.StillClockRestores | src/persistence/rdb_load.cpp:120-201 | with a fixed clock the deadlines are restored exactly |
| RdbImpl.RdbWriter.WriteBytes | src/persistence/rdb_save.cpp:106-122 | however the writes are cut, all bytes go out if the disk has room for them, and otherwise exactly as many as it has room for; the running sum is the sum of what went out |
| RdbImpl.RdbWriter.WriteString | src/persistence/rdb_save.cpp:129-146 | length prefix and bytes |
| RdbImpl.RdbWriter.WriteCrc64 | src/persistence/rdb_save.cpp:148-154 | the sum of everything written before, unsummed, as far as the disk and the one call take it; an error unless that is all of it |
| RdbImpl.SaveEntries | src/persistence/rdb_save.cpp:166-200 | one record per visited key, in order, with the remaining time and the clock read for each |
| RdbImpl.SaveDatabase | src/persistence/rdb_save.cpp:159-203 | selector and one record per live key, in the order of a dictionary that may be in mid-migration; the database is unchanged |
| RdbImpl.SaveSync | src/persistence/rdb_save.cpp:208-241 | the temporary file is the snapshot cut to what the disk takes, and the save fails exactly if that is not all of it |
| RdbImpl.SaveIsAllOrNothing | src/persistence/rdb_save.cpp:208-241 | the loader accepts the snapshot cut anywhere if and only if nothing is cut off, and then restores what was live |
| RdbImpl.RdbReader.ReadBytes | src/persistence/rdb_load.cpp:60-76 | however the reads are cut, the next bytes, or an error at the end of the file or at the first read error, with the running sum kept |
| RdbImpl.RdbReader.ReadString | src/persistence/rdb_load.cpp:83-104 | the three length forms and their errors |
| RdbImpl.RdbReader.VerifyCrc64 | src/persistence/rdb_load.cpp:106-115 | the comparison of the stored sum with the running one; an error exactly if they differ, the file ends early, or the one read delivers fewer than eight bytes |
| RdbImpl.LoadInto | src/persistence/rdb_load.cpp:120-201 | the opcode loop leaves the status and the database that `RdbSpec.Load` defines, also when it fails half-way; a file that `Load` accepts fails exactly if the last read delivers only a part of the stored sum |
| RdbImpl.SaveAndReload | src/persistence/rdb_load.cpp:120-201 | a save succeeds exactly if the disk takes the whole file, loading it into an empty database succeeds exactly if the save did and the stored sum arrives whole, and then exactly what was live is back |

## Left out

- Sockets, `epoll`, accepting connections, signals and timers: a read appends a chunk, a write accepts a prefix.
- Several connections: messages of one connection are served in order, the interleaving with others is not modelled.
- `fork`, `rename`, `waitpid`, dirty counters and save points: the file is a sequence of bytes.
- SipHash and its seed: the hash is an arbitrary function that does not change while a dictionary is in use.
- Memory layout, reference counts and freeing: bucket chains are immutable lists, so aliasing of entries is not modelled.
- The LRU clock and eviction (`evict_if_needed` is a stub).
- Several clock readings within one command: a command sees one time. A save reads the clock again for every key.
- Deadlines are unbounded integers: `seconds * 1000 + now` does not overflow in the model, and the save is stated for deadlines that stay in range.
- The conversion of argument counts to `int`, sizes of 2^63 and more, failure of allocations.
- Buffer moves, which only exchange pointers.
- Handlers.ExecuteServer: the statistics of `INFO` and the outcomes of `SAVE` and `BGSAVE` are parameters; the save itself is `RdbImpl.SaveSync`.
- ExpiryLaws.LazyIsEager: the if-and-only-if speaks of counts below 2^63.
- RespCodec.RoundTrip: for strings and arrays whose length is below 2^63.
- Replies.ReplyPerMessage: for replies whose lengths are below 2^63.
- RdbRestore.SavedFileRestores: for a clock that is not negative, because -1 marks a missing deadline, and strings shorter than 2^32, which `RestoresExactlyShort` shows to be necessary.
- RdbImpl.SaveAndReload: under the same conditions; opening, closing and renaming the file always succeed.
