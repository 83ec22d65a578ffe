# linkmonitoring: decode, classify and collect core

`main.py` polls access routers over SNMP and writes subscriber sessions to PostgreSQL.
This project models the part between those two pieces of I/O, and proves properties
about it:

- **Redback username decoding** (`redbackLoginDecode`). After the enterprise prefix,
  the walked OID tag carries a length `j` and then sub-identifiers, each read as one
  character by `chr(int(c))`. For ASCII usernames this is the string index of
  section 7.7 of RFC 2578. That index writes one sub-identifier per octet, so a
  non-ASCII name sent as UTF-8 octets decodes to one character per octet.
- **Redback line and realm** (`redbackVlanFind` and the realm expression). The line
  lookup returns `0` (`Unclassified`) for an L2TP LNS payload. Otherwise it returns
  the text before `:` in the fifth blank-separated token. The realm is labels 1..2
  of `user.split('@')[1]`, the text between the first `@` and the next one (or the
  end), so `a@x@b.c.d` has the empty realm.
- **Cisco reply parsing** (`ciscoTotalSub`, `ciscoSNMPGet`). The subscriber count is
  read first, then that many `getnext` replies of (port, domain, username).
- **Realm classifier** (`loginClassify`). It returns the vlan of the first type
  entry whose realm matches exactly, or `None`.
- **Collection**. The host loop appends row tuples to `connected_logins`. `main`
  then builds `link_logins` (12-character line-group keys) and `short_logins`
  (usernames), and removes exact-duplicate tuples for the upsert. The "down" check
  (line 286) and the "link up" check (line 290) are modelled as predicates. The code
  discards their results and changes no state.

Python exceptions become the `Fault` values `IndexError`, `ValueError`,
`AttributeError` and `OverflowError`. The last is raised in username decoding when
`chr` gets a number that does not fit a C `int`, or `split` gets a declared length
that does not fit `Py_ssize_t`. A 64-bit build is assumed, so that bound is
2^63 - 1. The Redback loop has no handler, so the first malformed entry ends the
walk, and with it the run of `main`. The Cisco loop catches `IndexError`,
`ValueError` and `AttributeError` and skips the reply.

Files: `results.dfy` (Option, Fault, Result), `pystr.dfy` (the Python string
built-ins used: `split`, `split()`, `join`, `int()`, slicing), `subscribers.dfy`
(row tuples and subtypes), `classify.dfy`, `redback.dfy`, `cisco.dfy`,
`reconcile.dfy` (line keys, username set, upsert batch, the two checks), and
`collect.dfy`. The last holds two classes. `Config` is the configuration dictionary,
whose `nbSub` map `ciscoTotalSub` writes. `Round` holds the module-level
`connected_logins`, `link_logins` and `short_logins`.

Router replies, the configuration and the round timestamp `now` are inputs. A host's
`Answers` carry the walked tags and payloads, the walked count, and `next(i)`, the
reply to the `i`-th `getnext` call.

Behaviour of `main.py` worth knowing:

- The Redback loop has no exception handler, so one malformed entry aborts the rest
  of the walk and the run.
- A realm that matches no type entry is stored as `None` (`NoType`).
- The upsert batch removes only exact duplicate tuples, so two different tuples for
  one username both stay.
- The checks at lines 286 and 290 compute a result that is never used, so no down or
  link transition is written.
- A Redback subtype is the line text, a string.

## Model

| member | source | states |
|---|---|---|
| `PyStr.SplitMax` | main.py:90-93 | `str.split(sep, maxsplit)`: at least one piece, and at most `maxsplit + 1` when limited |
| `PyStr.JoinSplit` | main.py:90-93 | joining the pieces of a split with its separator gives the input back, for every input and limit |
| `PyStr.ParseShowInt` | main.py:92 | `int(str(n)) == n` for every integer, so decimal fields read back as the number written |
| `PyStr.ParseInt` | main.py:92 | `int()` succeeds only on text ending in a digit, and gives a negative number only for text starting with `-` |
| `PyStr.Tokens` | main.py:109 | every token of `str.split()` is a non-empty run of non-blank characters |
| `PyStr.TokensOfJoin` | main.py:109 | `str.split()` of blank-free words joined by spaces returns exactly those words |
| `PyStr.TokensSkipsBlank` | main.py:109 | a leading blank of any kind is skipped, so a run of blanks separates like one |
| `PyStr.TokensOfWordThen` | main.py:109 | a word followed by a blank is the first token, and the rest is split after it |
| `PyStr.TokensOfWord` | main.py:109 | a word at the end is the last token, so trailing blanks add none |
| `Redback.RedbackLoginDecode` | main.py:83-97 | yields exactly the username `DecodeLogin` specifies, or its fault |
| `Redback.LoginFields` | main.py:90-93 | cutting the tag raises only IndexError, ValueError or OverflowError |
| `Redback.FieldsOfTag` | main.py:90-93 | for `prefix + lengthText + "." + body`: ValueError for a non-integer length, OverflowError for one outside `Py_ssize_t`, else the first `j` fields of `body` split at `.` |
| `Redback.FieldsOfOidTag` | main.py:90-93 | a decimal length `j` over a digits-and-dots body gives the first `j` fields of the body, or OverflowError when `j` exceeds 2^63 - 1 |
| `Redback.CodeChar` | main.py:96 | a decoded character's code is the field's integer; OverflowError exactly for an integer outside the C `int` range; no fault other than ValueError or OverflowError |
| `Redback.CodeCharOfShow` | main.py:96 | the decimal code of a character decodes back to that character |
| `Redback.CodeCharOverflow` | main.py:96 | a code past 2^31 - 1 raises OverflowError |
| `Redback.CodeCharPastUnicode` | main.py:96 | a code from 0x110000 up to 2^31 - 1 raises ValueError |
| `Redback.FieldsToLogin` | main.py:94-96 | a successful decode has one character per field; its faults are ValueError or OverflowError |
| `Redback.DecodeLogin` | main.py:90-97 | a decoded login has one character per field cut from the tag; decoding never raises AttributeError |
| `Redback.DecodeFields` | main.py:94-97 | the loop that concatenates `chr(int(c))` over the fields yields exactly what `FieldsToLogin` specifies |
| `Redback.FieldsToLoginSpec` | main.py:94-96 | succeeds iff every field is a character code; then the login has one character per field, each the field's character; otherwise the fault is that of the first field that is not (ValueError or OverflowError) |
| `Redback.DecodeEncodeLogin` | main.py:90-97 | decoding prefix + length + `.` + dot-joined code points returns the original username, for every username a Python string can hold |
| `Redback.DecodeDeclaredLength` | main.py:92-93 | a declared length at least the number of code points present, and within `Py_ssize_t`, decodes all of them: fewer components give a shorter login, not an error |
| `Redback.OctetsDecodeAsCharacters` | main.py:90-96 | the UTF-8 octets `195.169` of `é` decode to the two characters `Ã©`: each sub-identifier is one character, not one octet |
| `Redback.DecodeIgnoresExtraFields` | main.py:93 | sub-identifiers after the first `j` are ignored |
| `Redback.DecodeZeroLength` | main.py:92-93 | `j = 0` decodes to the empty login whatever follows |
| `Redback.DecodeEmptyFields` | main.py:93-96 | a positive `j` within `Py_ssize_t` with nothing after the dot raises ValueError (the empty remainder is one non-integer field) |
| `Redback.DecodedLengthAtMost` | main.py:93 | a decoded login is never longer than the declared length |
| `Redback.DecodeHugeLength` | main.py:92-93 | a declared length past 2^63 - 1 raises OverflowError |
| `Redback.DecodeWithoutPrefix` | main.py:90-91 | a tag without the enterprise prefix raises IndexError |
| `Redback.DecodeWithoutDot` | main.py:91-93 | a length field with no `.` after it raises IndexError |
| `Redback.DecodeBadLength` | main.py:92 | a non-integer length field raises ValueError |
| `Redback.DecodeBadField` | main.py:95-96 | the first code-point field that is not a character code raises what `chr(int(c))` raises on it: ValueError, or OverflowError past a C `int` |
| `Redback.RedbackVlanFind` | main.py:100-110 | returns `0` exactly when the payload contains "L2TP LNS"; fails (IndexError) exactly when it does not and has fewer than five tokens |
| `Redback.VlanOfFifthToken` | main.py:109 | for any payload without the LNS marker, however blank-spaced, whose fifth token is `line` or `line:rest`, the result is `line` |
| `Redback.VlanOfFifthWord` | main.py:109 | for a payload of words joined by single spaces whose fifth is `line` or `line:rest`, the result is `line` |
| `Redback.RealmNeedsAt` | main.py:65 | the realm expression succeeds exactly when the username contains `@` |
| `Redback.RedbackRealm` | main.py:65 | the realm expression raises only IndexError |
| `Redback.RealmOfDomain` | main.py:65 | for `local@l0.l1.l2...` the realm is labels 1..2 joined by `.`; fewer labels give a shorter or empty realm |
| `Redback.RedbackEntry` | main.py:63-79 | an entry yields a row iff line lookup, tag, username and realm all succeed; the row is `(user, now, now, True, subtype, True)` with the decoded user; the classifier is used exactly when the payload is L2TP LNS, else the line text |
| `Redback.EntryOfParts` | main.py:63-79 | when the line, username and realm are all read, the entry's row is `(user, now, now, True, subtype, True)` with the line text as subtype, or the classifier's result when no line is reported |
| `Redback.EntryNeedsAt` | main.py:63-65 | a username without `@` aborts the entry even when a line was reported |
| `Redback.LnsSessionTakesRealmVlan` | main.py:63-69 | an L2TP LNS session whose realm is in the type table gets that entry's vlan |
| `Redback.RunUntilFault` | main.py:62-80 | a loop without a handler never yields more rows than entries |
| `Redback.RedbackRun` | main.py:62-80 | the walk never yields more rows than walked payloads |
| `Redback.RunStopsAtFirstFault` | main.py:62-80 | the rows are those of a prefix of the entries, each its entry's row; all entries when none faults, else the walk stops at the first fault with that fault |
| `Redback.WalkRowsSeenAt` | main.py:70-79 | every walked row has `last_down = last_up = now` and both flags true |
| `Redback.WalkLosesRestAfterBadEntry` | main.py:62-80 | one bad entry at index `m` leaves exactly the `m` earlier rows and ends the walk with its fault |
| `Classify.LoginClassify` | main.py:200-209 | returns nothing iff no entry has the realm; otherwise the vlan of an entry with that realm and none before it |
| `Classify.FirstEntryWins` | main.py:201-205 | the first entry with the realm decides, whatever later entries say |
| `Classify.Classified` | main.py:66-69 | an unclassified login gets `None` exactly when no type entry has its realm, otherwise the vlan of the first entry that has it; never a line text |
| `Cisco.SubCountOfReply` | main.py:127-131 | the count is the integer of the first walked value, and zero when the walk is empty |
| `Cisco.SubCount` | main.py:128-131 | zero for an empty walk; otherwise the integer of the first value, or ValueError exactly when it is not one |
| `Cisco.ParseCiscoReply` | main.py:163-165 | a parsed reply has all three values, and its username is the reply's; a missing port raises AttributeError, and AttributeError comes only from a missing value; every fault is one the handlers at lines 189-197 catch |
| `Cisco.ReplyFieldsOfPortAndDomain` | main.py:163-165 | port `.../n` or `.../n.sub` and domain `host.realm` give subtype `n`, realm `realm` and the username |
| `Cisco.DotlessDomainFails` | main.py:164 | a domain without `.` fails the reply whatever its port, so a nonzero subtype does not save it |
| `Cisco.NonIntegerPortFails` | main.py:163 | a port `path/last` whose `last` does not start with an integer before its first `.` raises ValueError |
| `Cisco.NonIntegerBarePortFails` | main.py:163 | a port without `/` that does not start with an integer before its first `.` raises ValueError |
| `Cisco.CiscoEntry` | main.py:163-188 | a reply yields a row iff it parses; the row carries its username, `(now, now, True, ..., True)`, and the port number when nonzero, else the classifier's result |
| `Cisco.PortNumber` | main.py:163 | the integer before the first `.` of the last `/`-segment of `.../n` or `.../n.sub` is `n` |
| `Cisco.KeepOk` | main.py:160-197 | a loop whose handler skips failed iterations yields at most one row per iteration |
| `Cisco.KeepOkFrom` | main.py:160-197 | each row such a loop yields is the row of one of its iterations |
| `Cisco.KeepOkAppend` | main.py:160-197 | two stretches of iterations one after the other keep the rows of each, in order |
| `Cisco.KeepOkKeeps` | main.py:160-197 | a good iteration's row is kept, right after the rows kept from the iterations before it |
| `Cisco.CiscoRun` | main.py:160-197 | `nb_sub` replies append at most `nb_sub` rows |
| `Cisco.CiscoRunKeepsGoodReply` | main.py:160-197 | every good reply's row is stored, after the rows of the replies before it, whatever the other replies are |
| `Cisco.CiscoRunRowsSeenAt` | main.py:167-188 | every row the Cisco loop appends is `(user, now, now, True, subtype, True)` |
| `Cisco.CiscoRunAllGood` | main.py:160-188 | with no bad reply, reply `k` gives row `k` |
| `Cisco.CiscoRunSkipsBadReply` | main.py:160-197 | one bad reply among `n` yields exactly `n - 1` rows, the others in order |
| `Reconcile.LineKey` | main.py:258 | the key is the first 12 characters of the username, or all of it when shorter |
| `Reconcile.LineKeys` | main.py:257-258 | one key per collected row, in row order |
| `Reconcile.UsersMembers` | main.py:259 | exactly the usernames of the collected rows |
| `Reconcile.UsersCount` | main.py:259 | there are never more usernames than collected rows |
| `Reconcile.UpsertBatch` | main.py:260 | the batch holds exactly the collected tuples |
| `Reconcile.DistinctSnoc` | main.py:260 | appending a tuple keeps the rows free of repeats exactly when the tuple is new |
| `Reconcile.BatchSize` | main.py:260 | the batch is never larger than the rows, and equally large iff no tuple repeats: only exact duplicates go |
| `Reconcile.BatchKeepsRowsOfOneUser` | main.py:260 | two different tuples for one username both stay in the batch |
| `Reconcile.DownIffNotCollected` | main.py:286 | a stored row is down iff no collected row has its username |
| `Reconcile.LinkUpIffLineCollected` | main.py:290 | a stored row's link is up iff a collected row shares its 12-character key |
| `Reconcile.LineSharedBySessions` | main.py:286-290 | a collected and an absent username on one line both have link up; only the absent one is down |
| `Collect.Config.CiscoTotalSub` | main.py:113-131 | stores the count (or zero) as the host's `nb_sub`, or leaves `nb_sub` unchanged and reports ValueError |
| `Collect.Round.RedbackSNMPWalk` | main.py:60-80 | appends exactly the walk's rows at the end of `connected_logins` and reports the fault that ended it |
| `Collect.Round.CiscoSNMPGet` | main.py:160-197 | appends exactly the rows of the first `nb_sub` replies at the end of `connected_logins` (none when `nb_sub <= 0`) |
| `Collect.Round.CollectHost` | main.py:234-247 | one host: Redback walked, Cisco counted then queried, other brands untouched |
| `Collect.HostOutcome` | main.py:234-247 | a count is read exactly from a Cisco host whose count walk parses, and then no fault is raised; a host of another brand yields nothing |
| `Collect.OutcomesAt` | main.py:234-247 | each host's outcome sits at the host's own position in the round |
| `Collect.Round.CollectNext` | main.py:234-247 | one pass of the host loop extends the rows and `nb_sub` entries exactly as the next host's outcome says |
| `Collect.Round.CollectHosts` | main.py:234-247 | appends the rows of every host in order until the first fault; `nb_sub` entries as the counts |
| `Collect.CollectedFaultSticks` | main.py:234-247 | after a fault later hosts change nothing |
| `Collect.HostRowsSeenAt` | main.py:234-247 | every row one host yields is stamped `now` with both flags true, whether the Redback loop (lines 70-79) or the Cisco loop (lines 167-188) appended it |
| `Collect.CollectedRowsFrom` | main.py:234-247 | every row a round collects is a row of some host's outcome |
| `Collect.CollectedRowsSeenAt` | main.py:234-247 | every row a round collects is `(user, now, now, True, subtype, True)`, from the Redback appends (lines 70-79) and the Cisco appends (lines 167-188) alike |
| `Collect.Round.BuildLoginSets` | main.py:257-259 | appends one 12-character key per collected row to `link_logins` and adds every username to `short_logins` |
| `Collect.Round.CollectRound` | main.py:232-261 | on a fault: the rows collected so far and nothing else; otherwise the two sets and the de-duplicated batch of all collected tuples |

## Left out

- SNMP sessions, `walk` and `getnext`: their replies are inputs (`Answers`). An exception raised by `getnext` itself is not modelled.
- PostgreSQL: the connection, the round-timestamp update, both `execute_values` upserts and their `ON CONFLICT` merge, `SELECT *`, commit and close. The model stops at the first upsert batch. The stored rows enter only as arguments of the two checks.
- Loading `config.json`, Timeloop scheduling, logging and `print`. A configuration missing a key (a `KeyError`) is not modelled. Every type entry's `vlan` is taken to be an integer.
- Clock: every tuple is stamped with the round time `now`. The code reads `time.time()` twice per tuple, so `last_down` and `last_up` could differ by a second.
- Reconcile.UpsertBatch: merges two rows with the same username and subtype, because both carry the one round time `now`. In `main.py` each tuple carries its own `time.time()` readings, so two such rows appended in different seconds are different tuples and both stay in the set. They are also psycopg2 timestamp objects, whose equality is not part of this model. `Reconcile.BatchSize` is therefore a statement about the model's tuples.
- UTF-8 decoding: payloads and reply fields are taken as already decoded text. A `UnicodeDecodeError` (a ValueError in the Cisco loop) is not modelled.
- `PyStr.ParseInt`: accepts only an optional sign followed by ASCII digits. Python's `int()` also strips surrounding whitespace, allows `_` between digits, and accepts non-ASCII digits. From Python 3.11 on it also raises ValueError for more than 4300 digits, which this model reads as a number: such a Cisco port would be skipped, and such a Redback length would raise ValueError rather than OverflowError.
- `Redback.LoginFields`: assumes a 64-bit build, where `Py_ssize_t` ends at 2^63 - 1. On a 32-bit build the OverflowError bound is 2^31 - 1.
- `Redback.DecodeDeclaredLength`, `Redback.DecodeEncodeLogin`, `Redback.DecodeIgnoresExtraFields`, `Redback.DecodeEmptyFields`: state lengths up to 2^63 - 1 only. A larger declared length raises OverflowError, which `Redback.DecodeHugeLength` states, and no Python string is that long.
- `Redback.CodeChar`: a surrogate code point (0xD800-0xDFFF) raises ValueError here. Dafny's `char` cannot hold one, but Python's `chr` accepts it.
- The `UnboundLocalError` handler in `loginClassify` cannot fire. The `print(reply)` calls in the Cisco handlers are diagnostics.
- The module-level lists are fields of one `Round` object per run of `main`. The code never clears them, which would matter only if the disabled Timeloop job ran `main` repeatedly.
- Down and link-status transitions: the code evaluates the checks at lines 286 and 290 and discards the results, so no stored state changes.
