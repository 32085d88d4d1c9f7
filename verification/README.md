# node.osx.js collectors — a Dafny model

node.osx.js is a Node addon that snapshots macOS kernel state: processes,
process arguments, mounts, logged-in sessions, accounts, network interfaces
and traffic counters. Each native collector fetches data with a system call,
then runs a small pure step over the fetched records: it decodes them,
filters them or classifies them. This project models those pure steps and
the two pieces of logic in the JavaScript wrapper. The inputs are records
that have already been fetched. Each fetch is an `Option` that is `None`
when the call fails, and each collector that can throw returns a `Result`
carrying the source's error message.

Modules, one per collector, plus shared helpers:

- `Wrappers`: `Option` and `Result`.
- `CNum`: the C integer behaviour the collectors depend on:
  - the 32-bit signed conversion made by `Integer::New` and `Int32Value`;
  - the little-endian `int` that `memcpy` reads;
  - C's truncating `/`.
- `Timeval`: the `tv_sec * 1000 + tv_usec / 1000` start-time conversion.
- `Selection`: the "walk the entries in order, skip some, append the rest"
  loop that the list collectors share, and a lemma showing that the walk
  keeps input order.
- `ProcArgs` (`GetProcessArgs`):
  - the ARGMAX clamp;
  - a byte-by-byte decoder that mirrors the C pointer walk, proved equal to a
    reference definition: split the area after the count at every NUL, drop
    the unterminated tail, and keep the first `argc` strings;
  - the encode/decode round trip.
- `Processes` (`GetProcesses`), `Mounts` (`GetMountInfo`), `Sessions`
  (`GetLoggedInUsers`), `Accounts` (`GetUsers`), `Interfaces`
  (`GetInterfaces`), `Traffic` (`GetNetActivity`).
- `JsApi` (`osx.js`): the `procArgs` type guard and `users()` deduplication.

Points where the collectors behave in ways a reader may not expect, each modelled as written:

- The session type table (`USER_TYPES`, osx.cc:162-173) has ten names, `"RUN_LVL"` among them. Codes `0..9` index it, because the bound test is `<= MAX_USER_TYPES` with `MAX_USER_TYPES = 9`, so code 9 is `"ACCOUNTING"`. Larger codes are `"OTHER"`.
- A negative session type code would index before the table. The model requires a non-negative code, and only for entries with a user name, because empty-name entries are skipped before the lookup.
- Accounts are stored with `users->Set(uid, user)`, so a later entry with the same uid overwrites an earlier one.
- The argument decoder counts every NUL in the area after the count. The executable path and any padding NULs after it are therefore counted against `argc` together with the real arguments.
- The ARGMAX query writes a 4-byte `int` into the 8-byte `size_t` `argsize`. Only the low half is set, and the clamp to 8192 is what keeps the fetch inside the buffer.
- `users()` collects names as keys of a plain object. A session named `"__proto__"` hits the inherited `__proto__` setter, adds no key, and is missing from the result.

## Model

| member | source | states |
|---|---|---|
| CNum.ToInt32 | osx.cc:218-222 | the value handed to `Integer::New` is a 32-bit signed integer, equal to the input whenever the input already fits |
| CNum.ToInt32Wraps | osx.cc:218 | the conversion wraps modulo 2^32, so a uid above `INT32_MAX` becomes negative and is not clamped |
| CNum.DecodeInt32LE | osx.cc:112 | the count copied out of the first four bytes is a signed 32-bit value, negative exactly when the top byte has its high bit set |
| CNum.DecodeEncodeInt32 | osx.cc:112 | decoding the four little-endian bytes of any 32-bit `int` gives that `int` back |
| CNum.TruncDiv | osx.cc:71 | C's `/` rounds toward zero: the remainder takes the dividend's sign and is smaller than the divisor |
| Timeval.StartTimeMillis | osx.cc:71 | for non-negative microseconds the result is the whole milliseconds of the timestamp; for a normalised `timeval` it lies in the second that `tv_sec` names; negative microseconds round toward zero |
| Selection.Collect | osx.cc:139-157 | the filtered walk yields at most one record per entry; every entry that is not skipped contributes its record, and every record comes from an entry that was not skipped |
| Selection.CollectIndices | osx.cc:244-280 | the records come from a strictly increasing choice of entries that includes every entry not skipped, so input order is kept |
| ProcArgs.QueriedArgSize | osx.cc:93-102 | after the query `argsize` is ARGMAX modulo 2^32 in its low half plus whatever the stack held in its high half; it equals ARGMAX only when that high half was zero |
| ProcArgs.ClampArgSize | osx.cc:104-106 | the length handed to the fetch is at most 8192 and at most what `argsize` held, and it is one of the two |
| ProcArgs.ClampAfterQuery | osx.cc:102-106 | whatever the query left in `argsize`, the fetch length is at most 8192; with a clean high half it is `min(ARGMAX, 8192)`, and any stale high half gives exactly 8192 |
| ProcArgs.FieldsCount | osx.cc:117-123 | every NUL byte ends exactly one string, empty strings from padding NULs included |
| ProcArgs.FieldsNulFree | osx.cc:118-121 | no decoded string contains a NUL |
| ProcArgs.FieldsAppend | osx.cc:117-122 | after a NUL the walk starts fresh: decoding a NUL-terminated prefix and the rest separately gives the same strings |
| ProcArgs.FieldsPack | osx.cc:117-124 | packing NUL-free strings each followed by a NUL and decoding the result gives the strings back; trailing bytes without a terminator produce no string |
| ProcArgs.ArgVectorRoundTrip | osx.cc:112-124 | a buffer that holds a count `n` and `n` packed strings decodes to exactly those strings, whatever bytes follow them, because the count stops the walk |
| ProcArgs.DecodeArgs | osx.cc:112-124 | the byte walk returns the first `argc` NUL-terminated strings of the payload. It returns nothing when `argc <= 0`, and `min(argc, NULs in payload)` strings otherwise. Each string is free of NULs, and the walk reads only indices below `argsize - 4` |
| ProcArgs.StopCondition | osx.cc:117 | both ways the loop can stop give the same reference result: the count runs out, or the payload ends with no NUL after the last string |
| ProcArgs.GetProcessArgs | osx.cc:102-126 | a failed fetch gives the "invalid pid or no privileges" error and nothing else; a successful fetch gives the decoded argument vector |
| Processes.RecordCount | osx.cc:58 | the number of records decoded is the number of complete records in the fetched length; a trailing partial record is never read |
| Processes.ListProcesses | osx.cc:49-82 | a failed probe or fetch gives "sysctl failed." and no records; otherwise exactly one record per complete `kinfo_proc`, in table order |
| Processes.UserNamesNonEmpty | osx.cc:68-69 | no record has an empty user name when the password database has no empty names |
| Processes.PidsStayUnique | osx.cc:65-76 | pids that are unique in the kernel table are unique in the result |
| Mounts.StrnEqIsPrefix | osx.cc:147 | `strncmp(prefix, name, strlen(prefix)) == 0` holds exactly when `name` starts with `prefix` |
| Mounts.DeviceMountIsPrefixed | osx.cc:38 | a mount is kept exactly when its source name starts with `"/dev/"` |
| Mounts.FreeFraction | osx.cc:144 | the free fraction is `free / total` when the total is non-zero; it is zero exactly when the total is zero or nothing is free |
| Mounts.MountOf | osx.cc:141-144 | the record keeps the device name; the fraction is zero exactly when the size or the free space is zero; free space never exceeds size when free blocks never exceed total blocks |
| Mounts.MountEntryKept | osx.cc:146-153 | an entry yields a record exactly when its name has the device prefix, and that record is the entry's own |
| Mounts.ListMounts | osx.cc:139-157 | no more records than entries; every record names a `/dev/` device; every `/dev/` entry has its record in the result |
| Mounts.ListMountsInOrder | osx.cc:139-152 | the result is the `/dev/` entries' records, in input order, and nothing else |
| Sessions.TypeName | osx.cc:162-173 | codes `0..9` are named from the ten-entry table (`<=` with `MAX_USER_TYPES = 9`, so 9 is `"ACCOUNTING"`), larger codes are `"OTHER"` |
| Sessions.TypeNameDetermines | osx.cc:187-193 | two codes get the same name only if they are equal or both past the table; `"OTHER"` means exactly "past the table" |
| Sessions.ListSessions | osx.cc:175-207 | no emitted session has an empty user name; there are no more sessions than entries; every entry with a user name is emitted |
| Sessions.ListSessionsInOrder | osx.cc:185-201 | the sessions are exactly those of the entries with a user name, in input order; position `k` is the whole session of its entry (name, type, host, line, start time), so no two sessions can trade places |
| Accounts.AccountOf | osx.cc:218-223 | the account keeps name and home directory; uid and gid are 32-bit signed values equal to the originals when those fit |
| Accounts.ListAccounts | osx.cc:209-230 | every stored account sits under its own uid; there are never more accounts than entries |
| Accounts.AccountKeys | osx.cc:217-224 | the keys are exactly the uids that occur among the entries |
| Accounts.LastEntryWins | osx.cc:224 | the account under a uid is the one from the last entry carrying that uid |
| Accounts.DistinctUidsKeepAll | osx.cc:224 | with pairwise distinct uids every entry has its own account |
| Interfaces.FamilyName | osx.cc:252-263 | each of AF_INET, AF_INET6, AF_UNIX and AF_LINK gets its own name (IPv4, IPv6, UNIX, LINK); every other family gets `"other"` |
| Interfaces.ListInterfaces | osx.cc:240-283 | a failed `getifaddrs` gives "getifaddrs failed"; otherwise at most one record per entry, and no record of a non-IP family has an address |
| Interfaces.ListInterfacesInOrder | osx.cc:244-280 | the records are those of the entries with an address, in list order |
| Traffic.NetActivity | osx.cc:303-332 | each failed fetch gives its own error and no stats, checked in the order TCP, IP, IPv6; the byte totals are the TCP sums; without IPv6 the result is the TCP totals |
| Traffic.Ipv6AddsOnlyPackets | osx.cc:318-326 | the IPv6 step adds its packet counts to the two packet totals and leaves both byte totals unchanged |
| Traffic.IpCountersUnused | osx.cc:306-316 | the IPv4 statistics decide only success or failure; their values never reach the totals |
| JsApi.ProcArgsJs | osx.js:10-16 | a non-number pid throws "pid must be a number" without reaching the native code. A number reaches it unchanged, where `Int32Value` makes it a 32-bit pid, and the result is the native collector's |
| JsApi.Dedupe | osx.js:20-27 | the keys of `uniq` have no duplicates; they are exactly the input names other than `"__proto__"`, which the inherited setter swallows; there are no more of them than names |
| JsApi.Users | osx.js:18-29 | `users()` has no duplicate names, exactly the names in the `who()` records except `"__proto__"`, no more entries than records, and nothing for no records |
| JsApi.UsersCount | osx.js:22-27 | `users()` has exactly one entry per distinct name other than `"__proto__"` |
| JsApi.UsersDropProtoKey | osx.js:23-26 | a session named `"__proto__"` never appears in `users()`, which then has one entry fewer than there are distinct names |
| JsApi.UsersOfSessionsNamed | osx.js:19 | composed with the session collector, `users()` never lists an empty name |

## Left out

- V8 object bridging (`Object::New`, `Set`, `HandleScope`, module registration) and the system calls themselves. Their results are inputs to the model: fetched records, or `None` for a failed call.
- Binary layouts of `kinfo_proc`, `statfs`, `utmpx`, `ifaddrs`, `tcpstat` and `ip6stat`. These are platform ABI; the model takes already decoded field records. The process table's record size is a parameter.
- The "array creation failed" path of `GetProcesses`. It depends on V8 allocation.
- ProcArgs.GetProcessArgs: `argsize` is a parameter standing for whatever the query left in it; ProcArgs.QueriedArgSize describes the values it can take. The model does not cover a failed ARGMAX query, which leaves `argsize` uninitialised. It also does not model a fetch of fewer than four bytes, where `argsize - sizeof(int)` underflows. Both are undefined behaviour in C, so both are preconditions. The kernel is assumed to write at most the buffer length it is given.
- ProcArgs.GetProcessArgs: the native result is created with `Array::New(1)`, so when the walk emits no string the JavaScript array still has `length` 1 with a hole at index 0. The model returns the empty sequence and does not describe the array's `length`.
- Sessions.ListSessions: `who()` also starts from `Array::New(1)`, so with no sessions it returns a one-element sparse array; the model returns the empty sequence. `users()` iterates with `for…in`, which skips the hole, so `JsApi.Users` is unaffected.
- ProcArgs.DecodeArgs: strings are returned as byte sequences. The UTF-8 decoding done by `String::New` is left out.
- Mounts.MountOf: the `double` value of `pctFree` is given as the exact fraction it approximates. Rounding is left out, and so is 64-bit overflow of `f_blocks * f_bsize`.
- Traffic.TcpTotals: counters are unbounded naturals. Their C widths are not visible here, so wrap-around in the unsigned sums and `double` rounding are left out.
- Timeval.StartTimeMillis: `tv_sec * 1000` is computed in `double`. The model uses exact integers, so precision loss beyond 2^53 ms is left out.
- Sessions.TypeName: a negative `ut_type` on an entry with a user name is a precondition, because the source indexes before the table.
- Interfaces.InterfaceEntry: the text `getnameinfo` produces is part of the input, and a failing `getnameinfo` is not modelled.
- Accounts.ListAccounts: the JavaScript array (created with `Array::New(1)`) is modelled as a map from key to account. How negative keys become plain properties rather than array elements, and the array's `length`, are left out.
- JsApi.Users: the model emits names in first-occurrence order. JavaScript orders integer-like object keys first, so no order is promised; only the set of names, distinctness and the count are stated.
- JsApi.ProcArgsJs: JavaScript numbers are integers here. Truncation of a fractional pid by `Int32Value` is left out.
- Traffic.NetActivity: the compile-time `INET6` switch is a boolean parameter. The source reads the IPv6 sent-packet counter under the field name `ips_localout`, and the model takes it as that counter.
- test.js: a manual smoke script with console output. It is not modelled.
