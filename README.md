# Hostname database of the static extended filtering engine

This project models `StaticExtFilteringHostnameDB`, the store behind
uBlock Origin's static extended filters (cosmetic, scriptlet and HTML
filters).

Each filter stores a string, such as a selector, under a key:
- a hostname (`example.com`), or
- the generic key `""`, or
- a regex source written between slashes (`/^foo\d+/`).

How the store works:
- Strings are interned in a string table.
- Each stored entry is one packed integer: `iStr << nBits | bits`. `iStr` is the string's index in the table. `bits` holds the category bits.
- The entries are pairs `(value, next)` in one flat slot arena. Each key owns a chain of pairs.
- `retrieve` does two things:
  - It walks the domain suffixes of a hostname, most specific first, then the generic key. The `modifiers` argument selects the variant.
  - Under modifiers 0 and 3 it also visits every regex key whose pattern matches the hostname.
  - Every string found goes into bucket `strId & mask` of the output array.
- The database can be saved as a snapshot (a "selfie") and installed again.

The model has four modules:

- `Encoding` (`encoding.dfy`): the packed value. `BitOr`/`BitAnd` are defined bit by bit on naturals. Shift-out is repeated halving.
  - The round trip: the string index and the category bits come back out.
  - Routing: with `2^m` buckets and `m <= nBits`, the bucket is chosen by the low `m` category bits alone.
- `Arena` (`arena.dfy`): the slot arena as a `seq<nat>` of pairs, with the walk from a head (`Path`, `Chain`), the tail (`Tail`), and linking (`Link`).
  - Every next pointer points forward, so every chain walk terminates.
  - Pair 0 can only be a head, so `0` is a safe end marker.
  - The chains of different keys share no pair.
  - A store appends a value to the end of one chain and leaves every other chain alone.
- `SuffixWalk` (`suffix_walk.dfy`): `IndexOf`, the keys the `for (;;)` loop of `retrieve` looks up (`Walk`, `Probes`), and what that set is without the loop (`Visits`), per modifier.
- `HostnameDb` (`hostname_db.dfy`): the class `HostnameDB`. Its fields are the source's fields: two key indexes, the arena, the string table, the reverse map, the size and the timer flag.
  - Its methods are `store`, `clear`, `collectGarbage`, `retrieve`, `toSelfie` and `fromSelfie`, with the loops of `store` and `retrieve` as `while` loops with invariants.
  - `Valid()` is the class invariant. It covers the chains, the string table, the reverse map and the size.
  - A ghost field `heads` views the two key indexes as one map from `Key` (hostname or regex) to chain head. The arena lemmas are stated over it.
  - `Retrieve` is proved against `Retrieved`, the set of values found, defined over the key sequence `Probes`. `Retrieve` ensures that each bucket gains exactly the strings of those found values that the value's low bits route to it.
  - `RetrievedMembers` and `Visits` state the found values without iteration: the values of every domain suffix of the hostname (plus the generic key, as `modifiers` selects), and of every regex key whose pattern matches.
  - `ToSelfie` then `FromSelfie` (`Reload`) gives back the same index, arena, strings and size.

## Model

| member | source | states |
|---|---|---|
| Encoding.Encode | src/js/static-ext-filtering-db.js:55 | the packed value `iStr << nBits \| bits`, as the unsigned 32-bit view of the JavaScript result |
| Encoding.StrIndexOf | src/js/static-ext-filtering-db.js:120 | `strId >>> nBits`: the string index, by shifting out nBits low bits one at a time |
| Encoding.BucketOf | src/js/static-ext-filtering-db.js:120 | `strId & mask`: the output bucket |
| Encoding.EncodeRoundTrip | src/js/static-ext-filtering-db.js:55 | when the category bits fit below `2^nBits`, `(iStr << nBits \| bits) >>> nBits` is `iStr` and `& (2^nBits - 1)` gives back `bits` |
| Encoding.ShiftOut | src/js/static-ext-filtering-db.js:120 | shifting `i * 2^n + bits` right by n, with `bits < 2^n`, gives `i` |
| Encoding.OrShifted | src/js/static-ext-filtering-db.js:55 | or-ing bits below `2^n` into a multiple of `2^n` is addition, so no bit of the string index is lost |
| Encoding.BitAnd | src/js/static-ext-filtering-db.js:120 | `a & b` on non-negative operands is at most each operand, so a bucket index never exceeds the mask |
| Encoding.BitOr | src/js/static-ext-filtering-db.js:55 | `a \| b` on non-negative operands lies between the larger operand and their sum |
| Encoding.BucketOfShifted | src/js/static-ext-filtering-db.js:55-120 | masking `iStr * 2^nBits + bits` with `2^nBits - 1` gives back `bits` |
| Encoding.MaskIsMod | src/js/static-ext-filtering-db.js:114 | for an output length L that is a power of two, `v & (L - 1)` is `v mod L`, a valid bucket index |
| Encoding.RoutingByCategory | src/js/static-ext-filtering-db.js:114-120 | with `2^m` buckets and `m <= nBits`, a stored value's bucket is the low m category bits, whatever the string index |
| Encoding.Pow2IsPowerOfTwo | src/js/static-ext-filtering-db.js:114 | `2^n` is a bucket count that the mask arithmetic accepts |
| Arena.Path | src/js/static-ext-filtering-db.js:70-72 | the pairs the walk from a head visits are pairs of the arena, every pair after the head lies beyond it (so none of them is pair 0), and the walk ends at a pair whose next is 0 |
| Arena.PathIncreasing | src/js/static-ext-filtering-db.js:70-72 | the pairs of a walk are strictly increasing: each step moves forward, so the walk terminates and visits no pair twice |
| Arena.Link | src/js/static-ext-filtering-db.js:73-74 | the arena after the tail pair's next is set to the old length and `(v, 0)` is pushed |
| Arena.Chain | src/js/static-ext-filtering-db.js:118-122 | the values of a chain in walk order, the head's value first |
| Arena.ChainAt | src/js/static-ext-filtering-db.js:118-122 | the j-th value of a chain is the value field of the j-th pair of its path |
| Arena.Tail | src/js/static-ext-filtering-db.js:70-72 | the last pair of a chain is the last pair of its path, has next 0, and lies after the head when the head has a successor |
| Arena.PathBelow | src/js/static-ext-filtering-db.js:73 | no chain passes through the old end of the arena, so the pointer set there is fresh |
| Arena.LinkWellFormed | src/js/static-ext-filtering-db.js:73-74 | setting a tail's next to the old length and appending a pair keeps every next pointer forward and makes the old length a pair |
| Arena.AppendWellFormed | src/js/static-ext-filtering-db.js:66 | appending `(strId, 0)` keeps the arena well formed with a pair at the old length |
| Arena.Unfold | src/js/static-ext-filtering-db.js:118-122 | one do-while step: a pair with next 0 is a one-pair chain, otherwise the chain is the pair followed by the chain from its next |
| Arena.PathsAfterAppend | src/js/static-ext-filtering-db.js:66 | appending a pair leaves every key's chain unchanged and none of them passes through the new pair |
| Arena.PathAppend | src/js/static-ext-filtering-db.js:66 | appending a pair leaves every existing chain as it was |
| Arena.PathLinkTail | src/js/static-ext-filtering-db.js:69-74 | linking behind a chain's tail extends its path by the new pair and its values by the new value, at the end |
| Arena.PathLinkOther | src/js/static-ext-filtering-db.js:73 | a chain that does not pass through the relinked pair keeps its path and values |
| Arena.LinkSingle | src/js/static-ext-filtering-db.js:69-74 | linking behind a one-pair chain gives the two-value chain `[old, v]` |
| Arena.StoreNewKeyValid | src/js/static-ext-filtering-db.js:59-67 | a key without a chain gets a one-pair chain at the old end of the arena; all chains stay well formed and pairwise disjoint |
| Arena.NewKeyDisjoint | src/js/static-ext-filtering-db.js:59-67 | the new one-pair chain shares no pair with any old chain, and old chains stay disjoint |
| Arena.StoreNewKey | src/js/static-ext-filtering-db.js:59-67 | after a store under a new key that key holds just the new value and every other key holds what it held |
| Arena.PathsAfterLink | src/js/static-ext-filtering-db.js:69-74 | after linking behind the tail of one key's chain, that chain ends with the new pair and every other key's chain is unchanged |
| Arena.PathsBelowEnd | src/js/static-ext-filtering-db.js:73 | no key's chain reaches the old end of the arena, where the new pair goes |
| Arena.OthersAfterLink | src/js/static-ext-filtering-db.js:73-74 | linking behind the tail of one key's chain leaves the path and values of every other key's chain unchanged |
| Arena.LinkOther | src/js/static-ext-filtering-db.js:73 | linking behind the tail of one chain leaves a chain disjoint from it unchanged |
| Arena.StoreExistingKeyValid | src/js/static-ext-filtering-db.js:69-74 | linking a value behind the tail of a key's chain keeps all chains pairwise disjoint |
| Arena.StoreExistingKey | src/js/static-ext-filtering-db.js:69-74 | after a store under an existing key that key's values gain the new value at the end, in insertion order, and every other key is unchanged |
| Arena.ContentsUpdate | src/js/static-ext-filtering-db.js:59-74 | arenas whose chains agree on all keys but one have the same contents except at that key |
| SuffixWalk.Probes | src/js/static-ext-filtering-db.js:112-113 | the key sequence of a retrieval: the walk from the hostname, or from `""` under modifiers 2 |
| SuffixWalk.IndexOf | src/js/static-ext-filtering-db.js:125 | `indexOf('.')` is -1 exactly when there is no dot, else the position of the first dot |
| SuffixWalk.Walk | src/js/static-ext-filtering-db.js:115-132 | the keys looked up start with the hostname the walk starts from |
| SuffixWalk.WalkStep | src/js/static-ext-filtering-db.js:124-131 | one iteration: the key itself, then the walk from what follows its first dot, or from `""` when it has none and modifiers is not 1 |
| SuffixWalk.WalkMembers | src/js/static-ext-filtering-db.js:112-132 | the walk from hn visits exactly hn and the parts after each of its dots, plus `""` unless modifiers is 1 |
| SuffixWalk.ProbesMembers | src/js/static-ext-filtering-db.js:112-132 | the keys a retrieval looks up are exactly those `Visits` names: only `""` under modifiers 2, otherwise the domain suffixes, plus `""` unless modifiers is 1 |
| SuffixWalk.SuffixStep | src/js/static-ext-filtering-db.js:125-130 | the suffixes of a hostname are itself and the suffixes of what follows its first dot |
| SuffixWalk.SuffixOfTail | src/js/static-ext-filtering-db.js:130 | a suffix of the part after a dot is a suffix of the hostname |
| SuffixWalk.TailOfSuffix | src/js/static-ext-filtering-db.js:130 | every suffix of a hostname but itself is a suffix of the part after its first dot |
| SuffixWalk.NoDotSuffix | src/js/static-ext-filtering-db.js:126-128 | a hostname without dots has no suffix but itself |
| SuffixWalk.WalkEndsGeneric | src/js/static-ext-filtering-db.js:124-128 | unless modifiers is 1, the last key looked up is the generic key `""` |
| SuffixWalk.SpecificOnlyGeneric | src/js/static-ext-filtering-db.js:124-128 | under modifiers 1 the generic key is looked up only when the hostname is empty or ends in a dot |
| SuffixWalk.WalkSameUnlessSpecific | src/js/static-ext-filtering-db.js:113-132 | the suffix walk depends on modifiers only through whether it is 1 |
| SuffixWalk.RegexOnlyWalksLikeAll | src/js/static-ext-filtering-db.js:109-133 | modifiers 3 looks up the same hostname keys as modifiers 0, the generic key included |
| SuffixWalk.GenericOnlyProbes | src/js/static-ext-filtering-db.js:113 | modifiers 2 looks up only the generic key |
| HostnameDb.IsRegexKey | src/js/static-ext-filtering-db.js:56 | `hn.charCodeAt(0) === 0x2F`: a key is a regex key exactly when its first character is `/`; the empty key is a hostname key |
| HostnameDb.KeyOf | src/js/static-ext-filtering-db.js:56-59 | the namespace a key is looked up in: regex when its first character is `/`, hostname otherwise |
| HostnameDb.Pattern | src/js/static-ext-filtering-db.js:139 | `restr.slice(1, -1)`: the regex source without its first and last characters, empty for a source shorter than two |
| HostnameDb.HeadOf | src/js/static-ext-filtering-db.js:57-59 | the chain head of a key in the index its first character picks, or none |
| HostnameDb.Recorded | src/js/static-ext-filtering-db.js:60-65 | both indexes after a store: a key absent from the index its first character picks gets the old arena length as head there; all else unchanged |
| HostnameDb.MapOfPairs | src/js/static-ext-filtering-db.js:163-166 | `new Map(pairs)`: pairs entered in order, a later pair for a key replacing an earlier one |
| HostnameDb.Restore | src/js/static-ext-filtering-db.js:163-169 | the index `fromSelfie` installs: the hostname pairs as a map, the regex pairs when the snapshot has them and the old regex index otherwise, the arena and the strings |
| HostnameDb.Heads | src/js/static-ext-filtering-db.js:31-32 | the two key indexes seen as one map from `Key` to chain head, hostname and regex keys kept apart |
| HostnameDb.TiedUnique | src/js/static-ext-filtering-db.js:31-32 | that combined map is determined by the two indexes |
| HostnameDb.TiedLookup | src/js/static-ext-filtering-db.js:56-59 | looking a key up in the index its first character picks agrees with the combined map, both for presence and for the head |
| HostnameDb.TiedAdd | src/js/static-ext-filtering-db.js:60-65 | recording a new head in the index the first character picks is adding that key to the combined map |
| HostnameDb.TiedHeadsOk | src/js/static-ext-filtering-db.js:116 | a head valid in the combined map is a pair in each index |
| HostnameDb.ExtendedNew | src/js/static-ext-filtering-db.js:59-67 | extending the contents at a key with no values gives the key a one-value list |
| HostnameDb.LinkKeeps | src/js/static-ext-filtering-db.js:69-74 | linking a value behind the tail of a key's chain keeps all chains valid and heads pairs, and appends the value to that key's contents alone |
| HostnameDb.DecodableAppend | src/js/static-ext-filtering-db.js:66 | appending a pair whose value names a string keeps every stored value decodable |
| HostnameDb.DecodableLink | src/js/static-ext-filtering-db.js:73-74 | linking in such a pair keeps every stored value decodable |
| HostnameDb.DecodableGrow | src/js/static-ext-filtering-db.js:49 | growing the string table and rewriting only next fields keeps stored values decodable |
| HostnameDb.MapOfPairsEntries | src/js/static-ext-filtering-db.js:163-166 | `new Map(pairs)` has every key of the pairs and only those, each with the value of its last pair |
| HostnameDb.RestoreEntries | src/js/static-ext-filtering-db.js:151-166 | rebuilding a map from `Array.from` of it gives the map back |
| HostnameDb.HostValuesMembers | src/js/static-ext-filtering-db.js:115-123 | the values found through a list of keys are those of the chains of the listed keys present in the hostname index |
| HostnameDb.HostValuesStep | src/js/static-ext-filtering-db.js:116-123 | looking up one more key adds that key's chain, or nothing when it is absent |
| HostnameDb.RegexValuesStep | src/js/static-ext-filtering-db.js:136-147 | visiting one more regex key adds its chain exactly when its pattern matches |
| HostnameDb.RegexValuesEmpty | src/js/static-ext-filtering-db.js:136 | no regex key visited yet, no value found |
| HostnameDb.RetrievedMembers | src/js/static-ext-filtering-db.js:111-149 | a value is found exactly when it is in the chain of a hostname key of the suffix walk, or, under modifiers 0 and 3, in the chain of a regex key whose pattern (slashes stripped) matches the hostname |
| HostnameDb.DepositRouting | src/js/static-ext-filtering-db.js:114-120 | a string lands in bucket b of an array of power-of-two length L exactly when one of its found values is b modulo L |
| HostnameDb.DepositUnion | src/js/static-ext-filtering-db.js:120 | what two sets of values deposit in a bucket is the union of what each deposits |
| HostnameDb.DepositOne | src/js/static-ext-filtering-db.js:120 | one more value adds its string to the bucket its low bits pick and to no other |
| HostnameDb.DepositedNone | src/js/static-ext-filtering-db.js:117 | depositing no values leaves every bucket as it was |
| HostnameDb.DepositedTrans | src/js/static-ext-filtering-db.js:115-148 | two deposits in a row are one deposit of the union of their values |
| HostnameDb.DepositedStep | src/js/static-ext-filtering-db.js:119-120 | `out[strId & mask].add(...)` extends a deposit of a chain's prefix to a deposit of the prefix plus that value |
| HostnameDb.WalkLast | src/js/static-ext-filtering-db.js:124-127 | the loop stops after the generic key, or after a dotless key under modifiers 1, having looked up exactly the walk |
| HostnameDb.WalkNext | src/js/static-ext-filtering-db.js:125-131 | a non-final iteration looks up the current key and goes on to the rest of the walk |
| HostnameDb.HostnameDB.ValidIndex | src/js/static-ext-filtering-db.js:26-42 | a valid database's index has well-formed, disjoint chains from pair heads, and every value decodes |
| HostnameDb.HostnameDB.NextStrIndex | src/js/static-ext-filtering-db.js:46-48 | the string index `store` uses: the one the reverse map records, else the table length |
| HostnameDb.HostnameDB.constructor | src/js/static-ext-filtering-db.js:27-42 | without a snapshot (the default): empty indexes, arena and string table, size 0 and no timer; with one: the snapshot's index with an empty regex index as the fallback; valid exactly when there is no snapshot or the snapshot is valid |
| HostnameDb.HostnameDB.Store | src/js/static-ext-filtering-db.js:44-75 | size grows by one; an unknown string is appended to the table and the reverse map and schedules reclamation; the packed value decodes to s and to `bits`; key hn's values gain it at the end, every other key's are unchanged; a new key gets a one-pair chain at the old arena end, an existing key's tail is linked to a pair there; the validity invariant is kept |
| HostnameDb.HostnameDB.Intern | src/js/static-ext-filtering-db.js:46-54 | the index of s in the string table: the recorded one, otherwise the old table length with s appended, the reverse map updated and reclamation scheduled if none is |
| HostnameDb.HostnameDB.Place | src/js/static-ext-filtering-db.js:55-74 | the packed value goes at the end of the chain of the key, a new chain when the key has none; chains stay valid and decodable |
| HostnameDb.HostnameDB.AddKey | src/js/static-ext-filtering-db.js:59-67 | a key without a chain gets head = old arena length in the index its first character picks, and the pair `(strId, 0)` is appended |
| HostnameDb.HostnameDB.TailOf | src/js/static-ext-filtering-db.js:70-72 | the `while` loop stops at the tail of the chain, a pair whose next is 0 |
| HostnameDb.HostnameDB.LinkValue | src/js/static-ext-filtering-db.js:69-74 | the tail's next is set to the old arena length and the pair appended; only that key's values change, gaining the value at the end |
| HostnameDb.HostnameDB.Clear | src/js/static-ext-filtering-db.js:77-85 | indexes, arena, string table and reverse map are empty, size is 0, a scheduled reclamation stays scheduled, the invariant holds |
| HostnameDb.HostnameDB.CollectGarbage | src/js/static-ext-filtering-db.js:87-104 | immediately: the timer is cancelled and the reverse map emptied; later: a reclamation is pending and the reverse map is kept; the index, arena, strings and size never change and validity is kept |
| HostnameDb.HostnameDB.Reclaim | src/js/static-ext-filtering-db.js:98-101 | the idle callback clears the timer and the reverse map and touches nothing else |
| HostnameDb.HostnameDB.DepositChain | src/js/static-ext-filtering-db.js:118-122 | the do-while walk adds each value's string of the chain to the bucket its low bits pick, and nothing else |
| HostnameDb.HostnameDB.DepositHostnames | src/js/static-ext-filtering-db.js:112-132 | the `for (;;)` loop deposits exactly the values of the hostname keys of the suffix walk |
| HostnameDb.HostnameDB.DepositHostname | src/js/static-ext-filtering-db.js:116-123 | one lookup adds the chain of the key, if present, to what earlier lookups deposited |
| HostnameDb.HostnameDB.DepositRegexes | src/js/static-ext-filtering-db.js:136-148 | the regex loop deposits exactly the values of the regex keys whose pattern matches the hostname |
| HostnameDb.HostnameDB.Retrieve | src/js/static-ext-filtering-db.js:111-149 | each bucket gains exactly the strings of the values `Retrieved` finds that its index routes to it; the regex phase runs only under modifiers 0 and 3 |
| HostnameDb.HostnameDB.ToSelfie | src/js/static-ext-filtering-db.js:151-159 | the snapshot lists each index entry once as a pair, shares arena, strings and size, and restores to the same index whatever regex index is there before |
| HostnameDb.HostnameDB.FromSelfie | src/js/static-ext-filtering-db.js:161-171 | no snapshot: nothing changes; a snapshot: its pairs become the hostname index, its regex pairs the regex index when present (else the old regex index stays), its arena, strings and size are installed; reverse map and timer untouched; with an empty reverse map, and regex pairs in the snapshot or an empty regex index before, the result is valid exactly when the snapshot is |
| HostnameDb.PairsOf | src/js/static-ext-filtering-db.js:153-154 | `Array.from(map)` lists every entry of the map once |
| HostnameDb.Reload | src/js/static-ext-filtering-db.js:151-171 | a database built from another's snapshot is valid and has the same index, arena, strings and size, so it answers every retrieval the same |

## Left out

- The idle-callback timer: it is the flag `timerPending`, and the callback is the method `Reclaim`, which a caller runs when the flag is set. The `{ timeout: 5000 }` option and when the callback fires are not modelled.
- The regex engine: `new RegExp(pattern).test(hostname)` is the parameter `test` of `Retrieve`, applied to the regex source with its first and last characters dropped (`Pattern`).
- Retrieve: a malformed pattern makes `new RegExp` throw (line 139), and `retrieve` stops with some buckets already filled. `test` is a total function, so the model does not capture this exception or the partial result.
- Retrieve: the parameter `test` comes before `modifiers`, so that `modifiers` keeps its default of 0 (line 111). `CollectGarbage` keeps `later`'s default of false (line 87).
- Retrieve: a caller that passes the same `Set` object as two buckets of out is not modelled. The buckets are the elements of an `array<set<string>>`, which are values, not shared objects.
- The `regexMap` cache of compiled regular expressions: it only makes repeated retrievals faster and never changes a result. It is not a field of the model, and `Clear` has nothing to clear there.
- The order of `Map` and `Set` iteration: the two key indexes are `map`s and the output buckets are `set<string>`, so the order in which regex keys are visited and strings are added is not modelled. Within a chain the order is modelled (`Chain`, insertion order).
- `Store`: the 32-bit width of `iStr << nBits | bits` is not wrapped. `Store` requires the packed value to lie below 2^32 and the category bits to lie below `2^nBits`. `nBits` is restricted to widths below 32 (`Width`), because JavaScript shifts by `nBits % 32`.
- `Store`: `bits` wider than `nBits` would spill into the string index. The model requires `bits < 2^nBits` instead of modelling the spill.
- `Retrieve`: requires the output length to be a power of two, as the comment at line 114 asks. The model does not say what a non-power-of-two output array does.
- `FromSelfie`: the snapshot is not checked. The constructor ensures that the database is valid exactly when the snapshot is (`SelfieValid`). `FromSelfie` itself promises only the installed state.
- Aliasing: the snapshot shares `hostnameSlots` and `strSlots` with the database. Here they are sequences, values that are copied, so a later `store` or `clear` on either one is not seen by the other. In the source, `clear` shortens the shared arrays in place (lines 80-81), which empties a snapshot taken earlier. Two databases restored from one snapshot also share its arrays (lines 168-169).
- The comment at line 109 says modifiers 3 retrieves "only regex-based items". The code at lines 113-133 walks the hostname keys under 3 exactly as under 0. The model follows the code, and `RegexOnlyWalksLikeAll` states the result.
- FromSelfie: does not promise `Valid()` in general. `fromSelfie` does not empty the reverse map `strToIdMap`, so a string interned before the snapshot was installed keeps an index into the old string table. The model keeps this behaviour and leaves `strToIdMap` alone. A snapshot without regex pairs keeps the old regex index, whose heads can point outside the new arena. Validity is ensured in one case only: the reverse map is empty, and either the snapshot carries regex pairs or the regex index was empty before. Then the database is valid exactly when the snapshot is. The constructor is in that case.
- Strings: a Dafny `string` is a sequence of Unicode scalar values, while JavaScript strings are UTF-16 code units. For a regex key ending in a character outside the Basic Multilingual Plane, `slice(1, -1)` keeps a lone high surrogate and `Pattern` drops the whole character. Lone surrogates cannot be represented at all.
- Modifiers other than 0 to 3 behave as the code makes them behave, with the same `===` tests: they walk like 0 and skip the regex phase. No lemma is stated for them.
- Structure: `store` is split into `Intern`, `Place`, `AddKey`, `TailOf` and `LinkValue`, and `retrieve` into `DepositHostnames`, `DepositHostname`, `DepositChain` and `DepositRegexes`. Each helper is one step of the source method.
- `StrIndexOf`: `>>> nBits` is halving repeated `nBits` times. This is equal on values below 2^32.
