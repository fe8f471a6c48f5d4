# DoubleKeyDictionary in Dafny

A model of `DoubleKeyDictionary<TLeftKey, TRightKey, TValue>` from the MultiKeyDictionary
library. This is a hash table in which every value is stored under a pair of keys, a left key
and a right key. The table is a square `size × size` matrix of chains. Cell `[i][j]` holds the
entries whose left key reduces to row `i` and whose right key reduces to column `j`.

The table is an immutable `Table` value and every operation is a pure function:

- the constructor (`New`), `Initialize` and the lazy allocation on first insertion (`LazyInit`);
- the private `Insert`, which this model takes to be what the demo's `Add` runs;
- `TryGetValue`;
- the by-axis enumerations `GetValuesByLeftKey` and `GetValuesByRightKey`, as a row scan and a
  column scan.

C# exceptions become `Err` results, and the `out` parameter of `TryGetValue` becomes an `Option`.
A C# `null` key is `None`. Hashing and equality of each key axis form a `Comparer` value. The
`Lawful` predicate states the `IEqualityComparer` contract: equality is an equivalence, and equal
keys hash equally. `HashHelpers.GetPrime` is a function parameter `getPrime` returning a
positive dimension.

The representation invariant `Valid` has four parts:

- the matrix is well formed;
- both comparers are lawful;
- every entry sits in the cell named by its stored reduced hashes;
- no cell holds two entries with equal key pairs.

`Contents` abstracts a table to a `map<(L, R), V>`. The lemmas state each operation against that
map.

The code as written does not do what it evidently intends. Module `DoubleKeyDictionary` models
the intended behaviour, with a `DIVERGENCE` comment at each place it departs from the code:

- it matches on both keys;
- it has no stray `;`;
- it stores the new chain;
- its cell index is never negative;
- a lookup on an uninitialised table finds nothing.

Module `AsWritten` models `Insert` and `TryGetValue` exactly as written and relates them to the
corrected operations (see "## Findings"). An as-written insertion returns a `Step`: the object's
fields after the call together with the exception it threw, if any, because an exception does
not undo the allocation line 53 already made. Since the code as written never stores a chain,
no cell of its table ever holds an entry (`AsWritten.NothingIsEverFound`). The defects of the
match test only show on a table built by the corrected `Insert`.

Files:

- `wrappers.dfy`: `Option` and `Result`.
- `comparers.dfy`: comparers, C#'s truncating `%`, and the non-negative reduction.
- `dictionary.dfy`: the table, its invariant and abstraction, and the operations.
- `properties.dfy`: lemmas about lookup, insertion and the by-axis scans.
- `demo.dfy`: the nine insertions of the demo driver, with their expected lookups and scans.
- `aswritten.dfy`: the operations as written, and the counterexamples.

## Model

| member | source | states |
|---|---|---|
| Comparers.CsRemainder | MultiKeyDictionary/MultiKeyDictionary/DoubleKeyDictionary.cs:55-56 | C#'s `%` by a positive divisor: strictly between `-n` and `n`, with the sign of the dividend, differing from the dividend by a multiple of `n`, and equal to the dividend when it is already in `[0, n)` |
| Comparers.EuclideanVersusTruncated | MultiKeyDictionary/MultiKeyDictionary/DoubleKeyDictionary.cs:55-56 | the non-negative remainder equals C#'s remainder, or C#'s remainder plus the divisor |
| Comparers.Reduce | MultiKeyDictionary/MultiKeyDictionary/DoubleKeyDictionary.cs:55-56 | a hash code reduced to a cell index always lies in `[0, size)`; it differs from C#'s `%` only by adding `size` to a negative remainder |
| DoubleKeyDictionary.LeftIndex | MultiKeyDictionary/MultiKeyDictionary/DoubleKeyDictionary.cs:55 | the row of a left key is a valid row index |
| DoubleKeyDictionary.RightIndex | MultiKeyDictionary/MultiKeyDictionary/DoubleKeyDictionary.cs:56 | the column of a right key is a valid column index |
| DoubleKeyDictionary.KeysDistinct | MultiKeyDictionary/MultiKeyDictionary/DoubleKeyDictionary.cs:15-24 | in a valid table, two positions whose entries carry the same key pair are the same position |
| DoubleKeyDictionary.StoredInContents | MultiKeyDictionary/MultiKeyDictionary/DoubleKeyDictionary.cs:15-24 | every stored entry appears in the abstract map with its own value |
| DoubleKeyDictionary.ContentsStored | MultiKeyDictionary/MultiKeyDictionary/DoubleKeyDictionary.cs:15-24 | every pair of the abstract map comes from a stored entry that carries its value |
| DoubleKeyDictionary.EquivalentLivesInCell | MultiKeyDictionary/MultiKeyDictionary/DoubleKeyDictionary.cs:55-58 | an entry whose keys equal the query's lies in the query's cell and passes its match test, because equal keys hash equally |
| DoubleKeyDictionary.MatchIsUnique | MultiKeyDictionary/MultiKeyDictionary/DoubleKeyDictionary.cs:73-81 | in a valid table at most one entry of a cell matches a query |
| DoubleKeyDictionary.New | MultiKeyDictionary/MultiKeyDictionary/DoubleKeyDictionary.cs:26-33 | the constructor stores the comparers and the capacity and allocates no matrix; with lawful comparers the new table is valid and empty |
| DoubleKeyDictionary.Initialize | MultiKeyDictionary/MultiKeyDictionary/DoubleKeyDictionary.cs:35-44 | `size` becomes `GetPrime(capacity)` and the matrix has exactly `size` rows of `size` empty cells; no other field changes; the result is valid and empty |
| DoubleKeyDictionary.LazyInit | MultiKeyDictionary/MultiKeyDictionary/DoubleKeyDictionary.cs:53 | the matrix is allocated only when absent; an allocated table is left as it is; validity and contents are kept |
| DoubleKeyDictionary.Scan | MultiKeyDictionary/MultiKeyDictionary/DoubleKeyDictionary.cs:73-81 | the chain scan finds the first entry matching both stored hashes and both keys, and finds nothing only when no entry matches |
| DoubleKeyDictionary.Insert | MultiKeyDictionary/MultiKeyDictionary/DoubleKeyDictionary.cs:46-91 | a null key gives an argument-null error, and only a null key does; otherwise the matrix is allocated if absent, both indices are in `[0, size)`, the insertion fails as a duplicate exactly when an entry of the target cell matches both keys, and on success only that cell changes, gaining the new entry with its reduced hashes at its end |
| DoubleKeyDictionary.TryGetValue | MultiKeyDictionary/MultiKeyDictionary/DoubleKeyDictionary.cs:93-119 | on an uninitialised table, or when no entry of the query's cell matches both keys, the answer is not found; otherwise it is the value of the first matching entry |
| DoubleKeyDictionary.ValuesByLeftKey | MultiKeyDictionary/MultiKeyDictionary/ThreadSafeDoubleKeyDictionary.cs:51-62 | the row scan yields exactly the values of the row's entries whose stored left hash and left key match; nothing before initialisation |
| DoubleKeyDictionary.ValuesByRightKey | MultiKeyDictionary/MultiKeyDictionary/ThreadSafeDoubleKeyDictionary.cs:64-75 | the column scan yields exactly the values of the column's entries whose stored right hash and right key match; nothing before initialisation |
| DictionaryProperties.CellDecidesPresence | MultiKeyDictionary/MultiKeyDictionary/DoubleKeyDictionary.cs:93-119 | in a valid table a pair equal to the query is stored if and only if some entry of the query's cell matches it |
| DictionaryProperties.TryGetValueMeaning | MultiKeyDictionary/MultiKeyDictionary/DoubleKeyDictionary.cs:93-119 | a lookup finds a value if and only if a pair equal to the query is stored, and then it finds that pair's value |
| DictionaryProperties.LookupStored | MultiKeyDictionary/MultiKeyDictionary/DoubleKeyDictionary.cs:106-113 | a stored pair is found under its own keys with its stored value |
| DictionaryProperties.AppendKeepsValid | MultiKeyDictionary/MultiKeyDictionary/DoubleKeyDictionary.cs:83-90 | appending to a cell an entry that belongs there and duplicates no entry of that cell keeps the table valid |
| DictionaryProperties.AppendedKeyIsFresh | MultiKeyDictionary/MultiKeyDictionary/DoubleKeyDictionary.cs:73-81 | a pair that no entry of its own cell matches is not stored anywhere |
| DictionaryProperties.AppendKeepsPairs | MultiKeyDictionary/MultiKeyDictionary/DoubleKeyDictionary.cs:83-90 | an append keeps every previously stored pair with its value |
| DictionaryProperties.AppendAddsOnlyItsPair | MultiKeyDictionary/MultiKeyDictionary/DoubleKeyDictionary.cs:83-90 | after an append the new pair is stored with its value, and every stored pair is an old one or the new one |
| DictionaryProperties.AppendContents | MultiKeyDictionary/MultiKeyDictionary/DoubleKeyDictionary.cs:83-90 | an append adds exactly the new pair to the abstract map |
| DictionaryProperties.InsertMeaning | MultiKeyDictionary/MultiKeyDictionary/DoubleKeyDictionary.cs:46-91 | on a valid table, insertion fails if and only if a pair equal to the new one is stored, and the failure is a duplicate error; on success the table stays valid, keeps its comparers, and its map gains exactly the new pair |
| DictionaryProperties.InsertThenLookup | MultiKeyDictionary/MultiKeyDictionary/DoubleKeyDictionary.cs:83-113 | round trip: after a successful insertion of `(l, r) ↦ v`, looking up `(l, r)` gives `v` |
| DictionaryProperties.InsertKeepsOtherLookups | MultiKeyDictionary/MultiKeyDictionary/DoubleKeyDictionary.cs:83-113 | pair independence: a successful insertion changes the lookup of no pair that differs from it on either key |
| DictionaryProperties.SecondInsertFails | MultiKeyDictionary/MultiKeyDictionary/DoubleKeyDictionary.cs:73-81 | once a pair is stored, inserting it again, or any pair equal to it, gives a duplicate error |
| DictionaryProperties.ValuesByLeftKeyMeaning | MultiKeyDictionary/MultiKeyDictionary/Program.cs:39-41 | on a valid table the left scan yields a value if and only if a stored pair whose left key equals the query holds that value |
| DictionaryProperties.ValuesByRightKeyMeaning | MultiKeyDictionary/MultiKeyDictionary/Program.cs:44-46 | on a valid table the right scan yields a value if and only if a stored pair whose right key equals the query holds that value |
| Demo.InsertAll | MultiKeyDictionary/MultiKeyDictionary/Program.cs:29-37 | a run of insertions either yields a well-formed table or fails, and its only possible failure is a duplicate error |
| Demo.InsertAllDistinct | MultiKeyDictionary/MultiKeyDictionary/Program.cs:29-37 | a run of pairwise distinct insertions, none already stored, all succeed; the table stays valid and its map gains exactly the run's pairs |
| Demo.AddsMapHoldsRun | MultiKeyDictionary/MultiKeyDictionary/Program.cs:29-37 | the map of a pairwise distinct run maps each insertion's pair to its value and holds no other pair |
| Demo.RunFromEmpty | MultiKeyDictionary/MultiKeyDictionary/Program.cs:29-37 | a pairwise distinct run on a new table succeeds, and the table holds exactly the run |
| Demo.LookupsOfRun | MultiKeyDictionary/MultiKeyDictionary/Program.cs:29-37 | a valid table holding a run finds every insertion of the run with its own value |
| Demo.LeftScanOfRun | MultiKeyDictionary/MultiKeyDictionary/Program.cs:39-41 | on a table holding a run, the left scan yields exactly the values of the insertions whose left key equals the query |
| Demo.RightScanOfRun | MultiKeyDictionary/MultiKeyDictionary/Program.cs:44-46 | on a table holding a run, the right scan yields exactly the values of the insertions whose right key equals the query |
| Demo.DemoAddsDistinct | MultiKeyDictionary/MultiKeyDictionary/Program.cs:29-37 | the demo's nine insertions, which share left or right keys, name nine different pairs |
| Demo.DemoLeftValues | MultiKeyDictionary/MultiKeyDictionary/Program.cs:39-41 | the demo stores `{1, 4, 5}`, `{2, 7, 8}` and `{3, 10, 11}` under its three left keys |
| Demo.DemoRightValues | MultiKeyDictionary/MultiKeyDictionary/Program.cs:44-46 | the demo stores `{1, 2, 3}`, `{4, 7, 10}` and `{5, 8, 11}` under right keys 1, 2 and 3 |
| Demo.DemoLookups | MultiKeyDictionary/MultiKeyDictionary/Program.cs:29-37 | the demo's nine insertions all succeed on a new table, and each of the nine pairs is then found with its own value |
| Demo.DemoLeftScanYields | MultiKeyDictionary/MultiKeyDictionary/Program.cs:39-41 | after the demo's insertions, a left scan yields the set the driver's comment expects |
| Demo.DemoRightScanYields | MultiKeyDictionary/MultiKeyDictionary/Program.cs:44-46 | after the demo's insertions, a right scan yields the set the driver's comment expects |
| Demo.DemoScans | MultiKeyDictionary/MultiKeyDictionary/Program.cs:39-46 | the six by-axis scans of the driver yield the six sets its comments expect |
| Demo.DemoScenario | MultiKeyDictionary/MultiKeyDictionary/Program.cs:29-46 | the demo end to end: every insertion succeeds, every pair is found with its value, and every scan yields its expected set |
| AsWritten.ArrayIndex | MultiKeyDictionary/MultiKeyDictionary/DoubleKeyDictionary.cs:55-58 | the index the code computes is unusable exactly when C#'s remainder is negative; when usable it is the corrected index, and when not, the corrected index is the code's remainder plus `size`; a non-negative hash code always gives a usable index |
| AsWritten.InsertAsWritten | MultiKeyDictionary/MultiKeyDictionary/DoubleKeyDictionary.cs:46-91 | the code's insertion: a null key throws argument-null and changes nothing, and only a null key throws that; otherwise the object is left exactly as the lazy allocation of line 53 left it, whether or not the call throws; it throws an index error exactly when a remainder is negative, and otherwise throws `ArgumentException` exactly when the target cell is non-empty; it never divides by zero |
| AsWritten.TryGetValueAsWritten | MultiKeyDictionary/MultiKeyDictionary/DoubleKeyDictionary.cs:93-119 | the code's lookup: it divides by zero exactly on an uninitialised table and throws nothing else but an index error, which on an allocated table it throws exactly when a remainder is negative; otherwise it answers not found exactly for an empty cell and else gives the cell's first value |
| AsWritten.AcceptedInsertIsLost | MultiKeyDictionary/MultiKeyDictionary/DoubleKeyDictionary.cs:59-70 | no call of the code's insertion with present keys changes what a valid table stores, whether it throws or not; a call that completes is one the corrected `Insert` accepts too, and the corrected table gains the pair |
| AsWritten.DuplicateRejectedByBoth | MultiKeyDictionary/MultiKeyDictionary/DoubleKeyDictionary.cs:73-81 | every insertion the corrected `Insert` rejects as a duplicate, the code rejects too, by an `ArgumentException` or an index error |
| AsWritten.LookupAnswersTooOften | MultiKeyDictionary/MultiKeyDictionary/DoubleKeyDictionary.cs:106-113 | whenever the corrected lookup finds a value, the code's lookup throws an index error or finds a value too; when it does not throw, it agrees with the corrected one if the query matches the first entry of its cell, and it answers not found only when the corrected one does |
| AsWritten.LostInsertWitness | MultiKeyDictionary/MultiKeyDictionary/DoubleKeyDictionary.cs:59-70 | inserting `(1, 1) ↦ 10` into a new table completes without an exception, and looking it up then gives not found as written, and 10 when corrected |
| AsWritten.SharedCellWitness | MultiKeyDictionary/MultiKeyDictionary/DoubleKeyDictionary.cs:73-81 | on a table built by the corrected `Insert` with `(1, 1)` stored, inserting `(4, 1)` into the same cell throws as written and succeeds when corrected |
| AsWritten.LookupIgnoresKeysWitness | MultiKeyDictionary/MultiKeyDictionary/DoubleKeyDictionary.cs:106-113 | on a table built by the corrected `Insert` with `(1, 1) ↦ 10` stored, looking up `(4, 4)` gives 10 as written and not found when corrected |
| AsWritten.NegativeHashWitness | MultiKeyDictionary/MultiKeyDictionary/DoubleKeyDictionary.cs:53-58 | a left key hashing to -1 makes the insertion throw an index error as written, after the matrix was allocated, so a later lookup answers not found; the corrected insertion succeeds |
| AsWritten.LookupBeforeInsertWitness | MultiKeyDictionary/MultiKeyDictionary/DoubleKeyDictionary.cs:95-96 | a lookup on a new table divides by zero as written and gives not found when corrected |
| AsWritten.RunAsWritten | MultiKeyDictionary/MultiKeyDictionary/DoubleKeyDictionary.cs:46-91 | a run of the code's insertions, each exception caught by the caller, leaves a well-formed table with the same comparers, and that table is either the original or its lazy allocation |
| AsWritten.InsertKeepsCellsEmpty | MultiKeyDictionary/MultiKeyDictionary/DoubleKeyDictionary.cs:59-70 | a call of the code's insertion on a table whose cells are all empty leaves every cell empty |
| AsWritten.RunKeepsCellsEmpty | MultiKeyDictionary/MultiKeyDictionary/DoubleKeyDictionary.cs:59-70 | however many insertions the code runs, a table whose cells are all empty keeps every cell empty |
| AsWritten.NothingIsEverFound | MultiKeyDictionary/MultiKeyDictionary/DoubleKeyDictionary.cs:93-119 | after any run of the code's insertions into a new table, its lookup never finds a value: it throws or answers not found |

## Left out

- Locking in `ThreadSafeDoubleKeyDictionary`: it only wraps base calls in a reader-writer lock. The model is sequential.
- The public `Add`, `Get`, `GetValuesByLeftKey` and `GetValuesByRightKey`: the thread-safe subclass and the demo call them, but the base class does not define them. `Insert` stands for `Add`. `Get` is not modelled because no body exists for it.
- `HashHelpers.GetPrime`: its code is not part of this model. It is the parameter `getPrime`, and only its positive result is used.
- `IEqualityComparer` and `GetHashCode`: they are abstract functions, constrained only by `Lawful`.
- The demo's `TestType` hashing (Program.cs:68-74): it uses GUID and string hash codes with unchecked overflow. The demo lemmas take three abstract left keys instead, required only to differ pairwise under a lawful comparer.
- Null keys to `TryGetValue`: what the comparer does with a null key is not defined, so the lookups take present keys.
- Count, load factor, resize, eager allocation for a positive capacity, and rejection of a negative capacity: the code has none of them, and the model invents none. In the code, `capacity` is stored and never read, and the first insertion always calls `Initialize(0)`.
- Sign handling of hash codes: the code reduces with C#'s `%` directly. The corrected model reduces with the non-negative remainder, which gives the code's index whenever that index is usable.
- DoubleKeyDictionary.ValuesByLeftKey: states which values occur, not their order or multiplicity, because no implementation in the code fixes either.
- DoubleKeyDictionary.ValuesByRightKey: states which values occur, not their order or multiplicity, for the same reason.
- Demo.DemoScans: compares each scan with its expected set, not with a sequence, because the driver's comments give sets.

## Findings

| source | as written | input that shows it | evidently intended | confidence | as-written member | corrected member |
|---|---|---|---|---|---|---|
| MultiKeyDictionary/MultiKeyDictionary/DoubleKeyDictionary.cs:59-70 | the one-entry chain for an empty cell is built but never stored in the matrix, so the insertion is lost | insert `(1, 1) ↦ 10` into a new table, then look up `(1, 1)` | store the chain in `buckets[leftHashCode][rightHashCode]` | not executed | AsWritten.LostInsertWitness | DictionaryProperties.InsertThenLookup |
| MultiKeyDictionary/MultiKeyDictionary/DoubleKeyDictionary.cs:75-79 | the condition matches on either key, and the `;` ending the `if` makes the `throw` unconditional, so any non-empty cell rejects every insertion | with `(1, 1)` stored and `size == 3`, insert `(4, 1)`; the code as written never stores an entry, so this table is built by the corrected `Insert` and the defect is latent behind the one of lines 59-70 | reject only an entry matching both keys | not executed | AsWritten.SharedCellWitness | DictionaryProperties.InsertMeaning |
| MultiKeyDictionary/MultiKeyDictionary/DoubleKeyDictionary.cs:108-113 | the same `;` makes the lookup return the first entry of any non-empty cell, whatever its keys | with `(1, 1) ↦ 10` stored and `size == 3`, look up `(4, 4)`; as in the row above, the table is built by the corrected `Insert`, and the defect is latent behind the one of lines 59-70 | return only the value of an entry matching both keys | not executed | AsWritten.LookupIgnoresKeysWitness | DictionaryProperties.TryGetValueMeaning |
| MultiKeyDictionary/MultiKeyDictionary/DoubleKeyDictionary.cs:55-58 | C#'s `%` keeps the sign of a negative hash code, and the resulting negative index throws | insert a left key with hash code -1 into a table of size 3 | a cell index in `[0, size)` | not executed | AsWritten.NegativeHashWitness | Comparers.Reduce |
| MultiKeyDictionary/MultiKeyDictionary/DoubleKeyDictionary.cs:95-98 | `TryGetValue` reduces modulo `size` without checking for an unallocated matrix, so it divides by zero | `TryGetValue(1, 1)` on a new table | report the pair as not found | not executed | AsWritten.LookupBeforeInsertWitness | DoubleKeyDictionary.TryGetValue |
