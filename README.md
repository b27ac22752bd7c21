# hcv_genotyper in Dafny

A model of the logic of `hcv_genotyper`, a library that names the hepatitis-C
genotype of a nucleotide sequence. The library runs a BLAST search of the
sequence against a fixed panel of reference sequences. It picks the
highest-scoring hit and parses the genotype label (`1a`, `3`, ...) from the
end of the hit's title. Results are memoised in a persistent cache keyed by
a digest of the call's arguments.

Three modules:

- `Wrappers` (`wrappers.dfy`): `Option` for Python's `None`, and `Result` for a
  call that may raise (`Err` is the exception).
- `Cache` (`cache.dfy`): `hcv_genotyper/cache.py`. `HomogeneousCache` is a class
  with the store as a `map` field. `Get` updates the store in place, only on a
  miss. A ghost log `calls` records every call of the computing function.
  The class invariant `Valid()` states that a key whose value was stored is
  never computed again, and that a key loaded from the file is never computed.
  `hash_args` is a loop feeding every argument into one running digest. The
  digest itself (MD5) is the abstract function `digest` the cache is opened
  with. `Wrapped` and `PersistentCache` model the `persistent_cache` decorator.
- `Genotyper` (`genotyper.dfy`): `hcv_genotyper/genotyper.py`. It holds the
  `Genotype` value type with its parser and printer, `best_match` over
  `(title, score)` descriptions, the `tidy_seq_input` normalisation, and the
  `classify` / `classify_seqs` composition. `Classifier` holds the
  module-level state: the cache-decorated classifier and the BLAST search,
  modelled as a function from sequence to descriptions.

Two facts of the code that the model keeps as they are:

- `hash_args` feeds the arguments into one digest with no separator between
  them, so argument lists with the same concatenation share a key;
  `Cache.SplitArgumentsCollide` shows the collision.
- The `Genotype` tuple accepts any `int` and any optional string, and so does
  the model; `ValidGenotype` names the values `parse` produces.

## Model

| member | source | states |
|---|---|---|
| `Cache.Concat` | hcv_genotyper/cache.py:21-24 | the bytes `hash_args` feeds: all arguments run together in order; `Cache.ConcatAppend` and `Cache.HashArgs` carry its contract |
| `Cache.ConcatAppend` | hcv_genotyper/cache.py:21-24 | feeding argument lists one after another feeds the concatenation of everything |
| `Cache.HashArgs` | hcv_genotyper/cache.py:18-25 | the loop's result is the digest of all arguments concatenated in order, with no separator |
| `Cache.SplitArgumentsCollide` | hcv_genotyper/cache.py:19-25 | ("ab", "c") and ("a", "bc") get the same key for every digest |
| `Cache.HomogeneousCache.constructor` | hcv_genotyper/cache.py:11-13 | the opened store holds exactly the persisted entries and nothing has been computed yet |
| `Cache.HomogeneousCache.Get` | hcv_genotyper/cache.py:27-34 | on a hit, returns the stored value without calling `fn`. On a miss, calls `fn(args)` once; a returned value is stored under the key and returned, and a raised error propagates with nothing stored. Keeps the invariant that no stored or loaded key is ever computed again |
| `Cache.GetOnlyGrows` | hcv_genotyper/cache.py:31-33 | after a `get`, every earlier entry is still there with the same value, at most the one new key is added, and at most one call is logged |
| `Cache.GetTwice` | hcv_genotyper/cache.py:30-34 | two `get`s with the same args: once the first returns a value, the second returns the same value, and `fn` ran at most once across both |
| `Cache.FirstWithKeyAppend` | hcv_genotyper/cache.py:30-34 | a later call never changes which call of a run was the first with a given key |
| `Cache.FirstWithKeyNew` | hcv_genotyper/cache.py:30-34 | a call whose key no earlier call of the run had is the first with that key |
| `Cache.FirstReachedStep` | hcv_genotyper/cache.py:30-34 | after one more `get`, every key added since the run began still holds what the first call with that key computed |
| `Cache.FirstReachedUniform` | hcv_genotyper/cache.py:30-34 | when every computation of a run gives the same value, every key the run added holds that value |
| `Cache.Wrapped.Call` | hcv_genotyper/cache.py:46-48 | `wrapped(*args)` behaves exactly as `cache.get(args, fn)` |
| `Cache.PersistentCache.constructor` | hcv_genotyper/cache.py:37-42 | one cache is opened per `persistent_cache(filename)` |
| `Cache.PersistentCache.Decorate` | hcv_genotyper/cache.py:44-50 | every function the decorator wraps shares that one cache |
| `Genotyper.NatToString` | hcv_genotyper/genotyper.py:58 | `str` of a natural number is a non-empty string of decimal digits, one digit exactly below 10 |
| `Genotyper.NatToStringValue` | hcv_genotyper/genotyper.py:58 | the digits read back give the number, with no leading zero |
| `Genotyper.IntToString` | hcv_genotyper/genotyper.py:58 | `str` of an int starts with `-` exactly for negatives and is digits otherwise |
| `Genotyper.IntToStringValue` | hcv_genotyper/genotyper.py:58 | the printed int reads back as the same int |
| `Genotyper.Format` | hcv_genotyper/genotyper.py:56-58 | a valid genotype prints as its major digit followed by its subtype letter, if any |
| `Genotyper.FormatEmptySubtype` | hcv_genotyper/genotyper.py:57 | an empty subtype prints like a missing one |
| `Genotyper.FormatExamples` | hcv_genotyper/genotyper.py:56-58 | (1, "a") prints "1a", (1, None) prints "1", (2, "b") prints "2b" |
| `Genotyper.Parse` | hcv_genotyper/genotyper.py:47-54 | succeeds exactly when the string starts with a digit 1..6. The error carries the input. A result is a valid genotype, and it takes the subtype letter whenever one follows the digit |
| `Genotyper.ParseFormat` | hcv_genotyper/genotyper.py:47-58 | round trip: parsing the printed form of any valid genotype gives it back |
| `Genotyper.FormatParse` | hcv_genotyper/genotyper.py:48-54 | the printed form of a parsed genotype is the prefix the parser matched, and it parses to the same genotype |
| `Genotyper.ParseIgnoresTrailing` | hcv_genotyper/genotyper.py:48-49 | text after a printed genotype is ignored, unless it starts with a letter that would complete a missing subtype |
| `Genotyper.ParseDependsOnPrefix` | hcv_genotyper/genotyper.py:48-49 | two strings with the same first two characters parse alike |
| `Genotyper.ParseRejects` | hcv_genotyper/genotyper.py:48-52 | "a", " 1a", "7b", "Samson" and "" raise a parse error |
| `Genotyper.LastToken` | hcv_genotyper/genotyper.py:105 | `title.split(" ")[-1]`, characterised by `Genotyper.LastTokenSpec` |
| `Genotyper.LastTokenSpec` | hcv_genotyper/genotyper.py:105 | `title.split(" ")[-1]` is the space-free suffix of the title that is the whole title or follows a space |
| `Genotyper.LastTokenAfterSpace` | hcv_genotyper/genotyper.py:105 | the last token of `a + " " + t`, with `t` space-free, is `t` |
| `Genotyper.ParseDesc` | hcv_genotyper/genotyper.py:102-107 | `parse_desc`: the genotype parsed from the title's last token, with the description's score, or that parse's error; its behaviour over a list is stated by `Genotyper.ParseAll`, `Genotyper.BestMatchFails` and `Genotyper.BestMatchOfTwo` |
| `Genotyper.ParseAll` | hcv_genotyper/genotyper.py:102-110 | the list comprehension yields one parsed entry per description, in order. Otherwise it raises the error of the first description whose label does not parse |
| `Genotyper.FirstFailure` | hcv_genotyper/genotyper.py:110 | the first failing description fails, and every one before it parses |
| `Genotyper.Insert` | hcv_genotyper/genotyper.py:109-113 | insertion adds exactly the one element |
| `Genotyper.InsertDescending` | hcv_genotyper/genotyper.py:109-113 | inserting into a highest-first list keeps it highest-first |
| `Genotyper.SortByScore` | hcv_genotyper/genotyper.py:109-113 | `sorted(..., reverse=True)` gives a permutation of its input, highest score first |
| `Genotyper.FirstBest` | hcv_genotyper/genotyper.py:109-114 | a reference definition, independent of the sort: the position of a highest score with no equal or higher score before it (`IsFirstMax`, one predicate over a list of scores, shared with `Genotyper.BestMatchHighest`) |
| `Genotyper.SortByScoreHead` | hcv_genotyper/genotyper.py:109-114 | the head of the stable sort is the first element with the highest score |
| `Genotyper.BestMatch` | hcv_genotyper/genotyper.py:99-118 | `best_match`: parse every description, sort by score highest first, return the head's genotype or None; its contract is carried by `Genotyper.BestMatchFails`, `Genotyper.BestMatchNone` and `Genotyper.BestMatchHighest` |
| `Genotyper.BestMatchFails` | hcv_genotyper/genotyper.py:102-110 | `best_match` raises exactly when some title's last token does not parse, best or not |
| `Genotyper.BestMatchNone` | hcv_genotyper/genotyper.py:114-116 | `best_match` returns None exactly for an empty description list |
| `Genotyper.BestMatchHighest` | hcv_genotyper/genotyper.py:99-118 | otherwise it returns the genotype parsed from the first description with the highest score |
| `Genotyper.BestMatchOfTwo` | hcv_genotyper/genotyper.py:109-118 | of two parsable descriptions, the second wins only with a strictly higher score |
| `Genotyper.BestMatchHighestWins` | hcv_genotyper/genotyper.py:109-118 | [("ref 2a", 50), ("ref 1b", 90)] gives 1b |
| `Genotyper.BestMatchTieGoesFirst` | hcv_genotyper/genotyper.py:109-118 | [("ref 3", 70), ("ref 4d", 70)] gives 3 |
| `Genotyper.BestMatchRaisesOnAnyBadTitle` | hcv_genotyper/genotyper.py:102-110 | a bad label raises even on a description with the lowest score |
| `Genotyper.RemoveChar` | hcv_genotyper/genotyper.py:127 | `replace(c, "")` leaves no `c` and introduces no character |
| `Genotyper.Tidy` | hcv_genotyper/genotyper.py:127 | the three chained `replace` calls; its contract is carried by `Genotyper.TidyIsSignal`, `Genotyper.TidyClean`, `Genotyper.TidyIdempotent` and `Genotyper.TidyDropsNoise` |
| `Genotyper.TidyIsSignal` | hcv_genotyper/genotyper.py:127 | the three `replace` calls keep exactly the characters other than space, `-` and `~`, in their order |
| `Genotyper.SignalClean` | hcv_genotyper/genotyper.py:127 | the kept characters contain no space, `-` or `~` |
| `Genotyper.SignalOfClean` | hcv_genotyper/genotyper.py:127 | a string without those characters is kept whole |
| `Genotyper.TidyClean` | hcv_genotyper/genotyper.py:127 | tidied output holds no space, `-` or `~` |
| `Genotyper.TidyIdempotent` | hcv_genotyper/genotyper.py:124-130 | tidying twice is tidying once |
| `Genotyper.TidyDropsNoise` | hcv_genotyper/genotyper.py:127 | a space, `-` or `~` inserted anywhere is dropped, and every other character stays in place |
| `Genotyper.RawClassify` | hcv_genotyper/genotyper.py:135-137 | the undecorated `classify`: `best_match` of the BLAST descriptions of the sequence; `Genotyper.Classifier.Classify` states that a cache miss returns it |
| `Genotyper.ClassifyKeyOfTidy` | hcv_genotyper/genotyper.py:124-135 | a sequence and its tidied form are looked up under the same cache key |
| `Genotyper.KeysOfIndex` | hcv_genotyper/genotyper.py:141 | the keys `classify` looks up for a list of sequences are, position by position, the keys of the tidied sequences |
| `Genotyper.RawsOfIndex` | hcv_genotyper/genotyper.py:141 | the raw classifications for a list of sequences are, position by position, `best_match` of each tidied sequence's BLAST descriptions |
| `Genotyper.Unanimous` | hcv_genotyper/genotyper.py:142-145 | the verdict on the set of distinct results; its contract is carried by `Genotyper.UnanimousSpec` and `Genotyper.UnanimousResults` |
| `Genotyper.UnanimousSpec` | hcv_genotyper/genotyper.py:142-145 | a genotype comes out exactly when the set of results is that one genotype. None comes out exactly when the set is {None} or does not have one element |
| `Genotyper.UnanimousResults` | hcv_genotyper/genotyper.py:140-145 | over per-sequence results, a genotype comes out exactly when there is at least one result and every result is that genotype |
| `Genotyper.UnanimousExamples` | hcv_genotyper/genotyper.py:140-145 | {2b} gives 2b; {2b, 3}, {2b, None} and {} give None |
| `Genotyper.Classifier.constructor` | hcv_genotyper/genotyper.py:133-135 | `classify` is the raw classifier under one persistent cache, opened on the persisted entries |
| `Genotyper.Classifier.Classify` | hcv_genotyper/genotyper.py:124-137 | `classify(s)` tidies `s`, then memoises under the tidied sequence's key. On a miss it returns the BLAST best match of the tidied sequence, and an error leaves the store unchanged. Earlier entries are kept |
| `Genotyper.Classifier.ClassifyIgnoresNoise` | hcv_genotyper/genotyper.py:124-135 | once `classify(s)` has returned a value, `classify(t)` returns that value from the cache for any `t` that tidies to the same sequence |
| `Genotyper.Classifier.ClassifyEach` | hcv_genotyper/genotyper.py:141 | the generator `classify(seq) for seq in seqs` run to the end: one result per sequence, each the value its key holds in the final store. A key not cached before holds the raw classification of the first sequence with that key. An error is the raw classification error of the first sequence that was not cached and failed, and every sequence before it is in the store. On either path every new key holds the raw classification of the first sequence (before the failing one) with that key, so the failing sequence adds no key. Earlier entries are kept |
| `Genotyper.Classifier.ClassifySeqs` | hcv_genotyper/genotyper.py:140-145 | on success, every sequence's key is in the store, every new key holds the raw classification of the first sequence with that key, and the result is the unanimous verdict over the sequences' stored results. An error is the raw classification error of the first sequence that was not cached and failed; then every sequence before it is in the store, every new key holds the raw classification of the first of those sequences with that key, and no other key is added. Earlier entries are kept |
| `Genotyper.Classifier.ClassifySeqsAgree` | hcv_genotyper/genotyper.py:140-145 | when no sequence is cached yet and every one classifies as the same genotype, `classify_seqs` returns that genotype |

## Left out

- BLAST itself (`do_blast_search`, `blast_search_descriptions`, genotyper.py:69-96): an external process with temporary files and XML parsing. It is the `search` function a `Classifier` is built with. Its failures (non-zero exit, missing output) are not modelled.
- `BLAST_PARAMS` and the reference-file check (genotyper.py:21-35): configuration plus a filesystem test.
- Shelve persistence, `save`/`sync` and the `atexit` hook (cache.py:12-16): the store is an in-memory map. What the file held when it was opened is a constructor parameter. A failure to open the store is not modelled.
- MD5 and UTF-8 encoding (cache.py:20-25): abstracted as the `digest` function applied to the concatenated strings. `str()` of non-string arguments is not modelled: arguments are taken already stringified, as `seq<string>`.
- Thread and process safety: the source has no locking, and the model is sequential.
- `tidy_seq_input` as a general decorator: it is modelled only where the source applies it, around `classify`.
- The cache's `fn` is called with the stringified arguments rather than the original objects. The model's `ArityError` stands for the `TypeError` a wrongly sized argument tuple would raise.
- SortByScore: states a permutation in descending score order whose head is the first highest-scoring element. It does not state that all ties keep their input order, which `sorted` also guarantees.
- `Record.Description.score` is modelled as an `int`, as the `MatchScore` annotation says.
- Cache.HomogeneousCache.Get: the computing function `fn` is a pure function and cannot call back into the cache. In the source, an `fn` that called a function decorated by the same `persistent_cache` with arguments hashing to the same key would fill that key during cache.py:32, and line 33 would then overwrite it. `Valid()`'s rule that a stored key is never computed again, and `GetOnlyGrows`, rely on this. The shipped code decorates only `classify`, which does not call back.
