# Synap: a verified model of its core

Synap is a survey platform: a Go backend keeps scales (questionnaires), their items, participants and responses, exports
them as tables, computes Cronbach's alpha, and stores end-to-end encrypted responses it cannot read. This project models
that core in Dafny and proves what it is relied on for. Code that works by changing things step by step is modelled by
classes, methods and loops, each proved against a function or a predicate; what the code promises is then proved about
those by lemmas.

Run `dafny verify dfyconfig.toml` to check everything.

## What is proved

- **Reliability.** `CronbachAlpha` computes the textbook two-pass alpha. Over the reals the clamp to 1 is dead code: the
  variance of the totals is at most k times the sum of the item variances (a Cauchy-Schwarz inequality over a matrix of
  any size), with equality exactly when every participant departs from all item means by the same amount. What alpha is
  follows from covariances taken without any mean: k / (k - 1) times the share of the totals' variance that different
  items have in common, for two items four times their covariance. Alpha does not change with the order of participants or
  items, with item-wise offsets, a common scale or reverse scoring, so it is a function of the responses although the
  matrix is built from a map in no fixed order.
- **Item store.** Over every run of adds of unused ids, updates, deletes and reorders the per-scale index of the memory
  store is the one duplicate-free list of the scale's items sorted by position and id; adding an id in use breaks it.
  `Effects` says of every operation which fields it changes to what, and what it leaves alone. Reordering is implemented
  three times (memory store, SQLite, editor reducer); the result is the only list with the listed ids first and the rest
  in old order, and the three agree exactly on the orders that need no trimming. No run leaves a response without its item
  or participant.
- **Export jobs.** `RequestExport` over a store that prunes lazily answers as one that never deletes would. For every
  interleaving at lock granularity two grants of a tenant are at least 5 s apart. That bounds the unexpired jobs, and the
  bound is reached for every lag between grant and job: at most 61 exactly while the lag stays below 5 s. The methods of
  the job store, called in any order by any number of requests, run within that transition system, and a download is
  answered only to the token drawn together with the job's id.
- **Item files.** Exporting items and importing the file restores the scale, exactly for the items whose texts and lists
  the file format can hold, whatever the order, case and padding of the columns. An import leaves the store right exactly
  if the ids it inserts are unused and differ. Column by column it is said under which name each field is written and
  read.
- **Tables.** Header disambiguation is injective exactly when no stem reads like another repeated stem with a number; the
  score export and the wide export agree; the search for a free consent column ends.
- **Answers.** A choice submitted in any language is exported in that language, in whatever order Go iterates the options,
  exactly when no label reads like a label of another option: for the service on its own and for the pipeline as it is
  wired. With unambiguous labels, what the service stores is a function of the answer, and storing is idempotent, exactly
  when no option the English list does not reach has two different non-blank labels. What is shown in a language is one
  exactly when no option without a label in that language and in English has two different labels. Histograms and day
  counts conserve responses.
- **Envelopes.** With ideal cryptography every x25519 recipient decrypts the exact payload after any later run of intakes,
  rewraps, item edits and deletions of other responses.
- **Invites.** Over every run an invite admits at most one user although its acceptance is never read.

## How the code is modelled

One module per component, listed in reading order: `Wrappers`, `Survey` (shared entities), `Text` and `Decimal` (the
string functions used); `RealSums`, `Cronbach`, `AlphaBound`, `AlphaLaws`, `Covariance`, `AlphaMatrix`, `Analytics`;
`Listing` and `Reordering` (the order items are shown in, and what a reordering is), `Filtering` (what keeping some
elements of a list leaves), `Catalogue` (the store's abstract state, its operations as functions, runs), `Effects` (what
each operation changes), `Positions`, `MemoryStore` and `SqliteStore` (the classes proved against it), `StoreRuns`,
`FreshIds`, `EditorState`, `ReorderAgreement`, `SafeOrders`; `Envelopes`, `E2EEService`; `ExportJobs`, `ExportProtocol`,
`ExportRuns`; `Headers`, `WideTable`, `ConsentColumns`; `CsvLists`, `ItemsHeader`, `ItemsCsv`, `ItemsFile`; `Options`,
`Scoring`; `Invites`.

Clocks, generated ids and tokens, the results of checks made elsewhere (tenant ownership, bot protection, password
hashing, token signing) and the outcomes of random draws are parameters. Go's 64-bit `int` is explicit where a bound
matters (`Decimal`, `ItemsCsv`); a Go `float64` is a real. A method that shares a function with its contract has that
function described once more, by what it means for the fields or the places it concerns. Choices Go leaves open (map
iteration order) are `:|` choices in methods and relations in specifications, so that a lemma holds for every order.
`Options` compares labels by an arbitrary key function, of which "trimmed and case-folded" is one. Transactions and
cursors are left out of `SqliteStore`: a query sees a snapshot and an update changes one row.

Preconditions are kept by the callers: invite tokens and job ids are fresh, clocks do not run backwards, runs start from
the empty store. No caller makes sure that an item id is unused, so `MemoryStore.Store.AddItem` and
`ItemsFile.ImportItemsCSV` take any id and say what becomes of the store; the runs of `Catalogue` are those that add
unused ids. Addresses in `Invites` are ASCII, where folding case and lower-casing agree.

## What the proofs turned up

- internal/api/store.go:469 says an item without a position is appended at the end. The position picked is the number of
  items plus one, which after a deletion may tie with the last item (`Catalogue.DefaultPositionCanTie`); exactly when it
  does append is `Catalogue.DefaultPositionAppends`, and after which histories it always does
  `Positions.OrderlyRunsAppend`. SQLite always appends.
- SQLite trims the ids of a reorder and skips empty ones, the other two implementations do not: they agree on every table
  exactly if all ids of the order are trimmed (`SafeOrders.SafeIffTrimmed`), and on tables of trimmed ids exactly if the
  trimmed order first mentions the same ids in the same sequence as its already trimmed ids
  (`SafeOrders.SafeForTrimmedIff`). Ids of no item of the scale leave gaps in SQLite's positions
  (`ReorderAgreement.SqlitePositions`).
- No caller makes sure that an item id is unused: internal/services/scale_service.go:157-160 fills in an empty id only,
  and the import (:460) inserts ids as it reads them. On an id in use the memory store's list keeps an object the map no
  longer holds (`MemoryStore.Store.AddItem`, on values `FreshIds.AddKeepsIndexIffFresh`), and such a store is never right
  again by adding more. So importing a scale's own file where it came from breaks the index (`ItemsFile.OwnFileNotFresh`
  with `ItemsFile.ImportItemsCSV`). SQLite drops the newcomer instead, and only logs it.
- What the service, on its own, stores for an option the English list does not reach may differ from run to run, because
  Go iterates the languages in no fixed order; exactly when is `Options.CanonicalUnique`, an instance `Options.OuiOrJa`.
  As wired nothing is put into English, so this does not show. What an export shows may differ as well: exactly when is
  `Options.RelabelUnique`, an instance `Options.OuiOrJaInChinese`.
- internal/services/scale_service.go:458 answers a bad row with a count of 0 although earlier rows stay imported.
- internal/api/response_service_adapter.go:30-40 hands items over without options and bounds, so as wired no stored choice
  is put into English and no number of a rating, slider or numeric item is out of range; a Likert number off the scale
  still scores 0 (`Scoring.SeenForgets`). The export recognises the stored labels all the same
  (`Scoring.ExportedIffUnambiguous`).
- Without labels, a consent column overwrites an item column of the same name (`ConsentColumns.PlainOverwrites`).
- The throttle spaces the grants, not the jobs: requests held up between the two have no bound on the jobs alive
  (`ExportProtocol.StalledRequestsPileUp`). Within a lag the exact maximum is (lifetime + lag) / 5 s + 1, rounded down
  before the addition (`ExportProtocol.BoundIsExact`), hence 61 exactly for lags below 5 s.
- `itoa` prints the least 64-bit integer as a lone minus sign (`Decimal.AtoiOfItoa`).
## Model

| member | source | states |
|---|---|---|
| Cronbach.CronbachAlpha | internal/services/cronbach.go:7-77 | the two passes over the matrix, with the ragged-row exit, return the alpha defined from population variances; 0 for no rows, fewer than two items, a ragged matrix or constant totals |
| Cronbach.AccumulateRows | internal/services/cronbach.go:21-32 | the first pass leaves the row totals and the column sums, and says whether a row has another length |
| Cronbach.SecondPass | internal/services/cronbach.go:33-58 | from totals and column sums the second pass gets the variance of the totals and of every item |
| Covariance.VarianceIsCovariance | internal/services/cronbach.go:43-58 | the population variance equals the covariance of the values with themselves, taken from sums of raw answers and products alone |
| Covariance.TotalVarianceByPairs | internal/services/cronbach.go:37-58 | what the variance of the totals has over the item variances is the sum of the covariances of all pairs of different items |
| Covariance.AlphaByPairs | internal/services/cronbach.go:59-76 | of k items, k - 1 times the variance of the totals times the unclamped alpha is k times the sum of the covariances of different items; alpha is that value, or 0 if the sum is not positive |
| Covariance.AlphaOfTwoItems | internal/services/cronbach.go:59-76 | of two items the variance of the totals times the unclamped alpha is four times their covariance |
| Covariance.NoAlpha | internal/services/cronbach.go:10-66 | alpha is 0 without participants, with fewer than two items, with a ragged row and with totals that do not vary |
| AlphaBound.TotalVarianceBound | internal/services/cronbach.go:37-69 | for every rectangular matrix the variance of the totals is at most k times the sum of the item variances, and equal to it exactly when all items have the same deviations |
| AlphaLaws.UpperClampNeverFires | internal/services/cronbach.go:68-76 | the unclamped alpha never exceeds 1, so only the lower clamp can change it; alpha is 1 exactly when it is defined and all items have the same deviations |
| RealSums.SquareOfSum | internal/services/cronbach.go:48-58 | the inequality behind the bound: n times the sum of squares is at least the square of the sum, with equality only for a constant sequence |
| AlphaLaws.VarianceNotNegative | internal/services/cronbach.go:37-58 | a population variance is never negative |
| AlphaLaws.AlphaIgnoresParticipantOrder | internal/services/cronbach.go:7-77 | matrices with the same rows in another order have the same alpha |
| AlphaLaws.AlphaIgnoresItemOrder | internal/services/cronbach.go:7-77 | matrices with permuted columns have the same alpha |
| AlphaLaws.AlphaIgnoresScaleAndOffsets | internal/services/cronbach.go:7-77 | adding a constant per item and scaling all items by one factor other than 0 leaves alpha unchanged |
| AlphaLaws.AlphaIgnoresDirection | internal/services/score.go:6-17 | reverse-scoring every item of in-range answers leaves alpha unchanged |
| AlphaLaws.ReverseTwice | internal/services/score.go:6-17 | reversing twice clamps to the scale, hence is the identity on allowed answers; below two points it is always the identity |
| AlphaMatrix.FilterLikertIds | internal/services/analytics_service.go:92-100 | exactly the ids of items of type likert or without a type |
| AlphaMatrix.BuildAlphaMatrix | internal/services/analytics_service.go:129-159 | one row per participant who answered every Likert item, in some order, holding the last score per item by ascending item id; n is their number |
| AlphaMatrix.MatrixCell | internal/services/analytics_service.go:141-157 | the cell of a participant and an item is the score of the last answer the one gave to the other |
| AlphaMatrix.CompleteRows | internal/services/analytics_service.go:141-157 | whatever order the map is walked in, exactly the complete participants get a row, each one |
| AlphaMatrix.AlphaOfResponses | internal/services/analytics_service.go:129-159 | any two orders the rows may come in give the same alpha and the same n, so both are functions of the responses |
| AlphaMatrix.CountedParticipants | internal/services/analytics_service.go:141-158 | a participant is counted exactly if every Likert item has an answer of theirs |
| Analytics.BuildAnalyticsItems | internal/services/analytics_service.go:102-127 | slot v-1 of an item counts its scores v, its total counts its in-range scores, and the day counts count the responses of each day |
| Analytics.SlotCountsResponses | internal/services/analytics_service.go:115-122 | slot v - 1 is the number of responses to the item with the score v |
| Analytics.TotalCountsResponses | internal/services/analytics_service.go:115-122 | the total is the number of responses to the item with a score on the scale |
| Analytics.DayCountsResponses | internal/services/analytics_service.go:123-125 | a day is counted exactly if something was submitted on it, and its count is the number of responses submitted on it |
| Analytics.HistogramConserves | internal/services/analytics_service.go:115-122 | the histogram of every item sums to its total |
| Analytics.BuildTimeseries | internal/services/analytics_service.go:161-172 | one entry per day counted, in ascending order of date |
| Analytics.DaysConserve | internal/services/analytics_service.go:123-172 | the day counts sum to the number of responses |
| Analytics.CountsConserve | internal/services/analytics_service.go:115-125 | counting key by key over distinct keys counts every place holding a key exactly once |
| Listing.ListingUnique | internal/api/store.go:581-594 | there is only one list of exactly the scale's items, without duplicates, sorted by position and id |
| Listing.IsListingOf | internal/api/store.go:581-594 | being that list is the same as equalling the item map filtered by scale and sorted |
| Listing.ListedByPosition | internal/api/store.go:587-592 | of two listed items the first has the smaller position, or the same and an id that is a prefix of the other or smaller where they first differ |
| MemoryStore.Store.ListItems | internal/api/store.go:581-594 | lists the item map filtered by scale and sorted by position, then id; every object listed is the one in the map |
| MemoryStore.Store.AddItem | internal/api/store.go:465-483 | stores the object with its position, or the length of its list plus one, under its id and in its list; a right index stays right exactly if the id was unused, and the state is then the abstract one; otherwise a list shows an object the map no longer holds, and adding more never mends that |
| MemoryStore.Store.UpdateItem | internal/api/store.go:491-548 | merges the patch into the object field by field, resorts the list, and answers whether the item exists; what becomes of each field is Effects.UpdateItemEffect |
| MemoryStore.Store.DeleteItem | internal/api/store.go:550-579 | removes the item from map and index and its responses, and no other object; nothing for an unknown id |
| MemoryStore.Store.DeleteScale | internal/api/store.go:439-463 | removes the scale, exactly the items of it, which the index lists, and their responses; relies on the index being complete |
| MemoryStore.Store.ReorderItems | internal/api/store.go:597-629 | gives the listed items positions 1, 2, 3, ... at their first mention and the rest the following ones, in place |
| MemoryStore.Store.ListResponsesByScale | internal/api/store.go:759-771 | exactly the responses to the scale's items, in stored order |
| MemoryStore.Store.DeleteResponsesByScale | internal/api/store.go:786-813 | drops the scale's plain and encrypted responses and returns exactly how many |
| MemoryStore.Store.DeleteParticipantByID | internal/api/store.go:907-931 | a hard delete removes the participant and the responses, a soft one blanks the address; answers whether the participant exists |
| MemoryStore.Store.AppendE2EEEncDEK | internal/api/store.go:715-726 | appends the envelope at the end of the first response of that id; nothing for an unknown id |
| MemoryStore.Store.ListE2EEResponses | internal/api/store.go:684-694 | exactly the scale's encrypted responses, in stored order |
| MemoryStore.Store.DeleteE2EEResponse | internal/api/store.go:728-744 | removes the first response of that id and keeps the others in order |
| StoreRuns.PerformOne | internal/api/store.go:439-931 | every operation keeps index, map and objects in step and does to them what it does to the abstract state |
| StoreRuns.Perform | internal/api/store.go:439-931 | from the empty store on, after every run of operations each per-scale list is the one sorted duplicate-free list of the scale's own objects, and the store holds what the abstract run holds |
| FreshIds.AddKeepsIndexIffFresh | internal/api/store.go:465-483 | adding an item leaves the index right exactly if its id was not in use |
| Catalogue.RunKeepsConsistent | internal/api/store.go:439-931 | over any run every stored response keeps an existing item and participant, and every item a position of at least 1 |
| Catalogue.NoDanglingResponses | internal/api/store.go:439-463 | from the empty store on, no run of adds, updates, deletes, reorders, submissions and purges leaves a response without its item or its participant |
| Catalogue.ReorderLists | internal/api/store.go:597-629 | after a reorder the scale is listed as the reordering of its old list, a permutation with positions 1..n; other scales are listed as before |
| Catalogue.DeleteItemLists | internal/api/store.go:550-579 | deleting an item takes it out of its list and moves no other |
| Catalogue.DefaultPositionAppends | internal/api/store.go:469-473 | an item without a position goes to the end of its list exactly if every item sorts before the position the code picks |
| Catalogue.AppendsAfterReorder | internal/api/store.go:469-473 | after a reorder an item without a position always goes to the end |
| Catalogue.DefaultPositionCanTie | internal/api/store.go:469-473 | after deleting an earlier item the newcomer may be listed first |
| Positions.RunKeepsPositions | internal/api/store.go:465-629 | while positions in a scale are left to the store and to reordering and only its last items are deleted, they stay 1..n |
| Positions.OrderlyRunsAppend | internal/api/store.go:469-473 | after every such run an item without a position goes to the end, at the next position |
| Catalogue.PurgeIsLocal | internal/api/store.go:786-813 | purging a scale empties it, accounts for every entry removed, and leaves the other scales' responses as they were, in order |
| Catalogue.DroppingIsLocal | internal/api/store.go:786-813 | dropping the answers to some items removes exactly those; lists of answers to other items stay as they were |
| Catalogue.UpdateLaws | internal/api/store.go:491-548 | sending a patch twice is sending it once, an item never changes its scale, and the guarded flag is copied in every case |
| Effects.UpdateItemEffect | internal/api/store.go:491-548 | every field the patch gives is the patch's afterwards, every field it does not give is the old one, the three flags are always the patch's; no other item changes |
| Effects.AddItemEffect | internal/api/store.go:465-483 | a new item is stored as given, at its position or at the number of items of its scale plus one |
| Effects.ReorderEffect | internal/api/store.go:597-629 | reordering changes positions only, and only of the scale's items |
| Effects.DeleteItemEffect | internal/api/store.go:550-579 | exactly the one item goes; nothing but items and responses changes |
| Effects.DeleteItemDropsAnswers | internal/api/store.go:570-577 | the responses left are those to other items, as often and in the order they stood |
| Effects.DeleteScaleEffect | internal/api/store.go:439-463 | exactly the scale and its items go; encrypted responses stay |
| Effects.DeleteScaleDropsAnswers | internal/api/store.go:453-460 | the responses left are those that answer no item of the scale, in order |
| Effects.DeleteParticipantEffect | internal/api/store.go:907-931 | a hard deletion removes the participant, a soft one leaves a blank address; no other participant changes |
| Effects.DeleteParticipantDropsAnswers | internal/api/store.go:913-920 | either way the responses left are those of other participants, in order |
| Effects.MissingChangesNothing | internal/api/store.go:439-931 | deleting what is not there changes nothing |
| Effects.PurgeEffect | internal/api/store.go:786-813 | the responses left are those that answer no item of the scale, the encrypted ones those of other scales, both in order; nothing else changes |
| Effects.RecordingEffect | internal/api/store.go:439-931 | a submission registers its participant and puts its responses behind those there are; an encrypted response comes last; a scale is added; nothing else changes |
| Effects.CleanupEffect | internal/api/store.go:816-832 | the responses left are those submitted at the cutoff or later, in order; nothing else changes |
| Effects.WantedResponses | internal/api/store.go:759-771 | listing by scale picks the responses to the wanted items, in order |
| Effects.SealedOfScale | internal/api/store.go:684-694 | listing encrypted responses picks those of the scale, in order |
| Effects.RewrapEffect | internal/api/store.go:715-726 | a rewrap puts its envelope behind those of the first response of that id and touches nothing else |
| Effects.DeleteSealedEffect | internal/api/store.go:728-744 | the first response of the id goes, those behind it move up by one |
| Reordering.ReorderingUnique | internal/api/store.go:597-629 | a list is a reordering (the listed members first by first mention, then the rest in old order, nothing else) exactly if it is the one computed |
| Reordering.ReorderedIsPermutation | internal/api/store.go:597-629 | reordering by any list of ids loses and invents nothing |
| Reordering.ReorderTwice | frontend/src/pages/scale-editor/state.ts:280-298 | asking for the order shown changes nothing, and asking twice is asking once |
| SqliteStore.Store.NextItemPosition | internal/db/sqlite_store.go:528-539 | a position one above the greatest of the scale, 1 for an empty scale |
| SqliteStore.Store.AddItem | internal/db/sqlite_store.go:541-589 | stores a positioned item as it is; an item without a position gets the one above the greatest of its scale and is listed last; an item whose id is taken changes nothing |
| SqliteStore.Store.ReorderItems | internal/db/sqlite_store.go:683-752 | false for a blank scale id; otherwise the rows named, trimmed, get the positions of their first mention and the remaining rows the following ones |
| SqliteStore.ReorderMovesOnly | internal/db/sqlite_store.go:683-752 | only positions change, and only in rows of the scale |
| ReorderAgreement.SqliteReorderLists | internal/db/sqlite_store.go:683-752 | the table then lists the reordering of the old list by the trimmed non-empty ids |
| ReorderAgreement.SqliteReorderIsLocal | internal/db/sqlite_store.go:683-752 | other scales are listed as before |
| ReorderAgreement.SqlitePositions | internal/db/sqlite_store.go:699-740 | positions come out as 1..n exactly if no id that is not of the scale is mentioned among the first n places |
| ReorderAgreement.SqliteGap | internal/db/sqlite_store.go:699-740 | in any table, one unknown id leaves the only item of a scale at position 2 |
| ReorderAgreement.ThreeReorderingsAgree | frontend/src/pages/scale-editor/state.ts:280-298 | for any order, repeated, unknown or foreign ids included, the memory store and the editor show the reordering by the ids as given, SQLite the one by the ids trimmed; on trimmed ids the three lists are one |
| ReorderAgreement.UntrimmedIdsDisagree | internal/db/sqlite_store.go:699-712 | for instance an id with a leading blank moves its item in SQLite only |
| SafeOrders.SafeIffTrimmed | internal/db/sqlite_store.go:699-712 | the memory store and SQLite show the same list on every table exactly if every id of the order is trimmed |
| SafeOrders.SafeForTrimmedIff | internal/db/sqlite_store.go:699-712 | on tables whose item ids are trimmed they do so exactly if the order, trimmed, first mentions the same ids in the same sequence as the ids in it that are trimmed already |
| EditorState.ReorderItems | frontend/src/pages/scale-editor/state.ts:280-298 | for a listed id, in the order of first mention, the last entry that has it, then every entry with another non-empty id; all entries taken from the old list and none without an id; the selection stays |
| EditorState.UnlistedPicked | frontend/src/pages/scale-editor/state.ts:293-296 | the entries behind the listed ones are those with a non-empty id that is not listed, in order |
| EditorState.RemoveItem | frontend/src/pages/scale-editor/state.ts:267-271 | keeps exactly the entries of other ids and those without one, in order, and clears the selection if it was removed |
| EditorState.OthersPicked | frontend/src/pages/scale-editor/state.ts:267-271 | the entries left are those of any other id or of none, in order |
| EditorState.RemovedIds | frontend/src/pages/scale-editor/state.ts:267-271 | removing takes one id out of the list and moves no other |
| EditorState.EditorReorders | frontend/src/pages/scale-editor/state.ts:280-298 | on lists without empty ids the reducer computes the stores' reordering; an empty order changes nothing |
| Envelopes.EncryptForProject | frontend/src/crypto/e2ee.ts:50-105 | one ciphertext and one envelope per key that decodes, in the order of the keys |
| Envelopes.WrappedPerKey | frontend/src/crypto/e2ee.ts:60-100 | key by key: the j-th envelope wraps the data key for the j-th key that decodes, under an ephemeral key and a nonce drawn for that key alone; an RSA key's envelope is its own wrapping |
| Envelopes.DecryptSingleWithX25519 | frontend/src/crypto/e2ee.ts:107-139 | the first envelope that opens decides the key; none is an error |
| Envelopes.ReadsMeans | frontend/src/crypto/e2ee.ts:107-139 | a payload is read exactly if some envelope is the first that opens and what is in it opens the ciphertext to that payload |
| Envelopes.OneBlockIsEnough | frontend/src/crypto/e2ee.ts:32-42 | the single block is the output of HKDF-Expand (section 2.3 of RFC 5869) for every length up to one hash |
| Envelopes.KekIsHkdf | frontend/src/crypto/e2ee.ts:74-76 | the wrapping key is HKDF's of 32 bytes, with the ephemeral public key as salt, the shared secret as input and "synap-e2ee" as info |
| Envelopes.IdealSuiteExists | frontend/src/crypto/e2ee.ts:50-139 | the assumptions on the primitives (commuting Diffie-Hellman, decryption undoes encryption and opens nothing else, a ciphertext has one plaintext) can be met, even by primitives where every other key fails and shared secrets differ |
| Envelopes.UnwrapOfWrap | frontend/src/crypto/e2ee.ts:67-84 | the addressee of an envelope opens it to the key wrapped, and whoever opens it gets that key |
| Envelopes.EveryRecipientReads | frontend/src/crypto/e2ee.ts:50-139 | every x25519 recipient decrypts the exact payload, and whoever decrypts anything decrypts the payload |
| Envelopes.GrowthKeepsReaders | frontend/src/crypto/e2ee.ts:112-129 | envelopes appended later change nothing for anyone who could read |
| Envelopes.RewrapAddsReader | frontend/src/crypto/e2ee.ts:112-129 | an appended envelope with the record's key lets a new recipient read the payload |
| E2EEService.IntakeResponse | internal/services/e2ee_service.go:161-204 | stores one more response at the end, whose scale, ciphertext, nonce and envelopes are the submitted ones and whose id is the submitted or, if blank, the generated one, which is answered; the error of the first check that fails otherwise, changing nothing |
| E2EEService.EncryptAndTakeIn | internal/services/e2ee_service.go:161-204 | a submission encrypted for the project adds one response, from which every registered recipient reads exactly the payload and nobody reads anything else |
| E2EEService.SubmitRewrap | internal/services/e2ee_service.go:315-332 | appends the envelopes up to the first unknown response and keeps those; succeeds exactly if the tenant owns the scale and every response is known |
| E2EEService.RewrappedEnvelopes | internal/services/e2ee_service.go:315-332 | seen from one response: the first of an id gets the envelopes of that id in the order of the request, up to the first unknown id; all else stays |
| E2EEService.RunKeeps | internal/api/store.go:677-744 | over any run that does not delete it a stored response stays, its envelope list only growing at the end |
| E2EEService.ReadersKeepReading | internal/services/e2ee_service.go:161-332 | whoever can read a stored response reads the same payload after any later run that does not delete it, from the list the bundle is built of |
| E2EEService.RegisteredRecipientsRead | internal/services/e2ee_service.go:161-204 | what intake stores of an encrypted submission can be read by every registered recipient after any later run that does not delete it, from the bundle of its scale, under the id answered |
| E2EEService.NothingForged | internal/services/e2ee_service.go:161-332 | every stored response is a grown form of one stored before or taken in during the run |
| ExportJobs.JobStore.CreateExportJob | internal/api/store.go:1134-1154 | the job expires after its lifetime; other expired jobs are pruned, which the never-deleting ledger does not notice |
| ExportJobs.JobStore.GetExportJob | internal/api/store.go:1156-1170 | a job answered has the id asked for, is unexpired and has the non-empty token given; none is answered only if the never-deleting ledger has no such job |
| ExportJobs.JobStore.FindRecentExportJob | internal/api/store.go:1172-1193 | finds a job exactly if the never-deleting ledger has an unexpired match of the tenant, scale, address and window |
| ExportJobs.JobStore.AllowExport | internal/api/store.go:1195-1204 | allows exactly if no grant of the tenant is younger than the interval, and records the time of the grant |
| ExportJobs.ReusableFor30Seconds | internal/services/e2ee_service.go:215-219 | a job is reused for its tenant and scale, by its own or an unknown address, for exactly 30 s of its 300 s |
| ExportJobs.RequestExport | internal/services/e2ee_service.go:206-235 | reuses a matching job without touching the throttle, else creates one if the throttle allows it, else refuses; nothing for a scale of another tenant |
| ExportProtocol.RunKeepsInv | internal/services/e2ee_service.go:206-235 | over every interleaving of requests at lock granularity grants stay spaced and every job stems from a grant of its own |
| ExportProtocol.GrantsAreSpaced | internal/api/store.go:1195-1204 | any two grants of one tenant are at least 5 s apart, however requests interleave |
| ExportProtocol.AliveBound | internal/services/e2ee_service.go:215-234 | a tenant has at most (lifetime + lag) / 5 s + 1 unexpired jobs, lag bounding the time from a grant to its job |
| ExportProtocol.BoundIsReached | internal/services/e2ee_service.go:215-234 | for every lag some run within it ends with exactly that many unexpired jobs |
| ExportProtocol.BoundIsExact | internal/services/e2ee_service.go:215-234 | so a count is never exceeded within a lag exactly if it is at least (lifetime + lag) / 5 s + 1 |
| ExportProtocol.AtMostSixtyOne | internal/services/e2ee_service.go:215-234 | a tenant never has more than 61 unexpired jobs exactly if every job follows its grant within less than 5 s; 61 do occur without any lag, 62 at a lag of 5 s |
| ExportProtocol.StalledRequestsPileUp | internal/services/e2ee_service.go:215-234 | without a bound on the lag any number of jobs can be alive at one instant |
| ExportRuns.Search | internal/api/store.go:1172-1193 | a request that looks for a recent job takes a step the transition system has, whatever the store has pruned |
| ExportRuns.AskThrottle | internal/api/store.go:1195-1204 | so does one that asks the throttle, and it goes on exactly if granted |
| ExportRuns.Issue | internal/api/store.go:1134-1154 | so does one that creates its job |
| ExportRuns.Fetch | internal/api/store.go:1156-1170 | so does a download, which is answered as by a store that never deletes |
| ExportRuns.Serve | internal/services/e2ee_service.go:206-235 | whatever order requests get to their locks in, what the job store does is a run of the transition system; a download is answered only to the token drawn before together with the id it names |
| ExportRuns.HeldIsBounded | internal/services/e2ee_service.go:215-234 | so the store itself never holds more than (lifetime + lag) / 5 s + 1 unexpired jobs of a tenant, 61 for lags below 5 s |
| Decimal.ItoaInBuffer | internal/services/export.go:145-168 | for every 64-bit integer the digits stay inside the 20-byte buffer and spell the canonical numeral |
| Decimal.DigitsOfNumeral | internal/services/export.go:156-162 | the i-th digit from the right is the i-th decimal place |
| Decimal.NumeralsOutOfRange | internal/services/scale_service.go:263 | a plus sign is allowed; a numeral beyond 64 bits reads as the nearest integer that fits |
| Decimal.AtoiOfItoa | internal/services/export.go:145-168 | printing and parsing gives a 64-bit integer back exactly if it is not the least one |
| Decimal.ItoaInjective | internal/services/export.go:145-168 | different 64-bit integers print differently |
| CsvLists.JoinList | internal/services/export.go:188-201 | the entries with a blank, a bar and a blank between them |
| CsvLists.CsvSplitList | internal/services/scale_service.go:265-290 | splits at bars if there is one, else at commas, trims and drops empty parts |
| CsvLists.SplitOfJoin | internal/services/scale_service.go:265-290 | a list written and split again is itself exactly if its entries are trimmed, non-empty and free of bars, a single entry also free of commas |
| CsvLists.CommasSeparate | internal/services/scale_service.go:265-290 | entries separated by commas are read one by one as long as there is no bar |
| ItemsHeader.IndexOfInsensitive | internal/services/scale_service.go:227-234 | the first column whose trimmed name equals the one wanted up to case, or -1 |
| ItemsHeader.CellsOfOwnHeader | internal/services/scale_service.go:236-256 | under the exporter's header every column is read from its own place |
| ItemsHeader.CellsIgnoreLayout | internal/services/scale_service.go:227-256 | moving columns, changing the case of their names or padding them does not change what is read from a row |
| ItemsCsv.ExportRecord | internal/services/export.go:202-236 | the 17 cells of an item |
| ItemsCsv.WrittenUnderNames | internal/services/export.go:180-236 | under which name the file has the id, the type, each number and each flag, and how they are spelt |
| ItemsCsv.TextsUnderNames | internal/services/export.go:180-236 | under which name it has each text and each list, "" standing for an absent one |
| ItemsCsv.BuildItemFromRow | internal/services/scale_service.go:372-418 | the item a row denotes, with the defaults for absent columns, or an error if both stems are blank |
| ItemsCsv.ItemOfRow | internal/services/scale_service.go:372-418 | a row is refused exactly if both stem columns are blank; id, position and stems come from the columns of those names, the id being made up if blank |
| ItemsCsv.PlainFieldsOfRow | internal/services/scale_service.go:385-400 | type and numbers come from the columns of those names; no type means Likert |
| ItemsCsv.FlagsOfRow | internal/services/scale_service.go:258-261 | a flag is set by 1, true, yes or y, whatever the case, in the column of its name |
| ItemsCsv.TextsAndListsOfRow | internal/services/scale_service.go:308-370 | placeholders, options and labels have a language exactly if its column is not blank, and hold what is in it |
| ItemsCsv.TextsComeBack | internal/services/scale_service.go:308-354 | texts by language survive exactly if they are absent altogether, or given in English or Chinese only, trimmed and non-empty |
| ItemsCsv.ListsComeBack | internal/services/scale_service.go:324-370 | so do option and label lists, exactly if every list given is non-empty and survives splitting |
| ItemsCsv.ItemComesBack | internal/services/scale_service.go:372-418 | a written item is read back, in the scale imported into, exactly if it is normal: trimmed non-empty id and type, texts and lists that survive, no least 64-bit integer |
| ItemsFile.ExportItems | internal/services/export.go:172-242 | the header, then one record per item in the order of position and id |
| ItemsFile.ExportFollowsListing | internal/services/export.go:174-179 | handed a scale's items in any order, the file has them in the order the scale is listed in |
| ItemsFile.FileComesBack | internal/services/scale_service.go:451-464 | all rows of an exported file come back exactly if every item is normal |
| ItemsFile.ImportItemsCSV | internal/services/scale_service.go:422-467 | the error of each failed check, in their order; otherwise the items up to the first row without a stem are added one by one, replacing items of the same ids, the count being reported only if there is no such row; the index is right afterwards exactly if those ids are unused and differ, and the state is then the abstract one |
| ItemsFile.RowsRead | internal/services/scale_service.go:451-464 | blank rows are skipped; every other row before the first one without a stem gives one item, in order, and none from that row on does |
| ItemsFile.BlankMeans | internal/services/scale_service.go:452-454 | a row is skipped exactly if all its cells are blank |
| ItemsFile.PlacedItem | internal/services/scale_service.go:451-464 | of several items of one id the last stays, at its position or where the end of the list was |
| ItemsFile.ImportRestoresListing | internal/services/scale_service.go:420-467 | a scale of normal items exported from one store and imported into an empty scale of another one is listed there as here, item by item; the other scales of that store do not change |
| ItemsFile.OwnFileNotFresh | internal/services/scale_service.go:422-467 | a scale's own file, imported into the store it came from, names ids in use; by ImportItemsCSV the index is wrong afterwards |
| ItemsFile.ImportIgnoresLayout | internal/services/scale_service.go:227-256 | a file with its columns moved, renamed in case or padded imports as the same items |
| Headers.UniqueNames | internal/services/export_service.go:148-178 | every item gets its base name, numbered from the second occurrence of the name on |
| Headers.PreferredStem | internal/services/export_service.go:148-239 | the base name is the stem in the language asked for, else the English one, else the id, empty stems not counting |
| Headers.HeaderNumbered | internal/services/export_service.go:148-178 | the n-th item of a name is called by the name if n is 1 and by the name and the number n otherwise |
| Headers.SameBases | internal/services/export_service.go:193-276 | the three versions of the renaming choose the same base names |
| Headers.SuffixedInjective | internal/services/export_service.go:174 | a numbered name determines the name and the number |
| Headers.HeadersDistinct | internal/services/export_service.go:148-178 | distinct items get distinct headers exactly if no stem reads like another repeated stem with one of its numbers |
| Headers.AmbiguousStems | internal/services/export_service.go:148-178 | three stems that give two items one header |
| WideTable.BuildWideMap | internal/services/export_service.go:414-423 | one row per participant, one cell per item answered |
| WideTable.WideCells | internal/services/export_service.go:414-423 | a cell exists exactly for an answered item and holds the last answer's score |
| WideTable.BuildTotals | internal/services/export_service.go:425-431 | every score of every participant, in stored order |
| WideTable.ExportScore | internal/services/export.go:122-143 | one row per participant in ascending order of id, with the sum of the scores |
| WideTable.ScoreMinusWide | internal/services/export.go:122-143 | a participant's total in the score export exceeds the sum of the cells of the wide export by exactly the scores of overwritten answers |
| WideTable.ScoreEqualsWide | internal/services/export.go:122-143 | with one answer per item the total equals the sum of the cells |
| WideTable.ApplyItemHeaders | internal/services/export_service.go:193-239 | every row with its cells under their headers; cells without an item keep their column |
| WideTable.RenamedCell | internal/services/export_service.go:193-239 | where no two columns share a name, each cell of an item stands under the item's name and any other cell where it was |
| WideTable.RenamingLosesNothing | internal/services/export_service.go:179-189 | renaming keeps every cell of a row exactly if no two of its columns get one name |
| WideTable.RenamedScoreEqualsWide | internal/services/export_service.go:148-190 | with unambiguous stems and one answer per item the renamed wide row still has all cells and sums to the participant's total |
| ConsentColumns.ColName | internal/services/export_service.go:491-502 | the unbounded search ends, at the base name or the first free numbered one |
| ConsentColumns.FreeNameFound | internal/services/export_service.go:491-502 | a free base name is taken as it is; otherwise the least number from 2 on that makes it free is added |
| ConsentColumns.ColumnNamed | internal/services/export_service.go:601-625 | the label of the first option of the key, in Chinese where asked for, else in English, else the key behind "consent." |
| ConsentColumns.TriedFit | internal/services/export_service.go:496-501 | no more numbered names are taken than the row has columns |
| ConsentColumns.MergeLabelled | internal/services/export_service.go:521-535 | whatever order the choices are walked in, each gets a new column named by its label or key |
| ConsentColumns.LabelledAddsOnePerChoice | internal/services/export_service.go:521-535 | in label mode merging changes no cell and adds exactly one column per choice, saying whether it was ticked |
| ConsentColumns.MergePlain | internal/services/export_service.go:521-535 | without labels each choice is written to the column of its key |
| ConsentColumns.PlainCell | internal/services/export_service.go:521-535 | without labels a choice stands in the column of its key, ticked or not |
| ConsentColumns.PlainKeepsCells | internal/services/export_service.go:521-535 | without labels merging keeps all cells exactly if every column it hits already holds the value written |
| ConsentColumns.PlainOverwrites | internal/services/export_service.go:521-535 | an item column named like a consent column loses its score |
| ConsentColumns.MergeConsentWide | internal/services/export_service.go:478-537 | the rows of the participants exported are merged with their consent for this scale, all others stay as they are |
| ConsentColumns.ConsentCounts | internal/services/export_service.go:505-520 | a consent counts for the scale it was given for and for no other |
| Options.FindIndex | internal/services/response_service.go:225-235 | the first match in some language that has one, -1 exactly if none has |
| Options.GetEnglish | internal/services/response_service.go:212-224 | the English label, else some language's non-blank label, else nothing |
| Options.GetByIdx | internal/services/export_service.go:351-365 | the label in the language asked for, else in English, else in some language |
| Options.NormalizeRawToEnglish | internal/services/response_service.go:205-267 | a text or each text of a list is replaced by its English label where there is one; other documents stay |
| Options.StoredInEnglish | internal/services/response_service.go:212-250 | on unambiguous labels an option is stored as its English label unless that is empty, without an English entry as some non-blank label of it, else as it came |
| Options.TextByText | internal/services/response_service.go:236-267 | lists are stored text by text, and null as the empty text, staying null if nothing else becomes of it |
| Options.CanonicalOfUnknown | internal/services/response_service.go:225-250 | a text that is no label is stored as it came |
| Options.OtherDocumentsStay | internal/services/response_service.go:205-267 | documents other than texts, lists of texts and null are stored as they came, and so is everything without options |
| Options.MapRawJSONToLang | internal/services/export_service.go:346-404 | a text, or the texts of a list joined by a comma, in the language asked for where they match an option |
| Options.ShownInLanguage | internal/services/export_service.go:346-383 | on unambiguous labels an option is shown as its label in the language asked for, else the English one, else some language's, empty ones not counting, else as it is stored |
| Options.ShownTextByText | internal/services/export_service.go:366-404 | lists are shown text by text with a comma and a blank between them, and null as the empty text |
| Options.RelabelOfUnknown | internal/services/export_service.go:366-383 | a text that is no label is shown as it is |
| Options.OptionComesBack | internal/services/export_service.go:346-404 | an option submitted in a language, up to case and blanks, is shown in that language as its own label, in whatever order the languages are tried |
| Options.OptionsComeBack | internal/services/export_service.go:384-402 | the same for every option of a multiple choice, in the order chosen |
| Options.ComesBackIffUnambiguous | internal/services/response_service.go:205-267 | on aligned lists every option of every language comes back in every order exactly if no label reads like a label of another option |
| Options.CanonicalUnique | internal/services/response_service.go:212-235 | on unambiguous labels the stored form of a text does not depend on the order the languages are tried in exactly if no option the English list does not reach has two different non-blank ones; and storing a stored text again changes nothing under exactly that condition |
| Options.CanonicalTwice | internal/services/response_service.go:205-267 | the same for whole answers, lists and null included: both the stored form being a function of the answer and storing it again changing nothing |
| Options.NoEnglishNoOrder | internal/services/response_service.go:216-223 | of an option with two labels and no English one, the text of the one may be stored as either |
| Options.OuiOrJa | internal/services/response_service.go:216-223 | for instance "Oui" may be stored as "Oui" or as "Ja" |
| Options.RelabelUnique | internal/services/export_service.go:351-365 | on unambiguous labels the text shown does not depend on that order exactly if no option without a label in the language asked for and in English has two different ones |
| Options.OuiOrJaInChinese | internal/services/export_service.go:351-365 | for instance either label of an option with neither a Chinese nor an English one may be shown in Chinese |
| Options.ShownUnique | internal/services/export_service.go:346-404 | the same for whole answers |
| Options.RecognisedIffUnambiguous | internal/services/export_service.go:346-404 | on aligned lists the export alone shows every stored label as itself in its language, in every order, exactly if no label reads like a label of another option |
| Options.OptionsRecognised | internal/services/export_service.go:384-402 | several options stored as they came are shown as their own labels, in the order chosen |
| Scoring.BuildResponseForItem | internal/services/response_service.go:152-201 | raw value, score and stored answer for every item type, with out-of-range numbers kept but not scored |
| Scoring.LikertScores | internal/services/response_service.go:160-175 | a point of the scale scores itself, or counted from the other end on a reversed item, whose reversal gives it back; any other answer scores 0 |
| Scoring.NumericScores | internal/services/response_service.go:176-187 | a number within the bounds scores itself, any other 0; an upper bound of 0, or 0 on both sides, is none |
| Scoring.ChoicesScoreNothing | internal/services/response_service.go:188-190 | answers to items of other types, and answers without a number, score nothing |
| Scoring.DocumentKept | internal/services/response_service.go:152-201 | participant, item and time are the submission's; scored items keep the document as it came, or the number as a numeral |
| Scoring.NumbersRead | internal/services/response_service.go:269-287 | an integer given as one or spelt in a text, blanks around it or not, is the number of an answer; a list has none |
| Scoring.SeenForgets | internal/api/response_service_adapter.go:30-40 | through the adapter every submitted document is stored as it came and the number of a rating, slider or numeric item is always scored; a Likert number off the scale still scores 0 |
| Scoring.ProcessBulkResponses | internal/services/response_service.go:76-120 | one response per answer naming an item, registered with the one participant; nothing is stored if the scale is missing, the bot check fails or the scale is end-to-end encrypted |
| Scoring.KnownAnswersPicked | internal/services/response_service.go:99-109 | the answers that become responses are those naming a stored item, in order |
| Scoring.ValueToLabel | internal/services/export_service.go:299-342 | the label of a Likert answer, else the mapped options, else the number, else the document |
| Scoring.LikertLabel | internal/services/export_service.go:299-330 | a Likert answer is shown as the item's label in the language asked for, else the item's English one, else the scale's in that language, else the scale's English one, else the number |
| Scoring.PointIsExported | internal/api/response_service_adapter.go:30-40 | as wired, a point chosen is shown as its own label, on a reversed item too |
| Scoring.NumberIsExported | internal/api/response_service_adapter.go:30-40 | as wired, a number given to a rating, slider or numeric item without options is shown as that number |
| Scoring.DocumentShown | internal/services/export_service.go:331-342 | without a point, a number or options to go by, the stored document is shown |
| Scoring.ChoiceIsExported | internal/services/export_service.go:299-342 | the service handed the item with its options: from submission to export a single choice comes back in the language it was made in |
| Scoring.ChoicesAreExported | internal/services/export_service.go:299-342 | so does a choice of several options |
| Scoring.WiredChoiceIsExported | internal/api/response_service_adapter.go:30-40 | as wired, from the submission through the adapter to the export, a single choice comes back in the language it was made in |
| Scoring.WiredChoicesAreExported | internal/api/response_service_adapter.go:30-40 | so does a choice of several options |
| Scoring.ExportedIffUnambiguous | internal/services/export_service.go:299-342 | on aligned lists the wired pipeline brings every option of every language, submitted for an item that has an id, back exactly if no label reads like a label of another option |
| Invites.AccountStore.RegisterWithTenant | internal/services/auth_service.go:88-120 | stores the user unless address, password or tenant is blank, the address is taken or hashing fails; failing to sign does not undo it |
| Invites.AccountStore.HandleRegister | internal/api/router.go:872-913 | admits by invite exactly if it exists, is not expired and names the address; then marks it and adds the collaborator |
| Invites.InvitedRegistration | internal/api/router.go:872-903 | with an invite the only thing that can happen to the users is that the invited address gets one, of the invite's tenant; exactly if the invite exists, has not expired, names the address up to case and blanks, and the address is free |
| Invites.OwnRegistration | internal/services/auth_service.go:43-84 | without an invite the user gets a tenant of their own, exactly if address and password are well formed and the address is free; nothing else changes |
| Invites.AcceptedOnSuccess | internal/api/router.go:893 | an invite is marked as accepted by the registration that succeeds with it, and nothing else of any invite changes |
| Invites.AccountStore.AddTeamMember | internal/services/team_service.go:49-67 | adds the user found under the invite's address, and says so, exactly if scale and user belong to the tenant |
| Invites.CollaboratorEffect | internal/services/team_service.go:49-67 | the user of the address joins the one scale, as a viewer if the invite says so up to case and blanks and as an editor otherwise; nobody else joins anything |
| Invites.OneUserPerInvite | internal/api/router.go:872-894 | over every run with ASCII addresses and fresh tokens an invite admits at most one user |
| Invites.CollaboratorAdded | internal/api/router.go:893-897 | after every run from the empty store, an admitted user of a new id becomes a collaborator exactly if signing succeeds, the scale still belongs to the tenant and the invite's address carries no blanks |

## Left out

- StoreRuns.Perform: runs add items under unused ids only; what a store does after an id was used twice is said of adding (MemoryStore.Store.AddItem) and importing (ItemsFile.ImportItemsCSV), not of the other operations.
- E2EEService.SubmitRewrap: the tenant check is a parameter; the audit entry is not part of this model.
- ItemsFile.ImportItemsCSV: the store it starts from has a right index; audit entries and the stripping of a byte order mark are left out.
- Headers.UniqueNames: one method for the three copies of the loop, over the base names that differ between them (Headers.SameBases).
- ExportJobs.RequestExport: one request at a time; what several requests interleaved at their locks can do is ExportProtocol.
- Invites.AccountStore.RegisterOwner: the tenant created with the account, and its removal when storing the user fails, are not part of this model.
- Scoring.ProcessBulkResponses: the consent recorded with a participant is left out, and so are store errors, which the adapter never reports.
- WideTable.ExportScore: rows are records; quoting and line ends belong to encoding/csv.
- encoding/csv: item and table files are records, not text; a carriage return before a line feed inside a field does not survive Go's reader.
- JSON text: a stored answer is null, a string, a list of strings or another document; null inside a list is not modelled.
- MemoryStore.Store.ListItems: items are shared objects here too, but callers that change them behind the store's back are excluded; the adapters of internal/api hand out copies (internal/api/scale_service_adapter.go:65-72).
- DeleteParticipantByEmail, which removes whichever of several participants with one address the map yields first.
- Loading a snapshot, which sorts the index by id only; runs start from the empty store.
- SQLite's update and delete of items, and its cascades: SQL statements.
- Project key fingerprints, RSA wrapping, bundle assembly and download tokens: plumbing around the envelopes.
- ExportLongCSV and the long form of consent columns: one row per response, nothing to disambiguate.
- The frontend's other reducer cases: single-field assignments.
- HTTP, sessions, translation, AI analysis, markdown, migrations and deployment: plumbing, foreign calls or UI.
- Floating-point rounding: alpha is a real, so the clamp to 1, dead here, is there to absorb rounding.
