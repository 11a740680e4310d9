# Ressourcerie: offers, demands and their settlement

A model of `RessourcerieFacade`, the service of the Ressourcerie mini-project. Associations
publish offers of second-hand material under categories. Members file demands for OPEN offers,
and these queue first come, first served. A member of the offering association validates the
offer: its oldest PENDING demand is APPROVED, every other PENDING demand is REJECTED, and the
offer is CLOSED. The facade also archives offers and computes two statistics per association.

The model has these parts:

- **Store.** The five JPA repositories are five `seq` tables inside the class
  `Facade.Ressourcerie`. Row `i` of each table carries id `i + 1`, as identity allocation hands
  them out. `findById` is an index lookup. Every state-changing facade method states its whole
  new `State()` and keeps `Valid()`, the store invariant:
  - ids match positions and every reference resolves;
  - `closedAt` is set exactly when an offer is not OPEN;
  - at most one PENDING demand per (offer, demander);
  - at most one APPROVED demand per offer;
  - an APPROVED demand sits on an offer that is not OPEN;
  - no PENDING demand sits on a CLOSED offer.
- **Offer entity.** `OfferEntity.Offer` is a class whose `links` field is the entity's set of
  join records. It is a `seq` because two links to one category are distinct objects.
  `createOffer` builds such an object and adds one link per found category in a loop with its
  invariant. The demand lifecycle writes rows of the offer table directly.
- **Repository queries.** The JPQL queries of `IDemandRepository` and `IOfferRepository` are
  functions over the tables:
  - the two `order by d.createdAt asc` demand queries filter, then sort by `(createdAt, id)`, and
    are proved to be sorted permutations of the selected rows;
  - `existsPendingByOfferIdAndDemanderId` is a count of matching rows compared with zero;
  - `findDistinctByCategoriesId` has no `order by`: it filters the offer table, keeps table order,
    and is proved to list each linked offer once.
- **Validation.** `validateOffer`'s walk over the offer's demands is the loop of `SettleEach`,
  which `SettleDemands` runs on the offer's query result. It is proved equal to `ResolveAll` with
  the winner `Winner`. `Lifecycle` proves that the winner
  opens the PENDING queue and that settling keeps one APPROVED demand per offer.
- **Statistics.** Both statistics are `CountBy` over a list of keys. `CountBy` maps each key to
  its number of occurrences, and its values sum to the number of keys. Keys go through
  `Long.intValue`, a 32-bit truncation (`JavaLang.IntValue`).

External inputs:

- `LocalDateTime.now()` is the parameter `now: int`.
- `BigDecimal` prices are exact `real`s.
- A nullable `Long` that the code null-checks is an `Option<int>`. One the code unboxes
  unchecked (`addMember`'s `associationId`, `createOffer`'s `contactId`) is an `int`.
- The two exception classes are `Failure.IllegalArgument` and `Failure.IllegalState`, each with a
  `Reason`. `Reason` has one variant per message.

## Model

Paths are relative to the repository root.

| member | source | states |
|---|---|---|
| JavaLang.IsWhitespace | src/main/java/com/aletheia/miniproject/core/facade/RessourcerieFacade.java:36 | defines Character.isWhitespace: the space, the controls U+0009-U+000D and U+001C-U+001F, and the Unicode space, line and paragraph separators other than the non-breaking ones |
| JavaLang.IsBlank | src/main/java/com/aletheia/miniproject/core/facade/RessourcerieFacade.java:36 | defines String.isBlank: every character is whitespace, so the empty string is blank |
| JavaLang.NullOrBlank | src/main/java/com/aletheia/miniproject/core/facade/RessourcerieFacade.java:36 | defines the name guard: the name is null or blank |
| JavaLang.Trim | src/main/java/com/aletheia/miniproject/core/facade/RessourcerieFacade.java:39 | the trimmed name neither starts nor ends with a character up to U+0020. It is empty exactly when every character is one of those, and it holds no character more often than the input. |
| JavaLang.TrimIsSlice | src/main/java/com/aletheia/miniproject/core/facade/RessourcerieFacade.java:39 | the trimmed name is the slice of the input between a run of characters up to U+0020 at the front and one at the back |
| JavaLang.TrimIsOnlySlice | src/main/java/com/aletheia/miniproject/core/facade/RessourcerieFacade.java:39 | conversely, any such slice whose own first and last characters are above U+0020, or which is empty, is the trimmed name; with TrimIsSlice this fixes the result |
| JavaLang.TrimIdempotent | src/main/java/com/aletheia/miniproject/core/facade/RessourcerieFacade.java:39 | trimming a stored name again leaves it unchanged |
| JavaLang.NonBlankNameCanTrimToEmpty | src/main/java/com/aletheia/miniproject/core/facade/RessourcerieFacade.java:36-39 | the name "\0" passes the isBlank guard and is still stored as the empty string |
| JavaLang.TrimmedNameNotEmpty | src/main/java/com/aletheia/miniproject/core/facade/RessourcerieFacade.java:36-39 | a name with any character above U+0020 keeps a non-empty trimmed form |
| JavaLang.IntValue | src/main/java/com/aletheia/miniproject/core/facade/RessourcerieFacade.java:310 | the result is a signed 32-bit value congruent to the input modulo 2^32, and equal to the input when the input is in range |
| Entities.CategoriesOf | src/main/java/com/aletheia/miniproject/core/entities/Offer.java:121-123 | a category is in the set exactly when some link points at it |
| OfferEntity.WithoutCategory | src/main/java/com/aletheia/miniproject/core/entities/Offer.java:132 | removeIf drops every link whose category has the given id; each other link keeps its multiplicity |
| OfferEntity.Offer.constructor | src/main/java/com/aletheia/miniproject/core/entities/Offer.java:48-55 | the new offer has the given fields, no id, no closing time and no links |
| OfferEntity.Offer.Categories | src/main/java/com/aletheia/miniproject/core/entities/Offer.java:121-123 | getCategories is the set of categories some link points at |
| OfferEntity.Offer.AddCategory | src/main/java/com/aletheia/miniproject/core/entities/Offer.java:125-128 | a null category fails with IllegalArgument and leaves the links as they were. Any other category appends one link carrying the offer's id, and the category set grows by exactly that category. |
| OfferEntity.Offer.RemoveCategory | src/main/java/com/aletheia/miniproject/core/entities/Offer.java:130-133 | null is a no-op. Otherwise the links lose every link to a category with that id, and a category stays exactly when it was there and has another id. |
| OfferEntity.Offer.ClearCategories | src/main/java/com/aletheia/miniproject/core/entities/Offer.java:135-137 | no link and no category is left |
| OfferEntity.CategoriesOfAppend | src/main/java/com/aletheia/miniproject/core/entities/Offer.java:125-128 | one more link adds exactly its category to getCategories |
| OfferEntity.CategoriesOfWithout | src/main/java/com/aletheia/miniproject/core/entities/Offer.java:130-133 | after removeCategory, a category remains exactly when it was linked and has a different id |
| DemandQueries.ForOfferSelects | src/main/java/com/aletheia/miniproject/repos/IDemandRepository.java:14-20 | the `where d.offer.id` filter keeps each demand of the offer as often as the table holds it, and nothing else |
| DemandQueries.WithStatusSelects | src/main/java/com/aletheia/miniproject/repos/IDemandRepository.java:22-29 | the status filter keeps each demand with that status as often as the input holds it, and nothing else |
| DemandQueries.SortByCreatedAt | src/main/java/com/aletheia/miniproject/repos/IDemandRepository.java:18 | the result is a permutation of the input, ordered by createdAt (ties by id) |
| DemandQueries.FindByOfferIdOrderByCreatedAtAsc | src/main/java/com/aletheia/miniproject/repos/IDemandRepository.java:14-20 | the result is sorted. It holds each demand of the offer as often as the table does, and a demand is in it exactly when it is stored and names the offer. |
| DemandQueries.FindByOfferIdAndStatusOrderByCreatedAtAsc | src/main/java/com/aletheia/miniproject/repos/IDemandRepository.java:22-29 | the result is sorted. It holds each stored demand of the offer with that status as often as the table does, and nothing else. |
| DemandQueries.StatusQueryFiltersOfferQuery | src/main/java/com/aletheia/miniproject/repos/IDemandRepository.java:14-29 | the status query is the offer query with its other statuses filtered out |
| DemandQueries.SortCommutesWithStatus | src/main/java/com/aletheia/miniproject/repos/IDemandRepository.java:22-29 | filtering a sorted list by status equals sorting the filtered list |
| DemandQueries.CountPendingFor | src/main/java/com/aletheia/miniproject/repos/IDemandRepository.java:31-37 | count(d) is positive exactly when some stored demand is PENDING for that offer and demander, and it is at most the table size |
| DemandQueries.ExistsPendingByOfferIdAndDemanderId | src/main/java/com/aletheia/miniproject/repos/IDemandRepository.java:31-41 | true exactly when some stored demand is PENDING for that offer and demander |
| OfferQueries.HasCategory | src/main/java/com/aletheia/miniproject/repos/IOfferRepository.java:13-14 | defines the join condition: some link of the offer names a category with that id |
| OfferQueries.FindDistinctByCategoriesId | src/main/java/com/aletheia/miniproject/repos/IOfferRepository.java:10-16 | the result holds each offer linked to the category as often as the table holds it, and no other offer |
| OfferQueries.ListedOnce | src/main/java/com/aletheia/miniproject/repos/IOfferRepository.java:10-16 | over a table with consistent ids, the query is `distinct`: each linked offer appears once and any other offer not at all |
| OfferQueries.ListOffersByCategory | src/main/java/com/aletheia/miniproject/core/facade/RessourcerieFacade.java:152-158 | a null or non-positive id fails with IllegalArgument, and only such an id fails. Otherwise an offer is listed exactly when it is stored and linked to the category. |
| OfferRequest.OfferRequestError | src/main/java/com/aletheia/miniproject/core/facade/RessourcerieFacade.java:93-97 | the five argument guards, in source order. No error is returned exactly when all five pass, and every error is an IllegalArgument. |
| OfferRequest.DistinctIds | src/main/java/com/aletheia/miniproject/core/facade/RessourcerieFacade.java:107-110 | the result holds exactly the non-null requested ids, each once |
| OfferRequest.FindAllById | src/main/java/com/aletheia/miniproject/core/facade/RessourcerieFacade.java:112 | at most one category per requested id, each of them stored |
| OfferRequest.Unfound | src/main/java/com/aletheia/miniproject/core/facade/RessourcerieFacade.java:115-116 | the missing list holds exactly the requested ids that no found category carries |
| OfferRequest.FoundAreRequested | src/main/java/com/aletheia/miniproject/core/facade/RessourcerieFacade.java:112 | a category is found exactly when it is stored and its id was requested |
| OfferRequest.FoundOrUnfound | src/main/java/com/aletheia/miniproject/core/facade/RessourcerieFacade.java:112-118 | found and missing sizes add up to the number of distinct ids, so the size check fails exactly when some id names no stored category. The missing ids are exactly those. |
| OfferRequest.LinksTo | src/main/java/com/aletheia/miniproject/core/facade/RessourcerieFacade.java:133-135 | one link per found category, in order, each carrying the offer's id |
| OfferRequest.CategoriesOfLinksTo | src/main/java/com/aletheia/miniproject/core/facade/RessourcerieFacade.java:133-135 | after the loop, the offer's categories are exactly the found ones |
| Lifecycle.FirstPending | src/main/java/com/aletheia/miniproject/core/facade/RessourcerieFacade.java:273-280 | defines the loop's choice: the first PENDING entry of a list, or none |
| Lifecycle.FirstPendingIsFirst | src/main/java/com/aletheia/miniproject/core/facade/RessourcerieFacade.java:273-280 | FirstPending is none exactly when no entry is PENDING; otherwise it is a PENDING entry with no PENDING entry before it |
| Lifecycle.Winner | src/main/java/com/aletheia/miniproject/core/facade/RessourcerieFacade.java:271-280 | defines the approved demand: FirstPending of findByOfferIdOrderByCreatedAtAsc |
| Lifecycle.PendingQueue | src/main/java/com/aletheia/miniproject/core/facade/RessourcerieFacade.java:232-235 | the queue is sorted, and a demand is in it exactly when it is stored, names the offer and is PENDING |
| Lifecycle.PendingQueueIsStatusQuery | src/main/java/com/aletheia/miniproject/core/facade/RessourcerieFacade.java:232-235 | the queue equals findByOfferIdAndStatusOrderByCreatedAtAsc for PENDING |
| Lifecycle.WinnerIsEarliestPending | src/main/java/com/aletheia/miniproject/core/facade/RessourcerieFacade.java:271-280 | there is no winner exactly when the offer has no PENDING demand. Otherwise the winner is a PENDING demand of the offer that no other PENDING demand of the offer precedes. |
| Lifecycle.Settle | src/main/java/com/aletheia/miniproject/core/facade/RessourcerieFacade.java:274-281 | only the status changes, and a non-PENDING demand is unchanged. A PENDING demand becomes APPROVED exactly when it is the winner, REJECTED otherwise. |
| Lifecycle.ResolveAll | src/main/java/com/aletheia/miniproject/core/facade/RessourcerieFacade.java:271-282 | validation changes only PENDING demands of the validated offer, and only their status. None of the offer's demands is left PENDING. |
| Lifecycle.ResolveApprovesTheWinner | src/main/java/com/aletheia/miniproject/core/facade/RessourcerieFacade.java:271-282 | among the offer's PENDING demands, the one settled APPROVED is exactly the winner; the others become REJECTED |
| Lifecycle.ValidateKeepsOneApproved | src/main/java/com/aletheia/miniproject/core/facade/RessourcerieFacade.java:271-282 | validating an offer with no APPROVED demand leaves at most one APPROVED demand per offer |
| Lifecycle.ValidateKeepsOnePending | src/main/java/com/aletheia/miniproject/core/facade/RessourcerieFacade.java:183-189 | validation keeps at most one PENDING demand per offer and demander, the rule createDemand enforces |
| Lifecycle.RankCountsEarlier | src/main/java/com/aletheia/miniproject/core/facade/RessourcerieFacade.java:232-241 | the demands ahead of position k in the queue are exactly the other PENDING demands of the offer that come no later in (createdAt, id) order |
| Statistics.Merge | src/main/java/com/aletheia/miniproject/core/facade/RessourcerieFacade.java:328 | result.merge(k, 1, Integer::sum): the key set gains k, k maps to one more than before, and every other key keeps its count |
| Statistics.OfferKey | src/main/java/com/aletheia/miniproject/core/facade/RessourcerieFacade.java:308-310 | defines the group key of an offer: its association id through Long.intValue, or none when the association is null |
| Statistics.OfferCountByAssociation | src/main/java/com/aletheia/miniproject/core/facade/RessourcerieFacade.java:306-312 | defines getOfferCountByAssociation as the grouping of the offers' keys; OfferCountIsPerAssociation and OfferCountSum state what it holds |
| Statistics.ApprovedOf | src/main/java/com/aletheia/miniproject/core/facade/RessourcerieFacade.java:319-321 | the APPROVED demands, each as often as the table holds it, and nothing else |
| Statistics.DemanderKey | src/main/java/com/aletheia/miniproject/core/facade/RessourcerieFacade.java:324-327 | defines the win key of a demand: its demander's association id through Long.intValue, or none when the demander or its association is null |
| Statistics.WinsByAssociation | src/main/java/com/aletheia/miniproject/core/facade/RessourcerieFacade.java:316-331 | defines getOfferWinsByAssociation as the grouping of the approved demands' keys; WinsArePerAssociation and WinsSum state what it holds |
| Statistics.KeysOfMultiplicity | src/main/java/com/aletheia/miniproject/core/facade/RessourcerieFacade.java:307-310 | filtering and mapping to keys yields key k once for every element mapped to k |
| Statistics.KeysOfCount | src/main/java/com/aletheia/miniproject/core/facade/RessourcerieFacade.java:307-310 | the key list is as long as the number of elements that have a key |
| Statistics.CountBy | src/main/java/com/aletheia/miniproject/core/facade/RessourcerieFacade.java:309-311 | groupingBy with counting: the keys are exactly the listed keys, each mapped to its number of occurrences |
| Statistics.CountBySum | src/main/java/com/aletheia/miniproject/core/facade/RessourcerieFacade.java:309-311 | the counts sum to the number of keys |
| Statistics.OfferCountIsPerAssociation | src/main/java/com/aletheia/miniproject/core/facade/RessourcerieFacade.java:306-313 | an association id is a key exactly when some offer has it, and it maps to the number of such offers |
| Statistics.OfferCountSum | src/main/java/com/aletheia/miniproject/core/facade/RessourcerieFacade.java:306-313 | the counts sum to the number of offers with an association |
| Statistics.ApprovedKeys | src/main/java/com/aletheia/miniproject/core/facade/RessourcerieFacade.java:319-327 | keeping the approved demands first and then skipping demanders without an association gives the same keys as one pass over all demands |
| Statistics.WinsArePerAssociation | src/main/java/com/aletheia/miniproject/core/facade/RessourcerieFacade.java:316-332 | an association id is a key exactly when some APPROVED demand's demander belongs to it, and it maps to the number of such demands |
| Statistics.WinsSum | src/main/java/com/aletheia/miniproject/core/facade/RessourcerieFacade.java:316-332 | the wins sum to the number of APPROVED demands whose demander has an association |
| Facade.SameAssociation | src/main/java/com/aletheia/miniproject/core/facade/RessourcerieFacade.java:265-267 | defines the validateOffer permission check: offer and contact both have an association, with the same id |
| Facade.AddAssociationKeepsInvariant | src/main/java/com/aletheia/miniproject/core/facade/RessourcerieFacade.java:63-64 | saving a new association keeps the store invariant |
| Facade.AddMemberKeepsInvariant | src/main/java/com/aletheia/miniproject/core/facade/RessourcerieFacade.java:84-85 | saving a member of a stored association, or of none, keeps the store invariant |
| Facade.AddCategoryKeepsInvariant | src/main/java/com/aletheia/miniproject/core/facade/RessourcerieFacade.java:48-49 | saving a new category keeps the store invariant |
| Facade.AddOfferKeepsInvariant | src/main/java/com/aletheia/miniproject/core/facade/RessourcerieFacade.java:120-137 | saving a new OPEN offer, with no closing time, keeps the store invariant |
| Facade.AddDemandKeepsInvariant | src/main/java/com/aletheia/miniproject/core/facade/RessourcerieFacade.java:172-198 | saving a PENDING demand keeps the store invariant, when its offer is not CLOSED and no PENDING demand exists for the pair |
| Facade.CancelKeepsInvariant | src/main/java/com/aletheia/miniproject/core/facade/RessourcerieFacade.java:210-215 | cancelling a PENDING demand keeps the store invariant |
| Facade.ValidateKeepsInvariant | src/main/java/com/aletheia/miniproject/core/facade/RessourcerieFacade.java:261-286 | closing an OPEN offer and settling its demands against the winner keeps the store invariant |
| Facade.ArchiveKeepsInvariant | src/main/java/com/aletheia/miniproject/core/facade/RessourcerieFacade.java:300-302 | archiving any stored offer, with its closing time set, keeps the store invariant |
| Facade.RankOf | src/main/java/com/aletheia/miniproject/core/facade/RessourcerieFacade.java:237-243 | the loop returns the 1-based position of the first entry carrying the id, and no position when no entry carries it |
| Facade.SettleEach | src/main/java/com/aletheia/miniproject/core/facade/RessourcerieFacade.java:273-282 | the loop over a list of stored demands, each listed once, returns the first PENDING entry marked APPROVED and leaves the table with that entry APPROVED, the later PENDING entries REJECTED, and any other row as it was |
| Facade.CountWins | src/main/java/com/aletheia/miniproject/core/facade/RessourcerieFacade.java:322-329 | the merge loop over the approved demands computes the grouping of their demanders' association keys |
| Facade.QueueRank | src/main/java/com/aletheia/miniproject/core/facade/RessourcerieFacade.java:232-243 | a stored demand has a rank exactly when it is PENDING, and the queue holds it at that rank |
| Facade.Ressourcerie.constructor | src/main/java/com/aletheia/miniproject/core/facade/RessourcerieFacade.java:20-32 | the store starts with five empty tables and satisfies the invariant |
| Facade.Ressourcerie.SaveMember | src/main/java/com/aletheia/miniproject/core/facade/RessourcerieFacade.java:39-40 | memberRepo.save on a new member: it is appended under the next id, the other tables are unchanged and the invariant is kept |
| Facade.Ressourcerie.CreateMember | src/main/java/com/aletheia/miniproject/core/facade/RessourcerieFacade.java:35-41 | a null or blank name fails with IllegalArgument and changes nothing. Otherwise the member with the trimmed name is appended under the next id. |
| Facade.Ressourcerie.CreateCategory | src/main/java/com/aletheia/miniproject/core/facade/RessourcerieFacade.java:44-50 | a null or blank name fails with IllegalArgument and changes nothing. Otherwise the category with the trimmed name is appended under the next id. |
| Facade.Ressourcerie.CreateAssociation | src/main/java/com/aletheia/miniproject/core/facade/RessourcerieFacade.java:58-65 | a null or blank name fails with IllegalArgument and changes nothing. Otherwise the association with the trimmed name and no representer is appended under the next id. |
| Facade.Ressourcerie.AddMember | src/main/java/com/aletheia/miniproject/core/facade/RessourcerieFacade.java:72-86 | the checks run in source order: id first, then name (IllegalArgument), then the association lookup (IllegalState). On success the member of that association is appended, and a failure changes nothing. |
| Facade.Ressourcerie.CreateOffer | src/main/java/com/aletheia/miniproject/core/facade/RessourcerieFacade.java:92-138 | the argument guards run first. Then a missing contact, a contact without an association, or missing categories are refused; the last reports exactly the missing ids. On success one OPEN offer is appended with the contact's association, trimmed texts, the price and the time, linked exactly to the requested stored categories. A failure changes nothing. |
| Facade.Ressourcerie.SaveLinkedOffer | src/main/java/com/aletheia/miniproject/core/facade/RessourcerieFacade.java:120-137 | the offer is saved under the next id, its links are added one category at a time, and the second save overwrites the first. The saved links name exactly the found categories. |
| Facade.Ressourcerie.ListOffers | src/main/java/com/aletheia/miniproject/core/facade/RessourcerieFacade.java:144-146 | every stored offer, whatever its status |
| Facade.Ressourcerie.ListOffersByCategory | src/main/java/com/aletheia/miniproject/core/facade/RessourcerieFacade.java:152-158 | the query over the current offer table |
| Facade.Ressourcerie.CreateDemand | src/main/java/com/aletheia/miniproject/core/facade/RessourcerieFacade.java:164-199 | the checks run in source order: the two ids, offer found, offer OPEN, member found. Past them, it fails with AlreadyPending when the pair already has a PENDING demand and succeeds otherwise, appending one PENDING demand under the next id and returning it. A failure changes nothing. |
| Facade.Ressourcerie.CancelDemand | src/main/java/com/aletheia/miniproject/core/facade/RessourcerieFacade.java:202-216 | a bad id, a missing demand or a non-PENDING demand is refused with the source's exception. Otherwise only that demand changes, to CANCELLED. |
| Facade.Ressourcerie.GetDemandRank | src/main/java/com/aletheia/miniproject/core/facade/RessourcerieFacade.java:219-244 | a bad id, a missing demand and a demand without an offer are refused. Otherwise the result is null exactly when the demand is not PENDING, and a rank r has the demand at position r of its offer's PENDING queue. |
| Facade.Ressourcerie.ValidateOffer | src/main/java/com/aletheia/miniproject/core/facade/RessourcerieFacade.java:247-289 | the checks run in source order: ids, contact, offer, OPEN, same association. On success the result is the winner marked APPROVED, or null, and the new state is exactly the offer CLOSED at `now` with the demand table settled against the winner. A failure changes nothing. |
| Facade.Ressourcerie.SettleDemands | src/main/java/com/aletheia/miniproject/core/facade/RessourcerieFacade.java:271-282 | the walk over the offer's demands, oldest first, returns the winner marked APPROVED and leaves the demand table settled against it |
| Facade.Ressourcerie.ArchiveOffer | src/main/java/com/aletheia/miniproject/core/facade/RessourcerieFacade.java:292-303 | a bad id or a missing offer is refused. Otherwise only that offer changes: it becomes ARCHIVED with closing time `now`, whatever its status. |
| Facade.Ressourcerie.GetOfferCountByAssociation | src/main/java/com/aletheia/miniproject/core/facade/RessourcerieFacade.java:306-313 | the grouping over the current offer table |
| Facade.Ressourcerie.GetOfferWinsByAssociation | src/main/java/com/aletheia/miniproject/core/facade/RessourcerieFacade.java:316-332 | the wins over the current demand and member tables: one count per association for each APPROVED demand whose demander belongs to it |

The facade methods `ListOffersByCategory` and `GetOfferCountByAssociation` only return the
function of the same name. The facade methods keep the store's entry points in one class, and the
functions are what the lemmas are stated about.

## Code and its own documentation

The model follows the code where `IRessourcerieFacade.java` describes other behaviour:

- getDemandRank: the interface promises -1 for a missing demand. The code throws
  IllegalStateException in that case, and returns null for a demand that is not PENDING.
- listOffers: the interface says archived offers are left out. The code returns every offer.
- listOffersByCategory: the interface says a null id lists all offers. The code throws
  IllegalArgumentException.
- archiveOffer: the interface says the offer's demands are archived too. The code changes the
  offer only, and its PENDING demands stay PENDING.
- createOffer and validateOffer: the interface speaks of the association's representer. The code
  accepts any member of the association, and never reads `representer`.
- createOffer: `categoryIds = [null]` passes the emptiness guard and yields an offer with no
  category.
- The name guard: `isBlank` and `trim` use different character classes. A name made of control
  characters such as U+0000 is accepted and stored empty (`JavaLang.NonBlankNameCanTrimToEmpty`).

## Left out

- Persistence, transactions and concurrency. Each operation is one atomic step on the five
  tables; JPA's flushes, lazy loading and cascades are not modelled.
- Null pointer paths. These are an unboxed null `associationId` or `contactId`, a null
  `description` in createOffer, and a null id inside an association. The model's types exclude
  them.
- Column constraints on the entities: names of at most 64 characters and non-null
  `association_id` columns. A save that a constraint rejects is not modelled.
- Facade.Ressourcerie.CreateMember: requires that the given association is stored, or null. The
  source takes an entity object, and a transient association fails inside JPA's save.
- DemandQueries.SortByCreatedAt: breaks createdAt ties by id. JPQL leaves their order to the
  database; since the clock is a parameter, equal times are possible.
- OfferRequest.FindAllById: lists the found categories in the order of the requested ids, where
  JPA leaves the order open. The source only links them into a set, so the order has no effect.
- Facade.Ressourcerie.GetOfferCountByAssociation: counts are unbounded. `Long::intValue` on a count
  above 2^31 - 1 would wrap, which needs more offers than an int can number.
- Facade.Ressourcerie.GetOfferWinsByAssociation: counts are unbounded, where `Integer::sum` would
  wrap past 2^31 - 1.
- BigDecimal scale: prices are exact rationals, so `1.0` and `1.00` are the same value.
- The getters and setters of the entities, `getCategoryLinks`, and `Association.representer`.
  The facade calls them only in the ways modelled.
- The REST controller, the interface file and the older `core` package
  (`src/main/java/core/...`) are not part of this model.
