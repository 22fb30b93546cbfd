# Favourites store and background cache — a Dafny model

This project models the client-local state of a static directory site for
temporary-mail services. The site keeps two things in the browser's
`localStorage`:

- **The favourites store** (`src/lib/mailData.ts`). It is an insertion-ordered list of
  `TempMail` records kept under the key `mail_favorites`. It supports read,
  write, membership test, toggle and remove-by-id.
- **The background cache** (`src/lib/backgroundContext.tsx`). It is one
  `{url, timestamp}` slot kept under `app_background_cache` and valid for
  24 hours. A provider holds `(backgroundUrl, isLoaded)`. It either reuses the
  cached url on mount or makes a new one. `setLoaded` and `refreshBackground`
  change it afterwards.

The model also covers the small amount of pure logic in the two pages that use
the store:

- in `MailPage.tsx`: the case-insensitive search filter, the favourite-id set
  built on mount, and its update when a star is toggled;
- in `FavoritesPage.tsx`: the delete-confirm dialog.

Storage is an explicit value that each operation takes and returns. There is
no global state:

- `Slot = Absent | Corrupt | Stored(v)` stands for one key. `Corrupt` is text
  that does not parse.
- `Store = Unavailable | Available(slot)`. `Unavailable` covers both server-side
  rendering and a `localStorage` that throws.
- `writeOk` and `removeOk` say whether a write or a removal throws.
- Every `Date.now()` call is its own `nat` clock argument.
- Case folding (`toLowerCase`) is a function parameter `lower` about which
  nothing is assumed.

Modules: `Wrappers` (the optional value), `Storage` (the slot and its reads and writes), `Sequences` (an
order-preserving filter and the subsequence relation), `Decimal` (the decimal
text of the clock value in the image url), `MailData`, `BackgroundContext`,
`MailPage` and `FavoritesPage`. Each of the last four models one source file.

Four points of the code's behaviour are easy to misread, and the model follows the code on each:

- Expiry is strict. An entry expires only when `now - timestamp > BG_EXPIRE_TIME`, so an entry exactly 86 400 000 ms old is still served (`ExpiryBoundary`). Validity is not `age < TTL`.
- Toggle-on does not remove an existing entry with the same id. It pushes only when `findIndex` finds nothing, and toggle-off splices out only the FIRST match. Distinct ids are therefore an invariant that toggling preserves (`ToggleKeepsIdsUnique`), not one it restores.
- A read never repairs a corrupt slot: `getFavorites` and `getCachedBackground` leave it in place. The next write that lands replaces it. For the cache, that is the write in the mount effect or in `refreshBackground`. For the favourites, it is the save in `toggleFavorite` or `removeFavorite`. A mount whose write throws leaves the corrupt slot as it was (`CorruptSurvivesFailedMount`).
- A new url is not unique per call. It is the clock value in decimal, so it is new only when the clock has moved (`RefreshGivesNewUrl`, `FetchInjective`).

## Model

| member | source | states |
|---|---|---|
| Storage.Parse | src/lib/mailData.ts:19-25 | a stored value comes back only when storage exists and the slot holds a well-formed record; absent, corrupt and unavailable all read as nothing |
| Storage.SetItem | src/lib/mailData.ts:28-35 | a write lands (`WriteLands`) exactly when storage exists and `setItem` does not throw; a write that lands reads back as the written value; a write with no storage or that throws leaves storage exactly as it was, and availability never changes |
| Storage.RemoveItem | src/lib/backgroundContext.tsx:32-34 | a removal that lands empties the slot; one that throws or has no storage changes nothing |
| Storage.ReadAfterWrite | src/lib/backgroundContext.tsx:44-56 | read-after-write gives the value written, and a second write replaces the first entirely |
| Sequences.Filter | src/lib/mailData.ts:59 | the result is an order-preserving subsequence whose elements all satisfy the predicate; each kept element keeps all its occurrences and each rejected one loses them all |
| Sequences.FilterKeepsAll | src/lib/mailData.ts:59 | when every element passes, filtering returns the sequence unchanged |
| MailData.CatalogWellFormed | src/lib/mailData.ts:8-16 | the catalog's ids are distinct and every catalog entry has a description |
| MailData.GetFavorites | src/lib/mailData.ts:18-26 | the empty list when there is no storage, nothing stored or the text fails to parse; otherwise the stored list |
| MailData.SaveFavorites | src/lib/mailData.ts:28-35 | a landed save leaves the slot holding exactly the saved list, `[]` included; a failed save is swallowed and leaves storage unchanged |
| MailData.SomeHasId | src/lib/mailData.ts:39 | true iff some element carries the id |
| MailData.FindIndex | src/lib/mailData.ts:44 | -1 iff no element carries the id, otherwise the position of the first element that does |
| MailData.IsFavorite | src/lib/mailData.ts:37-40 | true iff some element of the stored list has that id |
| MailData.ToggleList | src/lib/mailData.ts:43-53 | returns true iff no element had the id. The list then has the mail appended at the end and the earlier elements unchanged. Otherwise it returns false and the list loses exactly the first element with that id, the rest in order |
| MailData.ToggleFavorite | src/lib/mailData.ts:42-55 | returns true iff the id was absent from the stored list, whether or not the save lands; a landed save leaves storage available and holding exactly the toggled list, even when that list is empty; a failed save leaves storage unchanged |
| MailData.RemoveFavorite | src/lib/mailData.ts:57-61 | availability never changes; after a landed save the slot holds a well-formed list in which no element has the id, the rest keep their order and every other element keeps its occurrences; a failed save changes nothing |
| MailData.ToggleListIds | src/lib/mailData.ts:43-53 | with distinct ids, after a toggle the mail's id is present iff the call returned true, every other id keeps its membership, and ids stay distinct |
| MailData.ToggleFlipsMembership | src/lib/mailData.ts:42-55 | with distinct stored ids, after a landed toggle the mail's id is a favourite iff the call returned true, and every other id keeps its membership |
| MailData.ToggleKeepsIdsUnique | src/lib/mailData.ts:42-55 | distinct stored ids stay distinct after a toggle, whether or not the save lands |
| MailData.RemoveKeepsIdsUnique | src/lib/mailData.ts:57-61 | distinct stored ids stay distinct after a removal |
| MailData.ToggleTwiceRestores | src/lib/mailData.ts:42-55 | toggling one mail twice from a state where its id is absent returns true, then (when the saves land) false, and the list reads as before; a stored list comes back as the identical storage |
| MailData.RemoveThenNotFavorite | src/lib/mailData.ts:57-61 | after a removal whose save does not throw, the id is not a favourite, with or without storage |
| MailData.RemoveAbsentIsNoOp | src/lib/mailData.ts:57-61 | removing an id that is not present leaves the list as it reads |
| MailData.RemoveIdempotent | src/lib/mailData.ts:57-61 | removing the same id a second time changes nothing further |
| MailData.ToggleResultIgnoresWriteFailure | src/lib/mailData.ts:28-55 | a failed save gives the same return value as a landed one, and storage stays unchanged |
| MailData.ToggleAlternates | src/lib/mailData.ts:42-55 | with distinct ids, the id's membership flips with each toggle of the same mail: after n toggles it is the initial membership when n is even and its negation when n is odd. Ids stay distinct. When saves land, this list is the stored one |
| MailData.ToggleScenario | src/lib/mailData.ts:42-61 | from empty storage: toggle A gives true and [A]; toggle B gives [A, B]; toggle A gives false and [B]; remove id 2 gives [] |
| Decimal.NatToString | src/lib/backgroundContext.tsx:61 | the decimal text of a clock value is a non-empty run of digits with no leading zero; it has one digit exactly when the value is below ten |
| Decimal.ParseDecimal | src/lib/backgroundContext.tsx:61 | parsing succeeds iff the text is a non-empty run of digits |
| Decimal.ParsePrinted | src/lib/backgroundContext.tsx:61 | parsing the printed value of n gives n |
| Decimal.PrintedInjective | src/lib/backgroundContext.tsx:61 | distinct clock values print differently |
| BackgroundContext.GetCachedBackground | src/lib/backgroundContext.tsx:21-41 | the read returns the url iff a well-formed entry is stored and it is not expired (`Expired`: more than 86 400 000 ms old, line 32). An expired entry is removed when the removal lands and is not returned. Otherwise storage is untouched |
| BackgroundContext.SetCachedBackground | src/lib/backgroundContext.tsx:44-56 | a landed write stores exactly {url, timestamp: now}; a failed one leaves storage as it was |
| BackgroundContext.FetchNewBackground | src/lib/backgroundContext.tsx:59-62 | the url is the fixed API prefix followed by text that parses back to the clock value |
| BackgroundContext.FetchInjective | src/lib/backgroundContext.tsx:59-62 | distinct clock values give distinct urls |
| BackgroundContext.Initial | src/lib/backgroundContext.tsx:65-66 | the provider starts with an empty url and isLoaded false |
| BackgroundContext.Mount | src/lib/backgroundContext.tsx:68-81 | with a fresh, non-empty cached url (`ServesCached`, lines 70-72) the provider shows that url and writes nothing. Otherwise it shows a new url. A landed write persists it with the save clock; a failed write leaves storage as the read left it. isLoaded is untouched and the shown url is never empty |
| BackgroundContext.SetLoaded | src/lib/backgroundContext.tsx:83-85 | sets isLoaded and changes neither the url nor storage |
| BackgroundContext.RefreshBackground | src/lib/backgroundContext.tsx:87-92 | always shows a new url from the fetch clock, persists it when the write lands, and clears isLoaded |
| BackgroundContext.ReadMissesWithoutEntry | src/lib/backgroundContext.tsx:21-26 | with no storage, nothing stored, or unparsable text, the read returns nothing and leaves storage as it was |
| BackgroundContext.ExpiryBoundary | src/lib/backgroundContext.tsx:13-35 | an entry exactly one day old is served; one millisecond later it is removed and not returned |
| BackgroundContext.MountTwiceSameUrl | src/lib/backgroundContext.tsx:68-81 | after a mount whose write landed, a second mount within the stored entry's day shows the same url and leaves storage the same |
| BackgroundContext.MountScenario | src/lib/backgroundContext.tsx:21-81 | from empty storage, a mount at t0 shows u1; a mount one hour later still shows u1; a mount 25 hours later shows a different url and stores it with that clock |
| BackgroundContext.CorruptSurvivesFailedMount | src/lib/backgroundContext.tsx:21-81 | a corrupt cache slot is still corrupt after a mount whose write throws |
| BackgroundContext.RefreshGivesNewUrl | src/lib/backgroundContext.tsx:87-92 | after a url made at clock t, a refresh at any other clock shows a different url |
| MailPage.Includes | src/components/MailPage.tsx:117-119 | `includes` holds iff the query occurs at some position of the text |
| MailPage.Matches | src/components/MailPage.tsx:116-120 | an item matches a lower-cased query iff the query is a substring of its lower-cased name, of its description when it has one, or of its url |
| MailPage.FilteredMails | src/components/MailPage.tsx:113-121 | an empty query returns the catalog unchanged. The result is always an order-preserving subsequence of the catalog. For a non-empty query, an item whose lower-cased name, description (when present) or url contains the lower-cased query keeps all its occurrences, and any other item keeps none |
| MailPage.NoDescriptionMatch | src/components/MailPage.tsx:118 | an item without a description matches only through its name or url |
| MailPage.InitialFavorites | src/components/MailPage.tsx:95-100 | the set holds exactly the catalog ids that are stored favourites |
| MailPage.ForeignFavoritesIgnored | src/components/MailPage.tsx:96-98 | a stored favourite whose id is not in the catalog is not in the set |
| MailPage.HandleToggleFavorite | src/components/MailPage.tsx:123-134 | the set holds the mail's id iff the id was not a favourite before (that is, iff `toggleFavorite` returned true); every other id keeps its membership; storage is what the toggle left |
| MailPage.ToggleKeepsMirror | src/components/MailPage.tsx:123-134 | when the set mirrors storage with distinct ids and the save lands, toggling a catalog mail keeps the set equal to the mount-time computation over the new storage |
| FavoritesPage.Mount | src/components/FavoritesPage.tsx:161-168 | the displayed list is what `getFavorites` reads, and the dialog is closed |
| FavoritesPage.DeleteClick | src/components/FavoritesPage.tsx:170-172 | opens the dialog on the mail and leaves the list and storage alone |
| FavoritesPage.DeleteConfirmed | src/components/FavoritesPage.tsx:174-180 | the dialog always ends closed. With a mail, storage is what `removeFavorite` leaves, so the id is gone from storage once the save lands, and the displayed list loses every element with that id while the rest keep their order and occurrences. With no mail nothing else changes |
| FavoritesPage.DeleteCancel | src/components/FavoritesPage.tsx:182-184 | closes the dialog, list and storage unchanged |
| FavoritesPage.DeleteFlowKeepsMirror | src/components/FavoritesPage.tsx:166-184 | mounting makes the displayed list equal to storage's; clicking, cancelling and a confirm whose save does not throw keep it so, with or without storage |
| FavoritesPage.ClickThenConfirmRemoves | src/components/FavoritesPage.tsx:170-180 | clicking a mail and then confirming leaves no element with its id on the page and, once the save lands, none in storage |

## Left out

- JSON text. A stored value is a `Slot`, and any text on which `JSON.parse` throws is `Corrupt`. Text that parses into the wrong shape is also treated as `Corrupt`. Examples are `null` as the favourites (the source would then throw from `.some`) and a cache record without a numeric `timestamp` (where `NaN > x` is false). That is JavaScript coercion, not this logic.
- The empty-string check `stored ?` / `if (!cached)`. `JSON.stringify` never writes an empty string, so an empty stored text reads as `Absent`.
- Clock values are `nat` milliseconds. JavaScript prints numbers from 10^21 upward in exponent notation, and `NatToString` does not model that.
- `console.error`, `navigator.vibrate` (`haptic`), clipboard copying and the `copiedId` timer, the menu flag, `setTimeout`, and the 200 ms search debounce. These are side effects and timers; the filter takes the debounced query as input.
- The React context plumbing (`createContext`, `useBackground`'s throw outside a provider) and all rendering. `SharedBackground.tsx`, `BackgroundWrapper.tsx` and `NavigationMenu.tsx` hold only that.
- Unicode case folding behind `toLowerCase`. It is the parameter `lower`, and no property depends on what it does.
- `src/lib/countryData.ts`, `tailwind.config.ts` and `astro.config.mjs`: static data and build configuration with no behaviour. The mail catalog is the constant `MailData.TEMP_MAIL_LIST`; the model states only that its ids are distinct and that each entry has a description.
- Cross-tab or concurrent writers to the same keys.
- The storage keys `mail_favorites` and `app_background_cache`. Each store models one key, and the two keys are distinct, so neither store's operations can touch the other's slot.
- MailData.ToggleAlternates: stated over the list after repeated toggles rather than over a storage value. When every save lands, `ToggleFavorite`'s contract makes the slot hold exactly that list, so the store follows it step by step; when a save fails, storage and the page diverge by design, and the lemma says nothing about that case.
