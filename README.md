# Backbone.Navigation breadcrumbs, modelled in Dafny

`Backbone.Navigation` keeps a breadcrumb trail for a Backbone.js single-page
application. Each time a router fires a route listed in the navigation tree,
the class builds a page entry with:

- the URL mapped from the route pattern;
- a label, which is a literal or a deferred;
- the mapped arguments;
- the server page id;
- the route id;
- the entry's index;
- a per-page data map;
- a back-navigation flag.

The class then decides what to do with the entry:

- go back, when the user leaves a `#!` sub-flow for the same server page;
- replace the last entry, when it has the same route and the tracked argument is unchanged;
- or append the entry and evict the oldest one once the trail exceeds `maxPageEntries` (30 by default).

Every entry is also written to key-value storage, under a key derived from its
index. When the page loads, the trail is rebuilt from keys 0, 1, 2, … up to the
first missing key. The trail is then cut back if the browser's own back button
led to an entry already on it. A completion future resolves once the trail is
non-empty and every label has been resolved.

Where a description of the class and its code differ, the model follows the
code:

- Indices are not renumbered after every removal. `removePageEntry` deletes
  an entry and its record without renumbering the rest, and only tail
  eviction renumbers (`Trail.RemoveMiddleKeepsIndex`). Every removal that
  the class itself performs cuts the end of the trail, so the invariant that
  an entry's index is its position holds along those paths.
- The bound `maxPageEntries` is not absolute. Each append evicts at most one
  entry, so a trail restored from storage above the bound stays above it,
  and only a trail that starts within the bound stays within it
  (`Trail.ReconcileAppend`, `Trail.ReconcileKeepsExact`).

A deferred label lives only in memory. Storage keeps an entry as JSON, so a
stored deferred label becomes a plain object without its callbacks. The model
writes every record through `Trail.Stored`, which turns a pending label into
`Serialized`. As a result, no `done` callback ever resolves a restored entry,
and an unresolved restored entry keeps the completion future unresolved
(`Trail.RestoredLabelsStayPut`).

The model has three modules:

- `Routes` (routes.dfy) covers the string and route-table helpers. These are JavaScript `indexOf`, `replace` with a string pattern (first occurrence only), argument lookup, `_getRouteUrl` and `_getMappedUrl`.
- `Trail` (trail.dfy) defines the state as a value `Nav(trail, storage, resolved)`. The storage is a map from index to stored record.
  - Every operation is a function on `Nav`.
  - The removal loop and the sync loop are defined as the state after their first `i` iterations. The other loops, such as the two in tail eviction, are defined in closed form.
  - The lemmas state what each operation does to a trail that satisfies two invariants. `Valid` means every entry sits at its own index and has a mirroring record at that key. `Exact` means `Valid` holds and there is no record beyond the trail.
- `BackboneNavigation` (navigation.dfy) holds `class Navigation`. Its fields `trail`, `storage` and `resolved` are updated in place, with a loop wherever the source loops. Every method for a state-changing operation of the source is proved to leave `State()` equal to the matching `Trail` function of the old state. The queries `ScanForBackTarget` and `IsAllPagesResolved` state their result. The loop helpers `BuildBreadcrumbsFromStorage`, `RemoveStoredKeys` and `StoreRenumbered` state their effect on each field.

## Model

| member | source | states |
|---|---|---|
| Routes.IndexOf | navigation.js:49-50 | `indexOf` returns the first position where the pattern occurs, with no occurrence before it; it returns none exactly when the pattern occurs nowhere |
| Routes.ReplaceFirst | navigation.js:118-124 | `replace` with a string pattern rewrites only the first occurrence: the result is the text before it, then the replacement, then the text after it; text without the pattern is returned unchanged |
| Routes.Lookup | navigation.js:177-184 | `mappedArgs[key]` is the value of the first pair with that name, and is none exactly when no pair has that name |
| Routes.RouteUrl | navigation.js:199-205 | `_getRouteUrl` returns the first pattern in the router's table bound to the route name, and returns none exactly when no pattern is bound to it |
| Routes.MappedUrlInTurn | navigation.js:118-124 | `_getMappedUrl` substitutes the placeholders one after another: mapping with `a + b` equals mapping with `a` and then with `b` |
| Routes.MappedUrlWithoutPlaceholders | navigation.js:118-124 | a URL in which no placeholder occurs is left unchanged |
| Routes.SinglePlaceholder | navigation.js:118-124 | a pattern `prefix + :name + suffix` maps to `prefix + value + suffix`, provided the placeholder does not occur earlier |
| Trail.RestoredIsRun | navigation.js:20-36 | the restored trail holds exactly the records at keys 0, 1, … in key order, and the key after the last one is missing |
| Trail.RestoredValid | navigation.js:20-36 | records that carry their own key as index restore to a valid trail, and to an exact one when no record lies past the first gap |
| Trail.ExactCount | navigation.js:227-242 | an exact mirror holds exactly one record per entry, under keys 0 .. size-1 |
| Trail.AddPageEntryEffect | navigation.js:227-233 | adding a page whose index is the trail's size keeps the mirror valid and exact |
| Trail.RemoveSteps | navigation.js:254-259 | each removal step shortens the trail by one and leaves the completion flag alone |
| Trail.RemoveMiddleKeepsIndex | navigation.js:235-242 | removing an entry other than the last leaves the next entry with an index one above its new position |
| Trail.RemoveStepsEffect | navigation.js:235-259 | after `i` removals from position `from`, the entries `from .. from+i-1` are gone, and so are exactly the records under their indices |
| Trail.RemovePageEntriesEffect | navigation.js:254-259 | on a valid trail, removing from `from` on truncates the trail to its first `from` entries, deletes the records at keys `from .. size-1`, and keeps Valid and Exact |
| Trail.RemoveAllEffect | navigation.js:244-252 | `removeAll` empties the trail, and on an exact mirror it empties the storage |
| Trail.ReplaceLastEffect | navigation.js:261-272 | replacing the last entry with data copied keeps the size; the new page takes the old index and data, and its record (without the back flag) replaces the old one |
| Trail.RouteToPageEntryEffect | navigation.js:274-285 | routing to entry `p` keeps entries `0..p-1`, keeps `p` with `backNavigation` set to true, and deletes the records of every later entry |
| Trail.BackEffect | navigation.js:355-371 | `back` and `removeLastPageEntry` do nothing on at most one entry; otherwise they leave K-1 entries and K-1 records, with no record at the old last index |
| Trail.BackIsBackNavigation | navigation.js:355-381 | after going back, `isBackNavigation` holds, and the next candidate entry carries that flag |
| Trail.BackTarget | navigation.js:42-57 | the downward scan finds the most recent entry whose URL occurs in the location and which is a `#!` page or the current server page; it finds none when no entry matches |
| Trail.CheckBackNavigationEffect | navigation.js:38-59 | the start-up check truncates right after the most recent matching entry, changes nothing when no entry matches, and keeps the mirror exact |
| Trail.BackTargetIsLastMatch | navigation.js:42-57 | when entry `p` matches and no later entry does, the scan returns `p` |
| Trail.SyncSteps | navigation.js:61-74 | each sync iteration preserves the trail's length and the completion flag |
| Trail.SyncStepsTrail | navigation.js:61-74 | after `i` iterations, exactly the entries before `i` whose URL equals the page's URL carry the page's server id |
| Trail.SyncStepsStorage | navigation.js:61-74 | after `i` iterations, exactly the records of those entries have been rewritten |
| Trail.SyncTrailEffect | navigation.js:61-74 | the sync changes only `serverPageUuid`, and only on the entries whose URL is the new page's URL; order, length and every other field stay |
| Trail.SyncStorageEffect | navigation.js:61-74 | on a valid trail the sync rewrites exactly the records of the changed entries, with those entries as storage keeps them, and keeps the key set |
| Trail.SyncKeepsValid | navigation.js:61-74 | the sync keeps the mirror valid and exact |
| Trail.TailEffect | navigation.js:383-403 | within the bound nothing changes; over it, exactly the first entry is dropped, the rest are renumbered and stored under 0 .. n-1, and no record is left at the old last key |
| Trail.TailKeepsValid | navigation.js:383-403 | eviction keeps a valid trail valid, even when stale records lie beyond it |
| Trail.CurrentPage | navigation.js:314-319 | the current page is the last entry, and exists exactly when the trail is non-empty |
| Trail.GetCurrentPageData | navigation.js:344-353 | a value is returned exactly when there is a current page, the key is non-empty and the page's data holds the key |
| Trail.IsBackNavigation | navigation.js:373-381 | true exactly when the current page carries `backNavigation == true` |
| Trail.PutThenGet | navigation.js:329-353 | data put on the current page is read back by `getCurrentPageData` and is present in that page's stored record; the mirror stays exact |
| Trail.PutDataAt | navigation.js:329-342 | data put on the entry at a given position is set in that entry and in its stored record; every other entry and record stays, and the mirror stays exact |
| Trail.CheckBreadcrumbsEffect | navigation.js:221-225 | the future resolves exactly when it was already resolved, or when the trail is non-empty and every entry is resolved; trail and storage are untouched |
| Trail.ResolveLabelEffect | navigation.js:154-162 | resolving the last pending label of a non-empty trail fires completion; completion does not fire while another entry is unresolved, and once resolved it stays resolved; Valid and Exact are kept |
| Trail.RestoredLabelsStayPut | navigation.js:154-162 | a callback only reaches entries built by `_mapNavigation`: on a trail restored from storage without resolvable labels, resolving any token leaves every entry as it was, so an unresolved restored entry keeps the future unresolved |
| Trail.WritesDropCallbacks | navigation.js:227-233 | adding, syncing, tail eviction, putting data and resolving a label never give storage a label a callback could resolve |
| Trail.RemovalsDropCallbacks | navigation.js:254-259 | removing entries only deletes records, so it gives storage no resolvable label |
| Trail.BackDropsCallbacks | navigation.js:355-371 | going back gives storage no resolvable label |
| Trail.ReconcileDropsCallbacks | navigation.js:164-196 | no outcome of a fired route gives storage a resolvable label |
| Trail.UnknownRouteIgnored | navigation.js:126-129 | a route absent from the navigation tree changes nothing |
| Trail.ReconcileImplicitBack | navigation.js:167-171 | returning from a `#!` page to the same server page goes back: no entry is added, and the trail shrinks by one when it had more than one entry |
| Trail.BackKeepsUrls | navigation.js:355-362 | going back keeps the URLs of the entries that remain |
| Trail.ReconcileReplace | navigation.js:173-189 | same route with an unchanged tracked argument replaces the last entry: the size stays, and the new page takes the old index and data; the earlier entries and their records are only synced |
| Trail.SyncThenReplaceLast | navigation.js:173-189 | syncing and then replacing the last entry keeps the mirror exact and the size unchanged; the new page takes the old index and data, and the earlier entries and their records are only synced |
| Trail.ReconcileAppend | navigation.js:190-195 | otherwise the page is appended after the synced trail. Below the bound it lands at index `size` with its record there, and the earlier entries and records are only synced. At or over the bound the oldest entry is dropped, the others move down one position and are renumbered, the page ends last, and every entry is stored under its position. A trail within the bound stays within it |
| Trail.AppendWithinBound | navigation.js:190-195 | below the bound the earlier entries are only synced, and their records are the synced entries or are left as they were |
| Trail.AppendAtBound | navigation.js:190-195 | at or over the bound the size stays; entry `j` is the synced entry `j + 1` renumbered to `j`, the new page is last with the last index, and every entry is stored under its position |
| Trail.ReconcileKeepsExact | navigation.js:164-196 | every outcome keeps the mirror exact, leaves the completion flag unchanged, and keeps a trail within the bound within it |
| Trail.RefireReplaces | navigation.js:186-195 | firing the same route again with the same URL and arguments replaces the entry the first firing appended, below the bound and at it alike; the size stays |
| Trail.AppendedEndsWithPage | navigation.js:190-195 | after a firing that appends, with a bound of at least one, the new page is the last entry and carries the last index; the mirror stays exact |
| BackboneNavigation.Navigation.constructor | navigation.js:2-16 | the object starts with the trail restored from storage, an unresolved future, and the start-up back check applied |
| BackboneNavigation.Navigation.BuildBreadcrumbsFromStorage | navigation.js:20-36 | the loop appends the restored run of records to the trail and leaves storage unchanged |
| BackboneNavigation.Navigation.CheckBackNavigationFromBrowser | navigation.js:38-59 | routes to the entry the scan finds, or changes nothing |
| BackboneNavigation.Navigation.ScanForBackTarget | navigation.js:43-57 | the downward loop returns the most recent entry whose URL occurs in the location and which is a `#!` page or the current server page, or none |
| BackboneNavigation.Navigation.SyncServerPageUuid | navigation.js:61-74 | the loop leaves the state of `Trail.SyncServerPageUuid` |
| BackboneNavigation.Navigation.IsAllPagesResolved | navigation.js:212-219 | returns true exactly when every entry is resolved |
| BackboneNavigation.Navigation.CheckBreadcrumbs | navigation.js:221-225 | resolves the future exactly as `Trail.CheckBreadcrumbs` |
| BackboneNavigation.Navigation.GetBreadcrumbs | navigation.js:207-210 | checks the trail, then returns the state of the future |
| BackboneNavigation.Navigation.ResolveLabel | navigation.js:154-162 | the entries waiting on the label get its text and are resolved, then the completion check runs |
| BackboneNavigation.Navigation.AddPageEntry | navigation.js:227-233 | stores the record without the back flag under the page's index, and appends the page |
| BackboneNavigation.Navigation.RemovePageEntry | navigation.js:235-242 | deletes the record under the entry's index, and removes the entry |
| BackboneNavigation.Navigation.RemovePageEntries | navigation.js:254-259 | the removal loop leaves the state of `Trail.RemovePageEntries` |
| BackboneNavigation.Navigation.RemoveAll | navigation.js:244-252 | removes every entry through `RemovePageEntries` |
| BackboneNavigation.Navigation.ReplacePageEntry | navigation.js:261-272 | the new page takes the old index (and the old data when asked); the old entry is removed and the new one added |
| BackboneNavigation.Navigation.RouteToPageEntry | navigation.js:274-285 | removes the entries after the page's index, then marks the page as reached by going back |
| BackboneNavigation.Navigation.Back | navigation.js:355-362 | routes to the second-to-last entry when there are at least two |
| BackboneNavigation.Navigation.RemoveLastPageEntry | navigation.js:364-371 | the same truncation as `Back` |
| BackboneNavigation.Navigation.CheckBreadcrumbsTail | navigation.js:383-403 | leaves the state of `Trail.CheckBreadcrumbsTail` |
| BackboneNavigation.Navigation.RemoveStoredKeys | navigation.js:385-389 | the first eviction loop deletes the records at keys 0 .. count-1 and nothing else |
| BackboneNavigation.Navigation.StoreRenumbered | navigation.js:394-401 | the second eviction loop renumbers every entry to its position and stores it there; records at other keys stay |
| BackboneNavigation.Navigation.PutDataToPage | navigation.js:329-342 | sets the key in the given or current page's data and stores that entry; with no page and an empty trail, nothing changes |
| BackboneNavigation.Navigation.MapNavigation | navigation.js:126-197 | leaves the state and the outcome of `Trail.MapNavigation`: ignored, went back, replaced or appended |

## Left out

- Router wiring is not modelled: `getAllRouters`, `appendRouter`, `mapRouters` and the `route` event callback. `MapNavigation` takes the fired route id, the router's route table and the route's short name, which the source gets by splitting the id at the dot.
- `_getMappedArgs` is not modelled. The mapped arguments are an input of `MapNavigation`.
- Navigation side effects of `routeToPageEntry` are not modelled: `router.navigate`, the deferred navigation and the page reload. Only the trail and storage effects are modelled.
- `application.getServerData`, `application.getPageContextPath` and `window.location.hash` are parameters: the server page id and the current URL.
- The storage backends (cookies or local storage) and the key format `BNC_{0}` are not modelled. Storage is a map keyed by the index, and a record has the shape of an entry.
- The jQuery Deferred behind a label is not modelled; it is a token. `ResolveLabel` is its `done` callback and updates every entry still waiting on that token. A deferred that is already resolved runs its callback immediately, before the entry is added; the model only runs the callback when it is called.
- Trail entries are values identified by their position, not shared objects. `routeToPageEntry`, `replacePageEntry`, `removePageEntry` and `putDataToPage` take a position. The loops in `removeAll` and `routeToPageEntry` that collect the entries to remove are folded into `RemovePageEntries(from)`.
- Backbone `remove`/`add` options are not modelled.
- `$` patterns in `String.prototype.replace` are not modelled: the replacement text is inserted literally.
- MapNavigation: when the router has no URL for the route name, `_getRouteUrl` returns undefined. With non-empty mapped arguments, the source then throws on `undefined.replace`. With empty mapped arguments, `_getMappedUrl` returns undefined. The source then throws on `indexOf` when the trail has a last page, and on an empty trail it appends and stores an entry without a URL. In every one of these cases the model returns the `MissingRouteUrl` outcome and changes nothing.
- `_checkBackNavigationFromBrowser`: the `has('url')` test is taken as always true, because every entry carries a URL.
- PutDataToPage: an explicitly given page must be a position on the trail. The source accepts any page object.
- Object key order is the order of the `Args` and `RouteTable` sequences.
- Args: a sequence of pairs may repeat a placeholder name, which the JavaScript object `mappedArgs` cannot. For such inputs `MappedUrl` substitutes once per pair, and `Lookup` takes the first pair. Inputs that come from an object have distinct names, and the contracts do not depend on this.
- Loose equality between `null` and `undefined` server ids is not modelled: server ids are strings.
- Concurrent use of the same storage from several browser tabs is not modelled.
