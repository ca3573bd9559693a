/** `Backbone.Navigation`: the breadcrumb trail held in memory and mirrored
    record by record into key-value storage. The object's state is its trail,
    its storage and the completion flag of its `d` future; every method
    updates them step by step as the source does and is proved to leave the
    state the corresponding function of module `Trail` describes. */
module BackboneNavigation {
  import opened Routes
  import opened Trail

  class Navigation {
    /** `breadcrumbs`: the page entries, oldest first. */
    var trail: seq<Entry>
    /** The storage backend: one record per key `prefix_<index>`, keyed here by the index. */
    var storage: map<nat, Entry>
    /** Whether the future `d` handed out by `getBreadcrumbs` has been resolved. */
    var resolved: bool
    /** The bound on the trail's length (`maxPageEntries`, 30 by default). */
    const maxPageEntries: nat

    ghost function State(): Nav
      reads this
    {
      Nav(trail, storage, resolved)
    }

    /** Restores the trail from storage, then checks whether the browser's
        own back button led to the current location. */
    constructor (store: map<nat, Entry>, maxPageEntries: nat, serverPageUuid: string, currentPageUrl: string)
      ensures this.maxPageEntries == maxPageEntries
      ensures State() == Trail.CheckBackNavigationFromBrowser(
                           Nav(Restored(store, 0), store, false), serverPageUuid, currentPageUrl)
    {
      this.maxPageEntries := maxPageEntries;
      trail := [];
      storage := store;
      resolved := false;
      new;
      BuildBreadcrumbsFromStorage();
      assert trail == Restored(store, 0);
      CheckBackNavigationFromBrowser(serverPageUuid, currentPageUrl);
    }

    /** `_buildBreadcrumbsFromCookies`: reads keys 0, 1, 2, ... until the
        first missing one, adding each record to the trail. */
    method BuildBreadcrumbsFromStorage()
      modifies this
      ensures trail == old(trail) + Restored(storage, 0)
      ensures storage == old(storage) && resolved == old(resolved)
    {
      var storageIndex: nat := 0;
      var hasPage := storageIndex in storage;
      while hasPage
        invariant hasPage == (storageIndex in storage)
        invariant trail + Restored(storage, storageIndex) == old(trail) + Restored(storage, 0)
        invariant storage == old(storage) && resolved == old(resolved)
        decreases Above(storage, storageIndex)
      {
        assert Above(storage, storageIndex + 1) == Above(storage, storageIndex) - {storageIndex};
        var page := storage[storageIndex];
        assert Restored(storage, storageIndex) == [page] + Restored(storage, storageIndex + 1);
        trail := trail + [page];
        storageIndex := storageIndex + 1;
        hasPage := storageIndex in storage;
      }
    }

    /** `_checkBackNavigationFromBrowser`: routes to the entry the downward
        scan finds, if any (the source routes inside the scan and then breaks
        out of it). */
    method CheckBackNavigationFromBrowser(serverPageUuid: string, currentPageUrl: string)
      modifies this
      ensures State() == Trail.CheckBackNavigationFromBrowser(old(State()), serverPageUuid, currentPageUrl)
    {
      var target := ScanForBackTarget(serverPageUuid, currentPageUrl);
      if target.Some? {
        RouteToPageEntry(target.value);
      }
    }

    /** The loop of `_checkBackNavigationFromBrowser`: from the newest entry
        down, the first whose URL occurs in the current location and which is
        a sub-flow page or the current server page. */
    method ScanForBackTarget(serverPageUuid: string, currentPageUrl: string) returns (target: Option<nat>)
      ensures target == BackTarget(trail, serverPageUuid, currentPageUrl, |trail|)
    {
      var i: nat := |trail|;
      while i > 0
        invariant i <= |trail|
        invariant BackTarget(trail, serverPageUuid, currentPageUrl, |trail|)
                  == BackTarget(trail, serverPageUuid, currentPageUrl, i)
      {
        i := i - 1;
        var pageEntry := trail[i];
        if Contains(currentPageUrl, pageEntry.url) {
          var pageEntryHasHash := Contains(pageEntry.url, SubFlowMarker);
          if pageEntryHasHash || pageEntry.serverPageUuid == serverPageUuid {
            return Some(i);
          }
        }
      }
      return None;
    }

    /** `_syncServerPageUuidWithDuplicatesOfPageEntry` */
    method SyncServerPageUuid(page: Entry)
      modifies this
      ensures State() == Trail.SyncServerPageUuid(old(State()), page)
    {
      var i := 0;
      while i < |trail|
        invariant i <= |trail| == |old(trail)|
        invariant State() == SyncSteps(old(State()), page, i)
      {
        var breadPageEntry := trail[i];
        if breadPageEntry.url == page.url {
          breadPageEntry := breadPageEntry.(serverPageUuid := page.serverPageUuid);
          trail := trail[i := breadPageEntry];
          storage := storage[breadPageEntry.index := Stored(breadPageEntry)];
        }
        i := i + 1;
      }
    }

    /** `isAllPagesResolved` */
    method IsAllPagesResolved() returns (r: bool)
      ensures r <==> forall i :: 0 <= i < |trail| ==> trail[i].isResolved
    {
      var i := 0;
      while i < |trail|
        invariant i <= |trail|
        invariant forall j :: 0 <= j < i ==> trail[j].isResolved
      {
        if !trail[i].isResolved {
          return false;
        }
        i := i + 1;
      }
      return true;
    }

    /** `checkBreadcrumbs` */
    method CheckBreadcrumbs()
      modifies this
      ensures State() == Trail.CheckBreadcrumbs(old(State()))
    {
      var allResolved := IsAllPagesResolved();
      if allResolved && |trail| > 0 {
        resolved := true;
      }
    }

    /** `getBreadcrumbs`: checks the trail and hands out the future, here its
        state. */
    method GetBreadcrumbs() returns (done: bool)
      modifies this
      ensures State() == Trail.CheckBreadcrumbs(old(State())) && done == resolved
    {
      CheckBreadcrumbs();
      done := resolved;
    }

    /** The `done` callback a deferred label registers in `_mapNavigation`. */
    method ResolveLabel(token: nat, text: string)
      modifies this
      ensures State() == Trail.ResolveLabel(old(State()), token, text)
    {
      trail := LabelResolved(trail, token, text);
      CheckBreadcrumbs();
    }

    /** `addPageEntry` */
    method AddPageEntry(page: Entry)
      modifies this
      ensures State() == Trail.AddPageEntry(old(State()), page)
    {
      storage := storage[page.index := Record(page)];
      trail := trail + [page];
    }

    /** `removePageEntry`, for the entry at position `pos`. */
    method RemovePageEntry(pos: nat)
      requires pos < |trail|
      modifies this
      ensures State() == Trail.RemovePageEntry(old(State()), pos)
    {
      storage := storage - {trail[pos].index};
      trail := trail[..pos] + trail[pos + 1..];
    }

    /** `removePageEntries`, for the entries from position `from` on (the
        lists `removeAll` and `routeToPageEntry` collect). */
    method RemovePageEntries(from: nat)
      modifies this
      ensures State() == Trail.RemovePageEntries(old(State()), from)
    {
      if from >= |trail| {
        return;
      }
      var count := |trail| - from;
      var i := 0;
      while i < count
        invariant i <= count && from + count == |old(trail)|
        invariant State() == RemoveSteps(old(State()), from, i)
      {
        RemovePageEntry(from);
        i := i + 1;
      }
    }

    /** `removeAll` */
    method RemoveAll()
      modifies this
      ensures State() == Trail.RemovePageEntries(old(State()), 0)
    {
      RemovePageEntries(0);
    }

    /** `replacePageEntry`, for the entry at position `pos`. */
    method ReplacePageEntry(pos: nat, page: Entry, copyPageData: bool)
      requires pos < |trail|
      modifies this
      ensures State() == Trail.ReplacePageEntry(old(State()), pos, page, copyPageData)
    {
      var oldIndex := trail[pos].index;
      var oldData := trail[pos].data;
      var newPage := page.(index := oldIndex);
      if copyPageData {
        newPage := newPage.(data := oldData);
      }
      RemovePageEntry(pos);
      AddPageEntry(newPage);
    }

    /** `routeToPageEntry` for the entry at position `p`, without the router
        navigation that follows it. */
    method RouteToPageEntry(p: nat)
      requires p < |trail|
      modifies this
      ensures State() == Trail.RouteToPageEntry(old(State()), p)
    {
      RemovePageEntries(trail[p].index + 1);
      if p < |trail| {
        trail := trail[p := trail[p].(backNavigation := Some(true))];
      }
    }

    /** `back` (trail part). */
    method Back()
      modifies this
      ensures State() == Trail.Back(old(State()))
    {
      var numberOfEntries := |trail|;
      if numberOfEntries > 1 {
        RouteToPageEntry(numberOfEntries - 2);
      }
    }

    /** `removeLastPageEntry`: the same truncation as `back`, without navigating. */
    method RemoveLastPageEntry()
      modifies this
      ensures State() == Trail.Back(old(State()))
    {
      var numberOfEntries := |trail|;
      if numberOfEntries > 1 {
        RouteToPageEntry(numberOfEntries - 2);
      }
    }

    /** `checkBreadcrumbsTail` */
    method CheckBreadcrumbsTail()
      modifies this
      ensures State() == Trail.CheckBreadcrumbsTail(old(State()), maxPageEntries)
    {
      if |trail| > maxPageEntries {
        ghost var n := State();
        RemoveStoredKeys(|trail|);
        trail := trail[1..];
        StoreRenumbered();
        ghost var r := Trail.CheckBreadcrumbsTail(n, maxPageEntries);
        assert storage.Keys == r.storage.Keys;
        assert storage == r.storage;
      }
    }

    /** The first loop of `checkBreadcrumbsTail`: removes the records at keys
        0 .. count - 1. */
    method RemoveStoredKeys(count: nat)
      modifies this
      ensures storage == old(storage) - Keys(count)
      ensures trail == old(trail) && resolved == old(resolved)
    {
      var i := 0;
      while i < count
        invariant i <= count && trail == old(trail) && resolved == old(resolved)
        invariant storage == old(storage) - Keys(i)
      {
        assert Keys(i + 1) == Keys(i) + {i};
        storage := storage - {i};
        i := i + 1;
      }
    }

    /** The second loop of `checkBreadcrumbsTail`: gives each entry its
        position as index and stores it under that key. */
    method StoreRenumbered()
      modifies this
      ensures trail == Renumbered(old(trail)) && resolved == old(resolved)
      ensures storage.Keys == Keys(|trail|) + old(storage).Keys
      ensures forall k :: k in storage ==> storage[k] == if k < |trail| then Stored(trail[k]) else old(storage)[k]
    {
      ghost var rest := Renumbered(trail);
      var j := 0;
      while j < |trail|
        invariant j <= |trail| == |rest| && resolved == old(resolved)
        invariant forall k :: 0 <= k < j ==> trail[k] == rest[k]
        invariant forall k :: j <= k < |trail| ==> trail[k] == old(trail)[k]
        invariant storage.Keys == Keys(j) + old(storage).Keys
        invariant forall k :: k in storage ==> storage[k] == if k < j then Stored(rest[k]) else old(storage)[k]
      {
        var pageEntry := trail[j].(index := j);
        assert pageEntry == rest[j];
        trail := trail[j := pageEntry];
        storage := storage[j := Stored(pageEntry)];
        assert Keys(j + 1) == Keys(j) + {j};
        j := j + 1;
      }
      assert trail == rest;
    }

    /** `putDataToPage`: the page is given by its position, or is the
        current page when `page` is `None`. */
    method PutDataToPage(key: string, value: string, page: Option<nat>)
      requires page.Some? ==> page.value < |trail|
      modifies this
      ensures State() == Trail.PutDataToPage(old(State()), key, value, page)
    {
      var target := page;
      if target.None? && |trail| > 0 {
        target := Some(|trail| - 1);
      }
      if target.Some? {
        var q := target.value;
        var pageEntry := trail[q].(data := trail[q].data[key := value]);
        trail := trail[q := pageEntry];
        storage := storage[pageEntry.index := Stored(pageEntry)];
      }
    }

    /** `_mapNavigation` for the route id `route` fired by the router whose
        table is `routes`, under its short name `shortRoute`. */
    method MapNavigation(tree: map<string, Descriptor>, route: string, routes: RouteTable,
                         shortRoute: string, mappedArgs: Args, serverPageUuid: string) returns (step: Step)
      modifies this
      ensures (State(), step) == Trail.MapNavigation(old(State()), tree, route, routes, shortRoute,
                                                     mappedArgs, serverPageUuid, maxPageEntries)
    {
      if route !in tree {
        return Ignored;
      }
      var pattern := RouteUrl(routes, shortRoute);
      if pattern.None? {
        return MissingRouteUrl;
      }
      var descriptor := tree[route];
      var url := MappedUrl(pattern.value, mappedArgs);
      var page := NewPage(trail, url, TemplateLabel(descriptor.template, mappedArgs), mappedArgs, serverPageUuid, route);
      var lastPage := CurrentPage(trail);
      ghost var n := State();
      assert page.index == |n.trail|;
      if ImplicitBack(lastPage, page) {
        Back();
        step := WentBack;
      } else {
        SyncServerPageUuid(page);
        if lastPage.Some? && lastPage.value.route == page.route
           && !ArgChanged(lastPage, page, descriptor.newEntryOnArgChange) {
          ReplacePageEntry(|trail| - 1, page, true);
          step := Replaced;
        } else {
          AddPageEntry(page);
          CheckBreadcrumbsTail();
          step := Appended;
        }
      }
    }
  }
}
