/** The breadcrumb trail of `Backbone.Navigation` and its storage mirror, as
    values. Every operation of the navigation class is defined here as a
    function on a `Nav` state. The removal and sync loops are defined as the
    state after their first `i` steps, so that the loop's invariant is that
    function; the other loops are defined in closed form. The lemmas state what each operation does to
    a trail whose entries sit at their own index and whose storage mirrors it. */
module Trail {
  import opened Routes

  /** A page label: a literal text, a deferred label identified by the
      token of the deferred object whose completion supplies the text, or a
      deferred label as storage keeps it: a plain object without the
      deferred's callbacks, which nothing ever resolves. */
  datatype Label = Literal(text: string) | Pending(token: nat) | Serialized

  /** A page entry (a `Backbone.Model` of the trail). The same shape is the
      record kept in storage. `backNavigation` is `None` when the attribute
      is absent, as in every record `addPageEntry` writes. */
  datatype Entry = Entry(
    url: string,
    text: Label,
    mappedArgs: Args,
    isResolved: bool,
    serverPageUuid: string,
    route: string,
    index: nat,
    data: map<string, string>,
    backNavigation: Option<bool>)

  /** The trail (`breadcrumbs`), the key-value storage keyed by index, and
      whether the completion future `d` has been resolved. */
  datatype Nav = Nav(trail: seq<Entry>, storage: map<nat, Entry>, resolved: bool)

  /** A navigation-tree descriptor: a label template (literal, or a function
      of the mapped arguments) and the optional argument whose change forces
      a new entry. */
  datatype Template = Fixed(value: Label) | Computed(apply: Args -> Label)
  datatype Descriptor = Descriptor(template: Template, newEntryOnArgChange: Option<string>)

  /** What `_mapNavigation` did with a fired route. */
  datatype Step = Ignored | MissingRouteUrl | WentBack | Replaced | Appended

  // ---------------------------------------------------------------------------
  // Invariants

  /** Every entry's `index` is its position. */
  predicate Indexed(t: seq<Entry>)
  {
    forall i :: 0 <= i < |t| ==> t[i].index == i
  }

  /** A stored record agrees with its entry on everything the trail writes
      through to storage (label resolution and the back-navigation mark are
      kept in memory only). */
  predicate Mirrors(r: Entry, e: Entry)
  {
    r.url == e.url && r.mappedArgs == e.mappedArgs && r.serverPageUuid == e.serverPageUuid
    && r.route == e.route && r.index == e.index && r.data == e.data
  }

  /** Entries sit at their index, and storage holds a mirroring record at
      every position of the trail. */
  predicate Valid(n: Nav)
  {
    Indexed(n.trail)
    && forall i :: 0 <= i < |n.trail| ==> i in n.storage && Mirrors(n.storage[i], n.trail[i])
  }

  /** Valid, and storage holds no record beyond the trail. */
  predicate Exact(n: Nav)
  {
    Valid(n) && forall k :: k in n.storage ==> k < |n.trail|
  }

  /** The positions 0 .. n - 1, in order. */
  function Upto(n: nat): (s: seq<nat>)
    ensures |s| == n && forall i :: 0 <= i < n ==> s[i] == i
  {
    seq(n, i requires 0 <= i < n => i)
  }

  /** The keys 0 .. n - 1. */
  function Keys(n: nat): (r: set<nat>)
    ensures forall k: nat :: k in r <==> k < n
  {
    var s := Upto(n);
    var r := set k | k in s;
    forall k: nat | k < n
      ensures k in r
    {
      assert s[k] == k;
    }
    forall k: nat | k in r
      ensures k < n
    {
      var i :| 0 <= i < |s| && s[i] == k;
    }
    r
  }

  lemma {:induction false} KeysCount(n: nat)
    ensures |Keys(n)| == n
  {
    if n > 0 {
      KeysCount(n - 1);
      assert Keys(n) == Keys(n - 1) + {n - 1};
    }
  }

  /** An exact mirror holds exactly one record per entry. */
  lemma ExactCount(n: Nav)
    requires Exact(n)
    ensures n.storage.Keys == Keys(|n.trail|)
    ensures |n.storage| == |n.trail|
  {
    assert n.storage.Keys == Keys(|n.trail|);
    KeysCount(|n.trail|);
  }

  // ---------------------------------------------------------------------------
  // Restoring from storage (_buildBreadcrumbsFromCookies)

  /** The keys of `store` from `from` on. */
  function Above(store: map<nat, Entry>, from: nat): set<nat>
  {
    set k | k in store && k >= from
  }

  /** The records at keys `from`, `from + 1`, ... up to the first missing key. */
  function Restored(store: map<nat, Entry>, from: nat): seq<Entry>
    decreases Above(store, from)
  {
    if from in store then
      assert Above(store, from + 1) == Above(store, from) - {from};
      [store[from]] + Restored(store, from + 1)
    else []
  }

  /** Restoring yields exactly the records at the consecutive keys from
      `from` on, in key order, and stops at the first missing key. */
  lemma {:induction false} RestoredIsRun(store: map<nat, Entry>, from: nat)
    ensures from + |Restored(store, from)| !in store
    ensures forall k :: from <= k < from + |Restored(store, from)| ==>
              k in store && Restored(store, from)[k - from] == store[k]
    decreases Above(store, from)
  {
    if from in store {
      assert Above(store, from + 1) == Above(store, from) - {from};
      RestoredIsRun(store, from + 1);
      var rest := Restored(store, from + 1);
      var r := Restored(store, from);
      assert r == [store[from]] + rest;
      forall k | from < k < from + |r|
        ensures k in store && r[k - from] == store[k]
      {
        assert r[k - from] == rest[k - (from + 1)];
      }
    }
  }

  /** A store in which every record carries its own key as index restores to
      a valid trail; it is exact when no record lies beyond the first gap. */
  lemma RestoredValid(store: map<nat, Entry>)
    requires forall k :: k in store ==> store[k].index == k
    ensures Valid(Nav(Restored(store, 0), store, false))
    ensures (forall k :: k in store ==> k < |Restored(store, 0)|) ==> Exact(Nav(Restored(store, 0), store, false))
  {
    RestoredIsRun(store, 0);
    var t := Restored(store, 0);
    forall i | 0 <= i < |t|
      ensures i in store && t[i] == store[i]
    {
      assert t[i - 0] == store[i];
    }
    RunIsValid(t, store);
  }

  /** A trail that holds the records at keys 0 .. |t| - 1, each carrying its
      own key, is valid against that store. */
  lemma RunIsValid(t: seq<Entry>, store: map<nat, Entry>)
    requires forall k :: k in store ==> store[k].index == k
    requires forall k :: 0 <= k < |t| ==> k in store && t[k] == store[k]
    ensures Valid(Nav(t, store, false))
    ensures (forall k :: k in store ==> k < |t|) ==> Exact(Nav(t, store, false))
  {
  }

  // ---------------------------------------------------------------------------
  // Storage primitives

  /** An entry as storage keeps it (`toJSON`): a deferred label loses its
      callbacks. */
  function Stored(e: Entry): Entry
  {
    if e.text.Pending? then e.(text := Serialized) else e
  }

  /** The record `addPageEntry` stores: the stored entry without
      `backNavigation`. */
  function Record(e: Entry): Entry
  {
    Stored(e).(backNavigation := None)
  }

  /** No record of `store` carries a label that a callback could resolve. */
  predicate NoCallbacks(store: map<nat, Entry>)
  {
    forall k :: k in store ==> !store[k].text.Pending?
  }

  /** `addPageEntry`: store the record under the entry's index, then append. */
  function AddPageEntry(n: Nav, page: Entry): Nav
  {
    Nav(n.trail + [page], n.storage[page.index := Record(page)], n.resolved)
  }

  /** Appending a page whose index is the trail's size keeps the mirror
      valid (and exact). */
  lemma AddPageEntryEffect(n: Nav, page: Entry)
    requires Valid(n) && page.index == |n.trail|
    ensures Valid(AddPageEntry(n, page))
    ensures Exact(n) ==> Exact(AddPageEntry(n, page))
  {
  }

  /** `removePageEntry`: delete the record under the entry's index, then
      remove the entry. */
  function RemovePageEntry(n: Nav, pos: nat): Nav
    requires pos < |n.trail|
  {
    Nav(n.trail[..pos] + n.trail[pos + 1..], n.storage - {n.trail[pos].index}, n.resolved)
  }

  /** `removePageEntry` does not renumber: removing an entry other than the
      last from a valid trail leaves the next entry one position below its
      index. */
  lemma RemoveMiddleKeepsIndex(n: Nav, pos: nat)
    requires Valid(n) && pos + 1 < |n.trail|
    ensures RemovePageEntry(n, pos).trail[pos].index == pos + 1
    ensures !Indexed(RemovePageEntry(n, pos).trail)
  {
    assert RemovePageEntry(n, pos).trail[pos] == n.trail[pos + 1];
  }

  /** The first `i` steps of `removePageEntries` over the entries from
      position `from` on: each step removes the entry now at `from`. */
  function RemoveSteps(n: Nav, from: nat, i: nat): (r: Nav)
    requires from + i <= |n.trail|
    ensures |r.trail| == |n.trail| - i && r.resolved == n.resolved
    decreases i
  {
    if i == 0 then n else RemovePageEntry(RemoveSteps(n, from, i - 1), from)
  }

  /** The indices carried by the entries at positions `from .. until - 1`. */
  function IndicesOf(t: seq<Entry>, from: nat, until: nat): set<nat>
    requires from <= until <= |t|
    decreases until
  {
    if until == from then {} else IndicesOf(t, from, until - 1) + {t[until - 1].index}
  }

  /** Entries that sit at their index carry exactly their positions. */
  lemma {:induction false} IndicesOfIndexed(t: seq<Entry>, from: nat, until: nat)
    requires from <= until <= |t| && Indexed(t)
    ensures IndicesOf(t, from, until) == Keys(until) - Keys(from)
    decreases until
  {
    if until > from {
      IndicesOfIndexed(t, from, until - 1);
    }
  }

  /** After `i` steps the entries `from .. from + i - 1` are gone, in memory
      and in storage, and nothing else changed. */
  lemma {:induction false} RemoveStepsEffect(n: Nav, from: nat, i: nat)
    requires from + i <= |n.trail|
    ensures RemoveSteps(n, from, i).trail == n.trail[..from] + n.trail[from + i..]
    ensures RemoveSteps(n, from, i).storage == n.storage - IndicesOf(n.trail, from, from + i)
    decreases i
  {
    if i > 0 {
      RemoveStepsEffect(n, from, i - 1);
      RemoveOneMore(n, RemoveSteps(n, from, i - 1), from, i);
    } else {
      assert n.trail[..from] + n.trail[from..] == n.trail;
    }
  }

  /** One more removal step at `from` extends the removed range by one entry. */
  lemma RemoveOneMore(n: Nav, m: Nav, from: nat, i: nat)
    requires 0 < i && from + i <= |n.trail|
    requires m.trail == n.trail[..from] + n.trail[from + i - 1..]
    requires m.storage == n.storage - IndicesOf(n.trail, from, from + i - 1)
    ensures from < |m.trail|
    ensures RemovePageEntry(m, from).trail == n.trail[..from] + n.trail[from + i..]
    ensures RemovePageEntry(m, from).storage == n.storage - IndicesOf(n.trail, from, from + i)
  {
    assert m.trail[from] == n.trail[from + i - 1];
    assert m.trail[..from] == n.trail[..from];
    assert m.trail[from + 1..] == n.trail[from + i..];
    assert IndicesOf(n.trail, from, from + i)
           == IndicesOf(n.trail, from, from + i - 1) + {n.trail[from + i - 1].index};
  }

  /** `removePageEntries` applied to every entry from position `from` on, as
      `removeAll` and `routeToPageEntry` collect them. */
  function RemovePageEntries(n: Nav, from: nat): Nav
  {
    if from < |n.trail| then RemoveSteps(n, from, |n.trail| - from) else n
  }

  /** On a valid trail, removing from `from` on truncates the trail to its
      first `from` entries and deletes exactly the records at the removed
      positions. */
  lemma RemovePageEntriesEffect(n: Nav, from: nat)
    requires Valid(n) && from <= |n.trail|
    ensures RemovePageEntries(n, from).trail == n.trail[..from]
    ensures RemovePageEntries(n, from).storage == n.storage - (Keys(|n.trail|) - Keys(from))
    ensures Valid(RemovePageEntries(n, from))
    ensures Exact(n) ==> Exact(RemovePageEntries(n, from))
    ensures RemovePageEntries(n, from).resolved == n.resolved
  {
    if from < |n.trail| {
      RemoveStepsEffect(n, from, |n.trail| - from);
      IndicesOfIndexed(n.trail, from, |n.trail|);
    } else {
      assert n.trail[..from] == n.trail;
      assert Keys(|n.trail|) - Keys(from) == {};
    }
    TruncatedValid(n, from);
  }

  /** Cutting a valid trail after `from` entries, and deleting the records
      of the cut entries, leaves a valid (exact) mirror. */
  lemma TruncatedValid(n: Nav, from: nat)
    requires Valid(n) && from <= |n.trail|
    ensures var m := Nav(n.trail[..from], n.storage - (Keys(|n.trail|) - Keys(from)), n.resolved);
      Valid(m) && (Exact(n) ==> Exact(m))
  {
    var gone := Keys(|n.trail|) - Keys(from);
    var m := Nav(n.trail[..from], n.storage - gone, n.resolved);
    forall i | 0 <= i < from
      ensures i in m.storage && Mirrors(m.storage[i], m.trail[i]) && m.trail[i].index == i
    {
      assert i !in gone;
    }
    if Exact(n) {
      forall k | k in m.storage
        ensures k < from
      {
        assert k in n.storage && k !in gone;
      }
    }
  }

  /** Setting the back flag of one entry changes nothing storage mirrors. */
  lemma MarkedValid(m: Nav, p: nat)
    requires Valid(m) && p < |m.trail|
    ensures var r := Nav(m.trail[p := m.trail[p].(backNavigation := Some(true))], m.storage, m.resolved);
      Valid(r) && (Exact(m) ==> Exact(r))
  {
  }

  /** `removeAll` empties the trail; on an exact mirror it empties storage too. */
  lemma RemoveAllEffect(n: Nav)
    requires Valid(n)
    ensures RemovePageEntries(n, 0).trail == []
    ensures Exact(n) ==> RemovePageEntries(n, 0).storage == map[]
  {
    RemovePageEntriesEffect(n, 0);
  }

  /** `replacePageEntry`: the new page takes the old entry's index (and, when
      asked, its data); the old entry is removed and the new one added. */
  function ReplacePageEntry(n: Nav, pos: nat, page: Entry, copyPageData: bool): Nav
    requires pos < |n.trail|
  {
    var prev := n.trail[pos];
    var p := page.(index := prev.index, data := if copyPageData then prev.data else page.data);
    AddPageEntry(RemovePageEntry(n, pos), p)
  }

  /** Replacing the last entry of an exact mirror keeps the size: the new page
      takes the old entry's index and data and its record replaces the old one. */
  lemma ReplaceLastEffect(n: Nav, page: Entry)
    requires Exact(n) && |n.trail| > 0
    ensures var k := |n.trail| - 1;
      var r := ReplacePageEntry(n, k, page, true);
      r.trail == n.trail[..k] + [page.(index := k, data := n.trail[k].data)]
      && r.storage == n.storage[k := Record(page.(index := k, data := n.trail[k].data))]
      && Exact(r) && r.resolved == n.resolved
  {
    var k := |n.trail| - 1;
    var m := RemovePageEntry(n, k);
    assert m.trail == n.trail[..k];
    var p := page.(index := k, data := n.trail[k].data);
    var r := AddPageEntry(m, p);
    assert r.storage == n.storage[k := Record(p)];
    assert r.trail == n.trail[..k] + [p];
  }

  // ---------------------------------------------------------------------------
  // Truncation: routeToPageEntry, back, removeLastPageEntry

  /** The trail part of `routeToPageEntry`: remove every entry after the
      page's own index, then mark the page as reached by going back. */
  function RouteToPageEntry(n: Nav, p: nat): Nav
    requires p < |n.trail|
  {
    var m := RemovePageEntries(n, n.trail[p].index + 1);
    if p < |m.trail| then
      Nav(m.trail[p := m.trail[p].(backNavigation := Some(true))], m.storage, m.resolved)
    else m
  }

  /** On a valid trail, routing to entry `p` keeps the entries before it
      untouched, keeps `p` with `backNavigation` set, and deletes the records
      of the entries after it. */
  lemma RouteToPageEntryEffect(n: Nav, p: nat)
    requires Valid(n) && p < |n.trail|
    ensures var r := RouteToPageEntry(n, p);
      r.trail == n.trail[..p] + [n.trail[p].(backNavigation := Some(true))]
      && r.storage == n.storage - (Keys(|n.trail|) - Keys(p + 1))
      && r.resolved == n.resolved
      && Valid(r) && (Exact(n) ==> Exact(r))
  {
    assert n.trail[p].index == p;
    RemovePageEntriesEffect(n, p + 1);
    MarkedAfterTruncation(n, p);
  }

  /** Truncating after entry `p` and marking it leaves a valid (exact) mirror
      whose trail is the entries before `p` followed by the marked `p`. */
  lemma MarkedAfterTruncation(n: Nav, p: nat)
    requires Valid(n) && p < |n.trail|
    ensures var m := Nav(n.trail[..p + 1], n.storage - (Keys(|n.trail|) - Keys(p + 1)), n.resolved);
      var r := Nav(m.trail[p := m.trail[p].(backNavigation := Some(true))], m.storage, m.resolved);
      r.trail == n.trail[..p] + [n.trail[p].(backNavigation := Some(true))]
      && Valid(r) && (Exact(n) ==> Exact(r))
  {
    TruncatedValid(n, p + 1);
    var m := Nav(n.trail[..p + 1], n.storage - (Keys(|n.trail|) - Keys(p + 1)), n.resolved);
    MarkedValid(m, p);
    assert m.trail[..p] == n.trail[..p];
    assert m.trail[p := m.trail[p].(backNavigation := Some(true))]
           == m.trail[..p] + [n.trail[p].(backNavigation := Some(true))];
  }

  /** `back` / `removeLastPageEntry` (trail part): route to the second-to-last
      entry when there are at least two. */
  function Back(n: Nav): Nav
  {
    if |n.trail| > 1 then RouteToPageEntry(n, |n.trail| - 2) else n
  }

  /** Going back on a trail of K > 1 entries leaves K - 1 entries and exactly
      K - 1 records; on K <= 1 entries nothing changes. */
  lemma BackEffect(n: Nav)
    requires Exact(n)
    ensures |n.trail| <= 1 ==> Back(n) == n
    ensures |n.trail| > 1 ==> Back(n).trail == n.trail[..|n.trail| - 2]
                               + [n.trail[|n.trail| - 2].(backNavigation := Some(true))]
    ensures Exact(Back(n)) && |Back(n).storage| == |Back(n).trail|
    ensures |n.trail| > 1 ==> |Back(n).trail| == |n.trail| - 1
    ensures |n.trail| > 1 ==> |n.trail| - 1 !in Back(n).storage
  {
    if |n.trail| > 1 {
      RouteToPageEntryEffect(n, |n.trail| - 2);
    }
    ExactCount(Back(n));
  }

  /** After going back, the current page reports a back navigation, and the
      next candidate entry inherits that flag. */
  lemma BackIsBackNavigation(n: Nav)
    requires Valid(n) && |n.trail| > 1
    ensures IsBackNavigation(Back(n).trail)
    ensures forall url, text, args, uuid, route ::
              NewPage(Back(n).trail, url, text, args, uuid, route).backNavigation == Some(true)
  {
    RouteToPageEntryEffect(n, |n.trail| - 2);
  }

  // ---------------------------------------------------------------------------
  // Startup back-detection (_checkBackNavigationFromBrowser)

  /** Entry `e` is where the browser's own back button led: its URL occurs in
      the current location, and it is a sub-flow or the same server page. */
  predicate BackMatch(e: Entry, serverPageUuid: string, currentPageUrl: string)
  {
    Contains(currentPageUrl, e.url)
    && (Contains(e.url, SubFlowMarker) || e.serverPageUuid == serverPageUuid)
  }

  /** The scan from position `i - 1` down to 0: the last matching entry below `i`. */
  function BackTarget(t: seq<Entry>, serverPageUuid: string, currentPageUrl: string, i: nat): (r: Option<nat>)
    requires i <= |t|
    ensures r.Some? ==> r.value < i && BackMatch(t[r.value], serverPageUuid, currentPageUrl)
    ensures r.Some? ==> forall j :: r.value < j < i ==> !BackMatch(t[j], serverPageUuid, currentPageUrl)
    ensures r.None? ==> forall j :: 0 <= j < i ==> !BackMatch(t[j], serverPageUuid, currentPageUrl)
    decreases i
  {
    if i == 0 then None
    else if BackMatch(t[i - 1], serverPageUuid, currentPageUrl) then Some(i - 1)
    else BackTarget(t, serverPageUuid, currentPageUrl, i - 1)
  }

  /** `_checkBackNavigationFromBrowser` (trail part): route to the most recent
      matching entry, if any. */
  function CheckBackNavigationFromBrowser(n: Nav, serverPageUuid: string, currentPageUrl: string): Nav
  {
    match BackTarget(n.trail, serverPageUuid, currentPageUrl, |n.trail|)
    case None => n
    case Some(p) => RouteToPageEntry(n, p)
  }

  /** The startup scan truncates after the most recent matching entry and
      leaves a trail without a match alone; it keeps the mirror exact. */
  lemma CheckBackNavigationEffect(n: Nav, serverPageUuid: string, currentPageUrl: string)
    requires Exact(n)
    ensures var r := CheckBackNavigationFromBrowser(n, serverPageUuid, currentPageUrl);
      Exact(r)
      && ((forall j :: 0 <= j < |n.trail| ==> !BackMatch(n.trail[j], serverPageUuid, currentPageUrl)) ==> r == n)
      && forall p :: 0 <= p < |n.trail| && BackMatch(n.trail[p], serverPageUuid, currentPageUrl)
           && (forall j :: p < j < |n.trail| ==> !BackMatch(n.trail[j], serverPageUuid, currentPageUrl))
           ==> r.trail == n.trail[..p] + [n.trail[p].(backNavigation := Some(true))]
  {
    var b := BackTarget(n.trail, serverPageUuid, currentPageUrl, |n.trail|);
    if b.Some? {
      RouteToPageEntryEffect(n, b.value);
      forall p | 0 <= p < |n.trail| && BackMatch(n.trail[p], serverPageUuid, currentPageUrl)
                 && (forall j :: p < j < |n.trail| ==> !BackMatch(n.trail[j], serverPageUuid, currentPageUrl))
        ensures p == b.value
      {
        BackTargetIsLastMatch(n.trail, serverPageUuid, currentPageUrl, p);
      }
    }
  }

  /** The scan picks the most recent matching entry. */
  lemma BackTargetIsLastMatch(t: seq<Entry>, serverPageUuid: string, currentPageUrl: string, p: nat)
    requires p < |t| && BackMatch(t[p], serverPageUuid, currentPageUrl)
    requires forall j :: p < j < |t| ==> !BackMatch(t[j], serverPageUuid, currentPageUrl)
    ensures BackTarget(t, serverPageUuid, currentPageUrl, |t|) == Some(p)
  {
    var b := BackTarget(t, serverPageUuid, currentPageUrl, |t|);
    assert b.Some?;
  }

  // ---------------------------------------------------------------------------
  // Duplicate-URL sync (_syncServerPageUuidWithDuplicatesOfPageEntry)

  /** Entry `e` after the sync against `page`. */
  function Synced(e: Entry, page: Entry): Entry
  {
    if e.url == page.url then e.(serverPageUuid := page.serverPageUuid) else e
  }

  /** The first `i` iterations of the sync loop. */
  function SyncSteps(n: Nav, page: Entry, i: nat): (r: Nav)
    requires i <= |n.trail|
    ensures |r.trail| == |n.trail| && r.resolved == n.resolved
    decreases i
  {
    if i == 0 then n
    else
      var m := SyncSteps(n, page, i - 1);
      var e := m.trail[i - 1];
      if e.url == page.url then
        var e' := e.(serverPageUuid := page.serverPageUuid);
        Nav(m.trail[i - 1 := e'], m.storage[e'.index := Stored(e')], m.resolved)
      else m
  }

  function SyncServerPageUuid(n: Nav, page: Entry): Nav
  {
    SyncSteps(n, page, |n.trail|)
  }

  /** Every entry of the trail has a record under its position. */
  predicate Covered(n: Nav)
  {
    forall i :: 0 <= i < |n.trail| ==> i in n.storage
  }

  lemma {:induction false} SyncStepsTrail(n: Nav, page: Entry, i: nat)
    requires i <= |n.trail|
    ensures forall j :: 0 <= j < |n.trail| ==>
              SyncSteps(n, page, i).trail[j] == if j < i then Synced(n.trail[j], page) else n.trail[j]
    decreases i
  {
    if i > 0 {
      SyncStepsTrail(n, page, i - 1);
    }
  }

  /** The storage after the first `i` sync steps on a covered, indexed trail. */
  function SyncedStore(n: Nav, page: Entry, i: nat): map<nat, Entry>
    requires i <= |n.trail|
  {
    map k | k in n.storage :: if k < i && n.trail[k].url == page.url then Stored(Synced(n.trail[k], page)) else n.storage[k]
  }

  lemma SyncedStoreStep(n: Nav, page: Entry, i: nat)
    requires Covered(n) && 0 < i <= |n.trail|
    ensures SyncedStore(n, page, i)
            == if n.trail[i - 1].url == page.url
               then SyncedStore(n, page, i - 1)[i - 1 := Stored(Synced(n.trail[i - 1], page))]
               else SyncedStore(n, page, i - 1)
  {
  }

  lemma SyncStepStorage(n: Nav, page: Entry, i: nat)
    requires Indexed(n.trail) && Covered(n) && 0 < i <= |n.trail|
    requires SyncSteps(n, page, i - 1).trail[i - 1] == n.trail[i - 1]
    requires SyncSteps(n, page, i - 1).storage == SyncedStore(n, page, i - 1)
    ensures SyncSteps(n, page, i).storage == SyncedStore(n, page, i)
  {
    SyncedStoreStep(n, page, i);
    var m := SyncSteps(n, page, i - 1);
    var e := m.trail[i - 1];
    assert e.index == i - 1;
    if e.url == page.url {
      assert SyncSteps(n, page, i).storage == m.storage[i - 1 := Stored(Synced(e, page))];
    } else {
      assert SyncSteps(n, page, i) == m;
    }
  }

  lemma {:induction false} SyncStepsStorage(n: Nav, page: Entry, i: nat)
    requires Indexed(n.trail) && Covered(n) && i <= |n.trail|
    ensures SyncSteps(n, page, i).storage == SyncedStore(n, page, i)
    decreases i
  {
    if i > 0 {
      SyncStepsTrail(n, page, i - 1);
      SyncStepsStorage(n, page, i - 1);
      SyncStepStorage(n, page, i);
    } else {
      assert SyncedStore(n, page, 0) == n.storage;
    }
  }

  /** The sync changes only the `serverPageUuid` of entries whose URL is the
      new page's URL; order, length and every other field stay as they were. */
  lemma SyncTrailEffect(n: Nav, page: Entry)
    ensures var r := SyncServerPageUuid(n, page);
      |r.trail| == |n.trail| && r.resolved == n.resolved
      && forall j :: 0 <= j < |n.trail| ==>
           r.trail[j] == n.trail[j].(serverPageUuid :=
             if n.trail[j].url == page.url then page.serverPageUuid else n.trail[j].serverPageUuid)
  {
    SyncStepsTrail(n, page, |n.trail|);
  }

  /** On a valid trail the sync rewrites exactly the records of the entries
      it changed, with those entries as storage keeps them, and keeps the key
      set. */
  lemma SyncStorageEffect(n: Nav, page: Entry)
    requires Valid(n)
    ensures var r := SyncServerPageUuid(n, page);
      r.storage.Keys == n.storage.Keys
      && (forall k :: k in n.storage && !(k < |n.trail| && n.trail[k].url == page.url) ==> r.storage[k] == n.storage[k])
      && (forall k :: 0 <= k < |n.trail| && n.trail[k].url == page.url ==> r.storage[k] == Stored(Synced(n.trail[k], page)))
  {
    SyncStepsStorage(n, page, |n.trail|);
  }

  /** The sync keeps the mirror valid, and exact. */
  lemma SyncKeepsValid(n: Nav, page: Entry)
    requires Valid(n)
    ensures Valid(SyncServerPageUuid(n, page))
    ensures Exact(n) ==> Exact(SyncServerPageUuid(n, page))
  {
    SyncStepsTrail(n, page, |n.trail|);
    SyncStepsStorage(n, page, |n.trail|);
    var r := SyncServerPageUuid(n, page);
    forall i | 0 <= i < |r.trail|
      ensures r.trail[i].index == i && i in r.storage && Mirrors(r.storage[i], r.trail[i])
    {
      assert r.trail[i] == Synced(n.trail[i], page);
    }
  }

  // ---------------------------------------------------------------------------
  // Tail eviction (checkBreadcrumbsTail)

  function Renumbered(s: seq<Entry>): (r: seq<Entry>)
    ensures |r| == |s|
  {
    seq(|s|, j requires 0 <= j < |s| => s[j].(index := j))
  }

  /** `checkBreadcrumbsTail`: over the bound, delete the records at keys
      0 .. size - 1, drop the first entry, renumber the rest and store each
      under its new index. */
  function CheckBreadcrumbsTail(n: Nav, maxPageEntries: nat): Nav
  {
    if |n.trail| <= maxPageEntries then n
    else
      var rest := Renumbered(n.trail[1..]);
      Nav(rest,
          map k | k in Keys(|rest|) + (n.storage.Keys - Keys(|n.trail|))
            :: if k < |rest| then Stored(rest[k]) else n.storage[k],
          n.resolved)
  }

  /** Over the bound, exactly the first entry is dropped, the others are
      renumbered 0 .. n - 1 and stored under those keys, and no record stays
      at the old last index; within the bound nothing changes. */
  lemma TailEffect(n: Nav, maxPageEntries: nat)
    requires Exact(n)
    ensures var r := CheckBreadcrumbsTail(n, maxPageEntries);
      Exact(r) && r.resolved == n.resolved
      && (|n.trail| <= maxPageEntries ==> r == n)
      && (|n.trail| > maxPageEntries ==>
            |r.trail| == |n.trail| - 1
            && (forall j :: 0 <= j < |r.trail| ==> r.trail[j] == n.trail[j + 1].(index := j))
            && (forall j :: 0 <= j < |r.trail| ==> r.storage[j] == Stored(r.trail[j]))
            && |n.trail| - 1 !in r.storage)
  {
    if |n.trail| > maxPageEntries {
      var r := CheckBreadcrumbsTail(n, maxPageEntries);
      var rest := Renumbered(n.trail[1..]);
      assert r.trail == rest;
      forall j | 0 <= j < |rest|
        ensures rest[j].index == j && j in r.storage && r.storage[j] == Stored(rest[j])
      {
        assert j in Keys(|rest|);
      }
      forall k | k in r.storage
        ensures k < |rest|
      {
        assert k !in n.storage.Keys - Keys(|n.trail|);
      }
    }
  }

  /** Eviction keeps a valid trail valid even when stale records lie beyond it. */
  lemma TailKeepsValid(n: Nav, maxPageEntries: nat)
    requires Valid(n)
    ensures Valid(CheckBreadcrumbsTail(n, maxPageEntries))
  {
  }

  // ---------------------------------------------------------------------------
  // Queries: getCurrentPage, getCurrentPageData, isBackNavigation

  /** `getCurrentPage`: the last entry, if any. */
  function CurrentPage(t: seq<Entry>): (r: Option<Entry>)
    ensures r.Some? <==> |t| > 0
    ensures r.Some? ==> r.value == t[|t| - 1]
  {
    if |t| > 0 then Some(t[|t| - 1]) else None
  }

  /** `getCurrentPageData`: the value under a non-empty key in the current
      page's data map. */
  function GetCurrentPageData(t: seq<Entry>, key: string): (r: Option<string>)
    ensures r.Some? <==> |t| > 0 && key != "" && key in t[|t| - 1].data
    ensures r.Some? ==> r.value == t[|t| - 1].data[key]
  {
    match CurrentPage(t)
    case None => None
    case Some(page) => if key != "" && key in page.data then Some(page.data[key]) else None
  }

  /** `isBackNavigation`: the current page carries `backNavigation == true`. */
  function IsBackNavigation(t: seq<Entry>): (r: bool)
    ensures r <==> |t| > 0 && t[|t| - 1].backNavigation == Some(true)
  {
    match CurrentPage(t)
    case None => false
    case Some(page) => page.backNavigation.Some? && page.backNavigation.value
  }

  // ---------------------------------------------------------------------------
  // Per-page data (putDataToPage)

  /** `putDataToPage`: set `key` in the data of the given page (by position)
      or of the current page, and store the whole entry under its index. */
  function PutDataToPage(n: Nav, key: string, value: string, page: Option<nat>): Nav
    requires page.Some? ==> page.value < |n.trail|
  {
    var target := if page.Some? then page else if |n.trail| > 0 then Some(|n.trail| - 1) else None;
    match target
    case None => n
    case Some(q) =>
      var e := n.trail[q].(data := n.trail[q].data[key := value]);
      Nav(n.trail[q := e], n.storage[e.index := Stored(e)], n.resolved)
  }

  /** Data put on the current page is read back by `getCurrentPageData`, is
      stored with the page, and keeps the mirror exact. */
  lemma PutThenGet(n: Nav, key: string, value: string)
    requires Exact(n) && |n.trail| > 0 && key != ""
    ensures GetCurrentPageData(PutDataToPage(n, key, value, None).trail, key) == Some(value)
    ensures PutDataToPage(n, key, value, None).storage[|n.trail| - 1].data[key] == value
    ensures Exact(PutDataToPage(n, key, value, None))
  {
  }

  /** Data put on the entry at position `q` is set in that entry and in its
      stored record; every other entry and record stays, and the mirror stays
      exact. */
  lemma PutDataAt(n: Nav, key: string, value: string, q: nat)
    requires Exact(n) && q < |n.trail|
    ensures var r := PutDataToPage(n, key, value, Some(q));
      Exact(r) && r.resolved == n.resolved && |r.trail| == |n.trail|
      && r.trail[q] == n.trail[q].(data := n.trail[q].data[key := value])
      && r.storage[q] == Stored(r.trail[q]) && r.storage[q].data[key] == value
      && (forall j :: 0 <= j < |n.trail| && j != q ==> r.trail[j] == n.trail[j])
      && (forall k :: k in n.storage && k != q ==> r.storage[k] == n.storage[k])
      && (NoCallbacks(n.storage) ==> NoCallbacks(r.storage))
  {
    assert n.trail[q].index == q;
  }

  // ---------------------------------------------------------------------------
  // Completion signal (isAllPagesResolved, checkBreadcrumbs, label resolution)

  predicate AllResolved(t: seq<Entry>)
  {
    forall i :: 0 <= i < |t| ==> t[i].isResolved
  }

  /** `checkBreadcrumbs`: resolve the future once the trail is non-empty and
      every entry is resolved; resolving again changes nothing. */
  function CheckBreadcrumbs(n: Nav): Nav
  {
    if AllResolved(n.trail) && |n.trail| > 0 then n.(resolved := true) else n
  }

  /** The `done` callback of a deferred label: every entry still waiting on
      `token` gets its text and is resolved, then `checkBreadcrumbs` runs.
      Storage is not rewritten. */
  function ResolveLabel(n: Nav, token: nat, text: string): Nav
  {
    CheckBreadcrumbs(Nav(LabelResolved(n.trail, token, text), n.storage, n.resolved))
  }

  /** The entries waiting on `token` receive `text` and are resolved. */
  function LabelResolved(t: seq<Entry>, token: nat, text: string): seq<Entry>
  {
    seq(|t|, i requires 0 <= i < |t| =>
      if t[i].text == Pending(token) then t[i].(text := Literal(text), isResolved := true) else t[i])
  }

  /** The completion flag is set only for a non-empty, fully resolved trail,
      and once set it stays set. */
  lemma CheckBreadcrumbsEffect(n: Nav)
    ensures CheckBreadcrumbs(n).trail == n.trail && CheckBreadcrumbs(n).storage == n.storage
    ensures CheckBreadcrumbs(n).resolved
            <==> n.resolved || (|n.trail| > 0 && forall i :: 0 <= i < |n.trail| ==> n.trail[i].isResolved)
  {
  }

  /** Resolving the last pending label of a non-empty trail fires the
      completion signal; while another entry is unresolved it does not. */
  lemma ResolveLabelEffect(n: Nav, token: nat, text: string)
    ensures n.resolved ==> ResolveLabel(n, token, text).resolved
    ensures |n.trail| > 0
            && (forall i :: 0 <= i < |n.trail| ==> n.trail[i].isResolved || n.trail[i].text == Pending(token))
            ==> ResolveLabel(n, token, text).resolved
    ensures !n.resolved
            && (exists i :: 0 <= i < |n.trail| && !n.trail[i].isResolved && n.trail[i].text != Pending(token))
            ==> !ResolveLabel(n, token, text).resolved
    ensures Valid(n) ==> Valid(ResolveLabel(n, token, text))
    ensures Exact(n) ==> Exact(ResolveLabel(n, token, text))
  {
    var t := ResolveLabel(n, token, text).trail;
    if exists i :: 0 <= i < |n.trail| && !n.trail[i].isResolved && n.trail[i].text != Pending(token) {
      var i :| 0 <= i < |n.trail| && !n.trail[i].isResolved && n.trail[i].text != Pending(token);
      assert !t[i].isResolved;
    }
  }

  /** A callback never reaches a restored entry: when storage holds no
      resolvable label, resolving any token leaves the restored trail as it
      is, so an unresolved restored entry keeps the future unresolved. */
  lemma RestoredLabelsStayPut(store: map<nat, Entry>, resolved: bool, token: nat, text: string)
    requires NoCallbacks(store)
    ensures var n := Nav(Restored(store, 0), store, resolved);
      LabelResolved(n.trail, token, text) == n.trail
      && ResolveLabel(n, token, text) == CheckBreadcrumbs(n)
      && ((exists i :: 0 <= i < |n.trail| && !n.trail[i].isResolved) ==> ResolveLabel(n, token, text).resolved == resolved)
  {
    RestoredIsRun(store, 0);
    var t := Restored(store, 0);
    forall i | 0 <= i < |t|
      ensures !t[i].text.Pending?
    {
      assert t[i - 0] == store[i];
    }
    assert LabelResolved(t, token, text) == t;
  }

  lemma {:induction false} SyncStepsDropCallbacks(n: Nav, page: Entry, i: nat)
    requires NoCallbacks(n.storage) && i <= |n.trail|
    ensures NoCallbacks(SyncSteps(n, page, i).storage)
    decreases i
  {
    if i > 0 {
      SyncStepsDropCallbacks(n, page, i - 1);
    }
  }

  lemma {:induction false} RemoveStepsDropCallbacks(n: Nav, from: nat, i: nat)
    requires NoCallbacks(n.storage) && from + i <= |n.trail|
    ensures NoCallbacks(RemoveSteps(n, from, i).storage)
    decreases i
  {
    if i > 0 {
      RemoveStepsDropCallbacks(n, from, i - 1);
    }
  }

  /** Every write to storage goes through `Stored`: no operation gives
      storage a label that a callback could resolve. */
  lemma WritesDropCallbacks(n: Nav, page: Entry, maxPageEntries: nat,
                            token: nat, text: string, key: string, value: string)
    requires NoCallbacks(n.storage)
    ensures NoCallbacks(AddPageEntry(n, page).storage)
    ensures NoCallbacks(SyncServerPageUuid(n, page).storage)
    ensures NoCallbacks(CheckBreadcrumbsTail(n, maxPageEntries).storage)
    ensures NoCallbacks(PutDataToPage(n, key, value, None).storage)
    ensures NoCallbacks(ResolveLabel(n, token, text).storage)
  {
    SyncStepsDropCallbacks(n, page, |n.trail|);
    TailDropsCallbacks(n, maxPageEntries);
  }

  lemma TailDropsCallbacks(n: Nav, maxPageEntries: nat)
    requires NoCallbacks(n.storage)
    ensures NoCallbacks(CheckBreadcrumbsTail(n, maxPageEntries).storage)
  {
  }

  /** Removals only delete records: neither they nor going back give
      storage a resolvable label. */
  lemma RemovalsDropCallbacks(n: Nav, from: nat)
    requires NoCallbacks(n.storage)
    ensures NoCallbacks(RemovePageEntries(n, from).storage)
  {
    if from < |n.trail| {
      RemoveStepsDropCallbacks(n, from, |n.trail| - from);
    }
  }

  lemma BackDropsCallbacks(n: Nav)
    requires NoCallbacks(n.storage)
    ensures NoCallbacks(Back(n).storage)
  {
    if |n.trail| > 1 {
      RemovalsDropCallbacks(n, n.trail[|n.trail| - 2].index + 1);
    }
  }

  /** So does every reconciliation of a fired route. */
  lemma ReconcileDropsCallbacks(n: Nav, page: Entry, key: Option<string>, maxPageEntries: nat)
    requires NoCallbacks(n.storage)
    ensures NoCallbacks(Reconcile(n, page, key, maxPageEntries).0.storage)
  {
    var last := CurrentPage(n.trail);
    if ImplicitBack(last, page) {
      BackDropsCallbacks(n);
      assert Reconcile(n, page, key, maxPageEntries).0 == Back(n);
    } else {
      SyncStepsDropCallbacks(n, page, |n.trail|);
      var m := SyncServerPageUuid(n, page);
      if last.Some? && last.value.route == page.route && !ArgChanged(last, page, key) {
        assert Reconcile(n, page, key, maxPageEntries).0 == ReplacePageEntry(m, |n.trail| - 1, page, true);
      } else {
        var a := AddPageEntry(m, page);
        TailDropsCallbacks(a, maxPageEntries);
        assert Reconcile(n, page, key, maxPageEntries).0 == CheckBreadcrumbsTail(a, maxPageEntries);
      }
    }
  }

  // ---------------------------------------------------------------------------
  // Route reconciliation (_mapNavigation)

  function TemplateLabel(template: Template, args: Args): Label
  {
    match template
    case Fixed(l) => l
    case Computed(f) => f(args)
  }

  /** The candidate entry `_mapNavigation` builds: resolved unless its label
      is deferred, positioned after the trail, with empty data and the back
      flag of the current page. */
  function NewPage(t: seq<Entry>, url: string, text: Label, args: Args, serverPageUuid: string, route: string): Entry
  {
    Entry(url, text, args, !text.Pending?, serverPageUuid, route, |t|, map[], Some(IsBackNavigation(t)))
  }

  /** Returning from a `#!` sub-flow to the same server page. */
  predicate ImplicitBack(last: Option<Entry>, page: Entry)
  {
    last.Some? && !Contains(page.url, SubFlowMarker) && Contains(last.value.url, SubFlowMarker)
    && page.serverPageUuid == last.value.serverPageUuid
  }

  /** The `newEntryOnArgChange` argument (a non-empty name) has another value
      in the new page than in the last one. */
  predicate ArgChanged(last: Option<Entry>, page: Entry, newEntryOnArgChange: Option<string>)
  {
    last.Some? && newEntryOnArgChange.Some? && newEntryOnArgChange.value != ""
    && Lookup(page.mappedArgs, ":" + newEntryOnArgChange.value)
       != Lookup(last.value.mappedArgs, ":" + newEntryOnArgChange.value)
  }

  /** The decision and the mutation `_mapNavigation` makes with a candidate. */
  function Reconcile(n: Nav, page: Entry, newEntryOnArgChange: Option<string>, maxPageEntries: nat): (Nav, Step)
  {
    var last := CurrentPage(n.trail);
    if ImplicitBack(last, page) then (Back(n), WentBack)
    else
      var m := SyncServerPageUuid(n, page);
      if last.Some? && last.value.route == page.route && !ArgChanged(last, page, newEntryOnArgChange) then
        (ReplacePageEntry(m, |n.trail| - 1, page, true), Replaced)
      else
        (CheckBreadcrumbsTail(AddPageEntry(m, page), maxPageEntries), Appended)
  }

  /** `_mapNavigation`: routes absent from the navigation tree are ignored;
      otherwise the candidate entry is built and reconciled. */
  function MapNavigation(n: Nav, tree: map<string, Descriptor>, route: string, routes: RouteTable,
                         shortRoute: string, args: Args, serverPageUuid: string, maxPageEntries: nat): (Nav, Step)
  {
    if route !in tree then (n, Ignored)
    else match RouteUrl(routes, shortRoute)
      case None => (n, MissingRouteUrl)
      case Some(pattern) =>
        var d := tree[route];
        var page := NewPage(n.trail, MappedUrl(pattern, args), TemplateLabel(d.template, args), args, serverPageUuid, route);
        Reconcile(n, page, d.newEntryOnArgChange, maxPageEntries)
  }

  /** A route outside the navigation tree changes nothing. */
  lemma UnknownRouteIgnored(n: Nav, tree: map<string, Descriptor>, route: string, routes: RouteTable,
                            shortRoute: string, args: Args, serverPageUuid: string, maxPageEntries: nat)
    requires route !in tree
    ensures MapNavigation(n, tree, route, routes, shortRoute, args, serverPageUuid, maxPageEntries) == (n, Ignored)
  {
  }

  /** Implicit back: no entry is added, and the trail shrinks by one when it
      had more than one entry. */
  lemma ReconcileImplicitBack(n: Nav, page: Entry, key: Option<string>, maxPageEntries: nat)
    requires Exact(n)
    requires |n.trail| > 0 && !Contains(page.url, SubFlowMarker)
    requires Contains(n.trail[|n.trail| - 1].url, SubFlowMarker)
    requires page.serverPageUuid == n.trail[|n.trail| - 1].serverPageUuid
    ensures var (r, step) := Reconcile(n, page, key, maxPageEntries);
      step == WentBack && Exact(r) && r.resolved == n.resolved
      && |r.trail| == (if |n.trail| > 1 then |n.trail| - 1 else |n.trail|)
      && forall j :: 0 <= j < |r.trail| ==> r.trail[j].url == n.trail[j].url
  {
    assert ImplicitBack(CurrentPage(n.trail), page);
    assert Reconcile(n, page, key, maxPageEntries) == (Back(n), WentBack);
    BackEffect(n);
    BackKeepsUrls(n);
  }

  /** Going back keeps the URLs of the entries that remain. */
  lemma BackKeepsUrls(n: Nav)
    requires Exact(n)
    ensures |Back(n).trail| <= |n.trail|
    ensures forall j :: 0 <= j < |Back(n).trail| ==> Back(n).trail[j].url == n.trail[j].url
  {
    BackEffect(n);
    if |n.trail| > 1 {
      MarkedPrefixUrls(n.trail, |n.trail| - 2);
    }
  }

  lemma MarkedPrefixUrls(t: seq<Entry>, p: nat)
    requires p < |t|
    ensures var r := t[..p] + [t[p].(backNavigation := Some(true))];
      |r| == p + 1 && forall j :: 0 <= j < |r| ==> r[j].url == t[j].url
  {
    var r := t[..p] + [t[p].(backNavigation := Some(true))];
    forall j | 0 <= j < |r|
      ensures r[j].url == t[j].url
    {
      if j < p {
        assert r[j] == t[..p][j];
      }
    }
  }

  /** Same route, tracked argument unchanged: the last entry is replaced by
      the candidate, which keeps the old index and data; the size stays, and
      the earlier entries and records are only synced. */
  lemma ReconcileReplace(n: Nav, page: Entry, key: Option<string>, maxPageEntries: nat)
    requires Exact(n) && |n.trail| > 0
    requires !ImplicitBack(CurrentPage(n.trail), page)
    requires n.trail[|n.trail| - 1].route == page.route
    requires !ArgChanged(CurrentPage(n.trail), page, key)
    ensures var (r, step) := Reconcile(n, page, key, maxPageEntries);
      var k := |n.trail| - 1;
      step == Replaced && Exact(r) && r.resolved == n.resolved
      && |r.trail| == |n.trail|
      && r.trail[k] == page.(index := k, data := n.trail[k].data)
      && r.storage[k] == Record(r.trail[k])
      && (forall j :: 0 <= j < k ==> r.trail[j] == Synced(n.trail[j], page))
      && forall j :: 0 <= j < k ==>
           j in r.storage
           && r.storage[j] == if n.trail[j].url == page.url then Stored(Synced(n.trail[j], page)) else n.storage[j]
  {
    var m := SyncServerPageUuid(n, page);
    var k := |n.trail| - 1;
    assert Reconcile(n, page, key, maxPageEntries) == (ReplacePageEntry(m, k, page, true), Replaced);
    SyncThenReplaceLast(n, page);
  }

  /** The state the replace branch leaves: the synced trail with its last
      entry replaced by the candidate. */
  lemma SyncThenReplaceLast(n: Nav, page: Entry)
    requires Exact(n) && |n.trail| > 0
    ensures var k := |n.trail| - 1;
      var r := ReplacePageEntry(SyncServerPageUuid(n, page), k, page, true);
      Exact(r) && r.resolved == n.resolved
      && |r.trail| == |n.trail|
      && r.trail[k] == page.(index := k, data := n.trail[k].data)
      && r.storage[k] == Record(r.trail[k])
      && (forall j :: 0 <= j < k ==> r.trail[j] == Synced(n.trail[j], page))
      && forall j :: 0 <= j < k ==>
           j in r.storage
           && r.storage[j] == if n.trail[j].url == page.url then Stored(Synced(n.trail[j], page)) else n.storage[j]
  {
    SyncTrailEffect(n, page);
    SyncKeepsValid(n, page);
    var m := SyncServerPageUuid(n, page);
    var k := |n.trail| - 1;
    assert m.trail[k].data == n.trail[k].data;
    SyncStorageEffect(n, page);
    ReplaceLastEffect(m, page);
    var r := ReplacePageEntry(m, k, page, true);
    forall j | 0 <= j < k
      ensures r.trail[j] == Synced(n.trail[j], page)
      ensures j in r.storage && r.storage[j] == m.storage[j]
    {
      assert r.trail[j] == m.trail[..k][j];
      assert j in n.storage;
    }
  }

  /** Otherwise the candidate is appended after the synced trail. Below the
      bound it lands at index `size` with its record stored there, and the
      earlier entries and records are only synced. At or over the bound the
      oldest entry is dropped, the others move down one position and take it
      as index, the candidate ends last, and every entry is stored under its
      position. A trail within the bound stays within it. */
  lemma ReconcileAppend(n: Nav, page: Entry, key: Option<string>, maxPageEntries: nat)
    requires Exact(n) && page.index == |n.trail|
    requires !ImplicitBack(CurrentPage(n.trail), page)
    requires |n.trail| == 0 || n.trail[|n.trail| - 1].route != page.route
             || ArgChanged(CurrentPage(n.trail), page, key)
    ensures var (r, step) := Reconcile(n, page, key, maxPageEntries);
      step == Appended && Exact(r) && r.resolved == n.resolved
      && (|n.trail| < maxPageEntries ==>
            |r.trail| == |n.trail| + 1 && r.trail[|n.trail|] == page
            && r.storage[|n.trail|] == Record(page)
            && (forall j :: 0 <= j < |n.trail| ==> r.trail[j] == Synced(n.trail[j], page))
            && forall k :: 0 <= k < |n.trail| ==>
                 r.storage[k] == if n.trail[k].url == page.url then Stored(Synced(n.trail[k], page)) else n.storage[k])
      && (|n.trail| >= maxPageEntries ==>
            |r.trail| == |n.trail|
            && (forall j :: 0 <= j < |n.trail| - 1 ==> r.trail[j] == Synced(n.trail[j + 1], page).(index := j))
            && (|n.trail| > 0 ==> r.trail[|n.trail| - 1] == page.(index := |n.trail| - 1))
            && forall j :: 0 <= j < |r.trail| ==> r.storage[j] == Stored(r.trail[j]))
      && (|n.trail| <= maxPageEntries ==> |r.trail| <= maxPageEntries)
  {
    SyncTrailEffect(n, page);
    SyncKeepsValid(n, page);
    var m := SyncServerPageUuid(n, page);
    AddPageEntryEffect(m, page);
    var a := AddPageEntry(m, page);
    TailEffect(a, maxPageEntries);
    assert Reconcile(n, page, key, maxPageEntries) == (CheckBreadcrumbsTail(a, maxPageEntries), Appended);
    if |n.trail| < maxPageEntries {
      AppendWithinBound(n, page, maxPageEntries);
    } else {
      AppendAtBound(n, page, maxPageEntries);
    }
  }

  /** Below the bound the append leaves the synced trail and storage with
      the candidate added at index `size`. */
  lemma AppendWithinBound(n: Nav, page: Entry, maxPageEntries: nat)
    requires Exact(n) && page.index == |n.trail| && |n.trail| < maxPageEntries
    ensures var r := CheckBreadcrumbsTail(AddPageEntry(SyncServerPageUuid(n, page), page), maxPageEntries);
      (forall j :: 0 <= j < |n.trail| ==> r.trail[j] == Synced(n.trail[j], page))
      && forall k :: 0 <= k < |n.trail| ==>
           k in r.storage
           && r.storage[k] == if n.trail[k].url == page.url then Stored(Synced(n.trail[k], page)) else n.storage[k]
  {
    SyncTrailEffect(n, page);
    SyncStorageEffect(n, page);
    var m := SyncServerPageUuid(n, page);
    var a := AddPageEntry(m, page);
    assert |a.trail| <= maxPageEntries;
    forall j | 0 <= j < |n.trail|
      ensures a.trail[j] == Synced(n.trail[j], page)
    {
      assert a.trail[j] == m.trail[j];
    }
    forall k | 0 <= k < |n.trail|
      ensures k in a.storage && a.storage[k] == m.storage[k]
    {
      assert k in n.storage;
    }
  }

  /** At or over the bound the append drops the oldest entry: the others
      move down one position, the candidate ends last, and each is stored
      under its new index. */
  lemma AppendAtBound(n: Nav, page: Entry, maxPageEntries: nat)
    requires Exact(n) && page.index == |n.trail| && |n.trail| >= maxPageEntries
    ensures var r := CheckBreadcrumbsTail(AddPageEntry(SyncServerPageUuid(n, page), page), maxPageEntries);
      |r.trail| == |n.trail|
      && (forall j :: 0 <= j < |n.trail| - 1 ==> r.trail[j] == Synced(n.trail[j + 1], page).(index := j))
      && (|n.trail| > 0 ==> r.trail[|n.trail| - 1] == page.(index := |n.trail| - 1))
      && forall j :: 0 <= j < |r.trail| ==> r.storage[j] == Stored(r.trail[j])
  {
    SyncTrailEffect(n, page);
    SyncKeepsValid(n, page);
    var m := SyncServerPageUuid(n, page);
    AddPageEntryEffect(m, page);
    var a := AddPageEntry(m, page);
    TailEffect(a, maxPageEntries);
    assert a.trail[|n.trail|] == page;
    forall i | 0 <= i < |n.trail|
      ensures a.trail[i] == Synced(n.trail[i], page)
    {
      assert a.trail[i] == m.trail[i];
    }
  }

  /** Every reconciliation keeps the mirror exact, never touches the
      completion flag, and never lets a trail within the bound outgrow it. */
  lemma ReconcileKeepsExact(n: Nav, page: Entry, key: Option<string>, maxPageEntries: nat)
    requires Exact(n) && page.index == |n.trail|
    ensures Exact(Reconcile(n, page, key, maxPageEntries).0)
    ensures Reconcile(n, page, key, maxPageEntries).0.resolved == n.resolved
    ensures |n.trail| <= maxPageEntries ==> |Reconcile(n, page, key, maxPageEntries).0.trail| <= maxPageEntries
  {
    var last := CurrentPage(n.trail);
    if ImplicitBack(last, page) {
      BackEffect(n);
    } else if last.Some? && last.value.route == page.route && !ArgChanged(last, page, key) {
      ReconcileReplace(n, page, key, maxPageEntries);
    } else {
      ReconcileAppend(n, page, key, maxPageEntries);
    }
  }

  /** Firing the same route again with the same arguments and URL replaces
      the entry the first firing appended, below the bound as well as at it:
      the size is unchanged. */
  lemma RefireReplaces(n: Nav, page: Entry, again: Entry, key: Option<string>, maxPageEntries: nat)
    requires Exact(n) && page.index == |n.trail| && maxPageEntries > 0
    requires Reconcile(n, page, key, maxPageEntries).1 == Appended
    requires again.route == page.route && again.url == page.url && again.mappedArgs == page.mappedArgs
    ensures var (m, _) := Reconcile(n, page, key, maxPageEntries);
      Reconcile(m, again, key, maxPageEntries).1 == Replaced
      && |Reconcile(m, again, key, maxPageEntries).0.trail| == |m.trail|
      && (|n.trail| < maxPageEntries ==> |m.trail| == |n.trail| + 1)
  {
    AppendedEndsWithPage(n, page, key, maxPageEntries);
    var m := Reconcile(n, page, key, maxPageEntries).0;
    assert !ImplicitBack(CurrentPage(m.trail), again);
    assert !ArgChanged(CurrentPage(m.trail), again, key);
    ReconcileReplace(m, again, key, maxPageEntries);
  }

  /** Whenever a firing appends and the bound admits an entry, the new page
      is the last entry, at the last index. */
  lemma AppendedEndsWithPage(n: Nav, page: Entry, key: Option<string>, maxPageEntries: nat)
    requires Exact(n) && page.index == |n.trail| && maxPageEntries > 0
    requires Reconcile(n, page, key, maxPageEntries).1 == Appended
    ensures var m := Reconcile(n, page, key, maxPageEntries).0;
      Exact(m) && |m.trail| > 0 && m.trail[|m.trail| - 1] == page.(index := |m.trail| - 1)
      && (|n.trail| < maxPageEntries ==> |m.trail| == |n.trail| + 1)
  {
    var last := CurrentPage(n.trail);
    assert !ImplicitBack(last, page);
    assert |n.trail| == 0 || n.trail[|n.trail| - 1].route != page.route || ArgChanged(last, page, key);
    ReconcileAppend(n, page, key, maxPageEntries);
  }
}
