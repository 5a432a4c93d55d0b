/**
 * The navigation tracker of src/background_scripts/web_tracker.mjs. It keeps
 * a map from browser tab ids to the pages they show, remembers the url a
 * navigation comes from, and, when a page finishes loading, asks the current
 * bunny hole to record it under that url.
 *
 * The browser's asynchronous answers (`browser.tabs.query`, `browser.tabs.get`)
 * arrive here as parameters: `None` stands for a rejected promise, which the
 * source only logs.
 */
module WebTrackers {
  import opened Wrappers
  import opened BunnyTabs
  import opened HoleTrees
  import opened BunnyHoles

  /** The fields of a browser `tabs.Tab` the tracker reads. */
  datatype TabInfo = TabInfo(id: int, title: string, url: string)

  /** `new BunnyTab(tab.id, tab.title, tab.url)`. */
  function TabOf(info: TabInfo): BunnyTab
  {
    NewTab(TabNumber(info.id), info.title, info.url)
  }

  /** The map after `#mapTabByInfo` was applied to each tab of `tabs`, in order. */
  function Mapped(m: map<int, BunnyTab>, tabs: seq<TabInfo>): map<int, BunnyTab>
  {
    if tabs == [] then m
    else
      var last := tabs[|tabs| - 1];
      Mapped(m, tabs[..|tabs| - 1])[last.id := TabOf(last)]
  }

  /** Mapping a list of tabs adds exactly their ids to the keys. */
  lemma {:induction false} MappedKeys(m: map<int, BunnyTab>, tabs: seq<TabInfo>)
    ensures Mapped(m, tabs).Keys == m.Keys + set t | t in tabs :: t.id
  {
    if tabs != [] {
      var init, last := tabs[..|tabs| - 1], tabs[|tabs| - 1];
      MappedKeys(m, init);
      assert tabs == init + [last];
      assert (set t | t in tabs :: t.id) == (set t | t in init :: t.id) + {last.id};
    }
  }

  /** Mapping a list of tabs keeps the entry of every id none of them carries. */
  lemma {:induction false} MappedKeeps(m: map<int, BunnyTab>, tabs: seq<TabInfo>, id: int)
    requires id in m && forall t | t in tabs :: t.id != id
    ensures id in Mapped(m, tabs) && Mapped(m, tabs)[id] == m[id]
  {
    if tabs != [] {
      var init := tabs[..|tabs| - 1];
      assert forall t | t in init :: t in tabs;
      MappedKeeps(m, init, id);
    }
  }

  /** Mapping a list of tabs leaves each id with the last tab that carried it. */
  lemma {:induction false} MappedLast(m: map<int, BunnyTab>, tabs: seq<TabInfo>, i: nat)
    requires i < |tabs| && forall j | i < j < |tabs| :: tabs[j].id != tabs[i].id
    ensures tabs[i].id in Mapped(m, tabs) && Mapped(m, tabs)[tabs[i].id] == TabOf(tabs[i])
  {
    if i < |tabs| - 1 {
      var init := tabs[..|tabs| - 1];
      assert init[i] == tabs[i];
      forall j | i < j < |init| ensures init[j].id != init[i].id {
        assert init[j] == tabs[j];
      }
      MappedLast(m, init, i);
    }
  }

  class WebTracker {
    /** `#bunnyHole`: the hole pages are recorded in; `null` while none is open. */
    var hole: BunnyHole?
    /** `#tabMap`: browser tab id to the page it shows. */
    var tabMap: map<int, BunnyTab>
    /** `#sourceUrl`: the url the next navigation comes from; `None` while undefined. */
    var sourceUrl: Option<string>
    /** `#navInNewTab`: the coming navigation opens a new tab. */
    var navInNewTab: bool
    /** Whether the six browser listeners are registered. */
    var listening: bool

    ghost predicate Valid()
      reads this, hole
    {
      hole != null ==> hole.Valid()
    }

    /** A tracker with no hole, an empty map and no listeners. */
    constructor ()
      ensures Valid()
      ensures hole == null && tabMap == map[] && sourceUrl == None && !navInNewTab && !listening
    {
      hole := null;
      tabMap := map[];
      sourceUrl := None;
      navInNewTab := false;
      listening := false;
    }

    /** The `bunnyHole` setter: replace the hole, leaving the listeners and the map as they are. */
    method SetBunnyHole(newHole: BunnyHole?)
      requires newHole != null ==> newHole.Valid()
      modifies this
      ensures Valid() && hole == newHole
      ensures tabMap == old(tabMap) && sourceUrl == old(sourceUrl)
      ensures navInNewTab == old(navInNewTab) && listening == old(listening)
    {
      hole := newHole;
    }

    /** `#mapTabByInfo(tab)`: map the tab's id to its page, replacing any earlier entry. */
    method MapTabByInfo(tab: TabInfo)
      modifies this
      ensures tabMap == old(tabMap)[tab.id := TabOf(tab)]
      ensures hole == old(hole) && sourceUrl == old(sourceUrl)
      ensures navInNewTab == old(navInNewTab) && listening == old(listening)
    {
      tabMap := tabMap[tab.id := TabOf(tab)];
    }

    /**
     * `#mapTabByLookup(tabId)`: `lookup` is what `browser.tabs.get(tabId)`
     * resolved to; on a rejection nothing is mapped.
     */
    method MapTabByLookup(tabId: int, lookup: Option<TabInfo>)
      requires lookup.Some? ==> lookup.value.id == tabId
      modifies this
      ensures lookup.None? ==> tabMap == old(tabMap)
      ensures lookup.Some? ==> tabMap == old(tabMap)[tabId := TabOf(lookup.value)]
      ensures hole == old(hole) && sourceUrl == old(sourceUrl)
      ensures navInNewTab == old(navInNewTab) && listening == old(listening)
    {
      if lookup.Some? {
        MapTabByInfo(lookup.value);
      }
    }

    /** `#unmapTab(tabId)`: forget the tab. */
    method UnmapTab(tabId: int)
      modifies this
      ensures tabMap == old(tabMap) - {tabId}
      ensures hole == old(hole) && sourceUrl == old(sourceUrl)
      ensures navInNewTab == old(navInNewTab) && listening == old(listening)
    {
      tabMap := tabMap - {tabId};
    }

    /**
     * `#ioCallback(bunnyHole)`: adopt the new hole. Without one the listeners
     * are removed and nothing is mapped; with one, every open tab
     * (`allTabs`, the answer to `browser.tabs.query({})`) is mapped in
     * order and only then are the listeners registered.
     */
    method IoCallback(newHole: BunnyHole?, allTabs: Option<seq<TabInfo>>)
      requires newHole != null ==> newHole.Valid()
      modifies this
      ensures Valid() && hole == newHole
      ensures newHole == null ==> !listening && tabMap == old(tabMap)
      ensures newHole != null && allTabs.None? ==> listening == old(listening) && tabMap == old(tabMap)
      ensures newHole != null && allTabs.Some? ==> listening && tabMap == Mapped(old(tabMap), allTabs.value)
      ensures sourceUrl == old(sourceUrl) && navInNewTab == old(navInNewTab)
    {
      hole := newHole;
      if newHole == null {
        listening := false;
        return;
      }
      if allTabs.Some? {
        var tabs := allTabs.value;
        for i := 0 to |tabs|
          invariant tabMap == Mapped(old(tabMap), tabs[..i])
          invariant hole == newHole && listening == old(listening)
          invariant sourceUrl == old(sourceUrl) && navInNewTab == old(navInNewTab)
        {
          MapTabByInfo(tabs[i]);
          assert tabs[..i + 1][..i] == tabs[..i];
        }
        assert tabs[..|tabs|] == tabs;
        listening := true;
      }
    }

    /** `#handleTabCreated(tab)`: map the new tab, overwriting any entry for its id. */
    method HandleTabCreated(tab: TabInfo)
      modifies this
      ensures tabMap == old(tabMap)[tab.id := TabOf(tab)]
      ensures hole == old(hole) && sourceUrl == old(sourceUrl)
      ensures navInNewTab == old(navInNewTab) && listening == old(listening)
    {
      MapTabByInfo(tab);
    }

    /** `#handleTabActivated`: look the tab up and map it, unless it is mapped already. */
    method HandleTabActivated(tabId: int, lookup: Option<TabInfo>)
      requires lookup.Some? ==> lookup.value.id == tabId
      modifies this
      ensures tabId in old(tabMap) ==> tabMap == old(tabMap)
      ensures tabId !in old(tabMap) && lookup.Some? ==> tabMap == old(tabMap)[tabId := TabOf(lookup.value)]
      ensures tabId !in old(tabMap) && lookup.None? ==> tabMap == old(tabMap)
      ensures hole == old(hole) && sourceUrl == old(sourceUrl)
      ensures navInNewTab == old(navInNewTab) && listening == old(listening)
    {
      if tabId !in tabMap {
        MapTabByLookup(tabId, lookup);
      }
    }

    /** `#handleTabRemoved`: forget that one tab; nothing else changes. */
    method HandleTabRemoved(tabId: int)
      modifies this
      ensures tabMap == old(tabMap) - {tabId}
      ensures hole == old(hole) && sourceUrl == old(sourceUrl)
      ensures navInNewTab == old(navInNewTab) && listening == old(listening)
    {
      UnmapTab(tabId);
    }

    /**
     * `#handleWebNavCreatedNavigationTarget`: the coming navigation opens a
     * new tab; its source url is the mapped url of the tab the link was
     * followed from, and stays as it was when that tab is unmapped (a link
     * from the sidebar).
     */
    method HandleCreatedNavigationTarget(sourceTabId: int)
      modifies this
      ensures navInNewTab
      ensures sourceTabId in tabMap ==> sourceUrl == Some(tabMap[sourceTabId].url)
      ensures sourceTabId !in tabMap ==> sourceUrl == old(sourceUrl)
      ensures tabMap == old(tabMap) && hole == old(hole) && listening == old(listening)
    {
      navInNewTab := true;
      if sourceTabId !in tabMap {
        return;
      }
      sourceUrl := Some(tabMap[sourceTabId].url);
    }

    /**
     * `#handleWebNavBeforeNavigate`: a navigation announced as opening a
     * new tab only clears the flag; any other takes the source url from the
     * navigating tab. Reading the url of an unmapped tab is a TypeError,
     * reported as `threw` with nothing changed.
     */
    method HandleBeforeNavigate(tabId: int) returns (threw: bool)
      modifies this
      ensures threw <==> !old(navInNewTab) && tabId !in tabMap
      ensures !navInNewTab
      ensures old(navInNewTab) || threw ==> sourceUrl == old(sourceUrl)
      ensures !old(navInNewTab) && !threw ==> sourceUrl == Some(tabMap[tabId].url)
      ensures tabMap == old(tabMap) && hole == old(hole) && listening == old(listening)
    {
      if navInNewTab {
        navInNewTab := false;
        return false;
      }
      if tabId !in tabMap {
        return true;
      }
      sourceUrl := Some(tabMap[tabId].url);
      return false;
    }

    /**
     * `#handleWebNavCompleted`: `lookup` is what `browser.tabs.get` resolved
     * to. The loaded page is recorded in the hole under the source url (the
     * third argument `true` of `createNode` has no parameter to go to), and
     * then the tab is mapped to it. Without a hole `createNode` is a
     * TypeError, and the mapping after it is skipped.
     */
    method HandleCompleted(tabId: int, lookup: Option<TabInfo>)
      requires Valid()
      requires lookup.Some? ==> lookup.value.id == tabId
      modifies this, hole
      ensures Valid()
      ensures hole == old(hole) && sourceUrl == old(sourceUrl)
      ensures navInNewTab == old(navInNewTab) && listening == old(listening)
      ensures hole == null || lookup.None? ==> tabMap == old(tabMap)
      ensures hole != null && lookup.None? ==>
                hole.root == old(hole.root) && hole.reactKey == old(hole.reactKey) && hole.reports == old(hole.reports)
      ensures hole != null && lookup.Some? ==>
                var t := TabOf(lookup.value);
                && tabMap == old(tabMap)[tabId := t]
                && HasUrl(hole.root, t.url)
                && (HasUrl(old(hole.root), t.url) ==>
                      hole.root == old(hole.root) && hole.reactKey == old(hole.reactKey) && hole.reports == old(hole.reports))
                && (!HasUrl(old(hole.root), t.url) ==>
                      var p := CreateParent(old(hole.root), sourceUrl);
                      && hole.root == InsertAt(old(hole.root), p, |NodeAt(old(hole.root), p).value.children|,
                                               NewNode(t, old(hole.reactKey)))
                      && hole.reactKey == old(hole.reactKey) + 1
                      && hole.reports == old(hole.reports) + [hole.root.obj])
    {
      if lookup.None? {
        return;
      }
      var tab := lookup.value;
      var loadedTab := TabOf(tab);
      if hole == null {
        return;
      }
      var _ := hole.CreateNode(loadedTab, sourceUrl);
      MapTabByInfo(tab);
    }

    /**
     * A link followed into a new tab: the target is created from tab
     * `sourceTabId`, the new tab starts navigating, and its page `loaded`
     * completes. The page becomes the last child of the first node
     * recording the source tab's url (the root when none does), unless the
     * hole records its url already.
     */
    method FollowLinkInNewTab(sourceTabId: int, loaded: TabInfo)
      requires Valid() && hole != null && sourceTabId in tabMap
      modifies this, hole
      ensures Valid() && hole == old(hole)
      ensures sourceUrl == Some(old(tabMap[sourceTabId].url)) && !navInNewTab
      ensures tabMap == old(tabMap)[loaded.id := TabOf(loaded)]
      ensures var a := old(tabMap[sourceTabId].url);
              var p := CreateParent(old(hole.root), Some(a));
              var m := |NodeAt(old(hole.root), p).value.children|;
              && (HasUrl(old(hole.root), a) ==> NodeAt(old(hole.root), p).value.tab.url == a)
              && (!HasUrl(old(hole.root), a) ==> p == [])
              && (!HasUrl(old(hole.root), TabOf(loaded).url) ==>
                    NodeAt(hole.root, p + [m]) == Some(NewNode(TabOf(loaded), old(hole.reactKey))))
    {
      ghost var before := hole.root;
      ghost var a := tabMap[sourceTabId].url;
      CreateParentFacts(before, Some(a));
      if !HasUrl(before, TabOf(loaded).url) {
        CreateNodeFacts(before, TabOf(loaded), Some(a), hole.reactKey);
      }
      HandleCreatedNavigationTarget(sourceTabId);
      var threw := HandleBeforeNavigate(loaded.id);
      HandleCompleted(loaded.id, Some(loaded));
    }
  }
}
