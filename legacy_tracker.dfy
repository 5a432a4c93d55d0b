/**
 * The first revision of the tab tracker, background_scripts/background.js:
 * module globals for the current hole, the tab map, the id of the tab a
 * navigation comes from and the new-tab flag. Every tracking handler except
 * tab removal does nothing while no hole is open (`canProceed`).
 *
 * The hole itself is modelled only by the `createNode` requests sent to it:
 * this revision passes a page record where its own tree expects an id, so the
 * two are not chained here.
 */
module LegacyTrackers {
  import opened Wrappers
  import opened BunnyTabs
  import opened WebTrackers

  /** One `currentBunnyHole.createNode(tab, parentUrl)` call. */
  datatype NodeRequest = NodeRequest(tab: BunnyTab, parentUrl: Option<string>)

  class Tracker {
    /** `currentBunnyHole`: `None` while undefined, else the requests the open hole was sent. */
    var hole: Option<seq<NodeRequest>>
    /** `tabMap`: browser tab id to the page it shows. */
    var tabMap: map<int, BunnyTab>
    /** `sourceTabId`: `None` while undefined. */
    var sourceTabId: Option<int>
    /** `navInNewTab`. */
    var navInNewTab: bool

    /** The globals as the script starts: no hole, no tabs, no source, flag clear. */
    constructor ()
      ensures hole == None && tabMap == map[] && sourceTabId == None && !navInNewTab
    {
      hole := None;
      tabMap := map[];
      sourceTabId := None;
      navInNewTab := false;
    }

    /** `canProceed()`: a hole is open. */
    predicate CanProceed()
      reads this
    {
      hole.Some?
    }

    /**
     * `mapTab(tabId)`: `lookup` is what `browser.tabs.get(tabId)` resolved
     * to; on a rejection nothing is mapped.
     */
    method MapTab(tabId: int, lookup: Option<TabInfo>)
      requires lookup.Some? ==> lookup.value.id == tabId
      modifies this
      ensures lookup.None? ==> tabMap == old(tabMap)
      ensures lookup.Some? ==> tabMap == old(tabMap)[tabId := TabOf(lookup.value)]
      ensures hole == old(hole) && sourceTabId == old(sourceTabId) && navInNewTab == old(navInNewTab)
    {
      if lookup.Some? {
        tabMap := tabMap[lookup.value.id := TabOf(lookup.value)];
      }
    }

    /** `unmapTab(tabId)`. */
    method UnmapTab(tabId: int)
      modifies this
      ensures tabMap == old(tabMap) - {tabId}
      ensures hole == old(hole) && sourceTabId == old(sourceTabId) && navInNewTab == old(navInNewTab)
    {
      tabMap := tabMap - {tabId};
    }

    /**
     * `ioNewBunnyHole()`: `active` is the answer to the query for the active
     * tab and `lookup` the answer to the `mapTab` lookup of it. The first
     * active tab is mapped and a fresh hole is opened with one request for
     * it. An empty answer is a TypeError before anything changes.
     */
    method IoNewBunnyHole(active: Option<seq<TabInfo>>, lookup: Option<TabInfo>)
      requires active.Some? && active.value != [] && lookup.Some? ==> lookup.value.id == active.value[0].id
      modifies this
      ensures active.None? || active.value == [] ==>
                hole == old(hole) && tabMap == old(tabMap)
      ensures active.Some? && active.value != [] ==>
                var tab := active.value[0];
                && hole == Some([NodeRequest(TabOf(tab), None)])
                && (lookup.Some? ==> tabMap == old(tabMap)[tab.id := TabOf(lookup.value)])
                && (lookup.None? ==> tabMap == old(tabMap))
      ensures sourceTabId == old(sourceTabId) && navInNewTab == old(navInNewTab)
    {
      if active.None? || active.value == [] {
        return;
      }
      var tab := active.value[0];
      var bunnyTab := TabOf(tab);
      MapTab(tab.id, lookup);
      hole := Some([NodeRequest(bunnyTab, None)]);
    }

    /** `ioCloseBunnyHole()`: drop the hole; the tracking handlers fall silent. */
    method IoCloseBunnyHole()
      modifies this
      ensures hole == None && !CanProceed()
      ensures tabMap == old(tabMap) && sourceTabId == old(sourceTabId) && navInNewTab == old(navInNewTab)
    {
      hole := None;
    }

    /** `handleTabCreated(tab)`: map the tab by looking it up, when a hole is open. */
    method HandleTabCreated(tab: TabInfo, lookup: Option<TabInfo>)
      requires lookup.Some? ==> lookup.value.id == tab.id
      modifies this
      ensures !old(CanProceed()) || lookup.None? ==> tabMap == old(tabMap)
      ensures old(CanProceed()) && lookup.Some? ==> tabMap == old(tabMap)[tab.id := TabOf(lookup.value)]
      ensures hole == old(hole) && sourceTabId == old(sourceTabId) && navInNewTab == old(navInNewTab)
    {
      if !CanProceed() {
        return;
      }
      MapTab(tab.id, lookup);
    }

    /** `handleTabActivated`: map an unmapped tab, when a hole is open. */
    method HandleTabActivated(tabId: int, lookup: Option<TabInfo>)
      requires lookup.Some? ==> lookup.value.id == tabId
      modifies this
      ensures !old(CanProceed()) || tabId in old(tabMap) || lookup.None? ==> tabMap == old(tabMap)
      ensures old(CanProceed()) && tabId !in old(tabMap) && lookup.Some? ==>
                tabMap == old(tabMap)[tabId := TabOf(lookup.value)]
      ensures hole == old(hole) && sourceTabId == old(sourceTabId) && navInNewTab == old(navInNewTab)
    {
      if !CanProceed() {
        return;
      }
      if tabId !in tabMap {
        MapTab(tabId, lookup);
      }
    }

    /** `handleTabUpdated`: returns at once, with or without a hole. */
    method HandleTabUpdated(tabId: int)
      modifies this
      ensures hole == old(hole) && tabMap == old(tabMap)
      ensures sourceTabId == old(sourceTabId) && navInNewTab == old(navInNewTab)
    {
      if !CanProceed() {
        return;
      }
    }

    /** `handleTabRemoved`: unmap the tab, whether or not a hole is open. */
    method HandleTabRemoved(tabId: int)
      modifies this
      ensures tabMap == old(tabMap) - {tabId}
      ensures hole == old(hole) && sourceTabId == old(sourceTabId) && navInNewTab == old(navInNewTab)
    {
      UnmapTab(tabId);
    }

    /**
     * `handleWebNavCreatedNavigationTarget`: with a hole open, raise the flag
     * and remember the id (not the url) of the tab the link came from.
     */
    method HandleCreatedNavigationTarget(sourceId: int)
      modifies this
      ensures old(CanProceed()) ==> navInNewTab && sourceTabId == Some(sourceId)
      ensures !old(CanProceed()) ==> navInNewTab == old(navInNewTab) && sourceTabId == old(sourceTabId)
      ensures hole == old(hole) && tabMap == old(tabMap)
    {
      if !CanProceed() {
        return;
      }
      navInNewTab := true;
      sourceTabId := Some(sourceId);
    }

    /**
     * `handleWebNavBeforeNavigate`: with a hole open, either consume the
     * flag or make the navigating tab the source.
     */
    method HandleBeforeNavigate(tabId: int)
      modifies this
      ensures !old(CanProceed()) ==> navInNewTab == old(navInNewTab) && sourceTabId == old(sourceTabId)
      ensures old(CanProceed()) && old(navInNewTab) ==> !navInNewTab && sourceTabId == old(sourceTabId)
      ensures old(CanProceed()) && !old(navInNewTab) ==> !navInNewTab && sourceTabId == Some(tabId)
      ensures hole == old(hole) && tabMap == old(tabMap)
    {
      if !CanProceed() {
        return;
      }
      if navInNewTab {
        navInNewTab := false;
        return;
      }
      sourceTabId := Some(tabId);
    }

    /**
     * `handleWebNavCompleted`: with a hole open, `lookup` is the loaded tab;
     * the hole is sent a request for it under the source tab's mapped url,
     * and the tab is then mapped again (`remap` is that second lookup).
     * Reading the url of an unmapped source is a TypeError that skips both.
     */
    method HandleCompleted(tabId: int, lookup: Option<TabInfo>, remap: Option<TabInfo>)
      requires lookup.Some? ==> lookup.value.id == tabId
      requires remap.Some? ==> remap.value.id == tabId
      modifies this
      ensures var sent := old(CanProceed()) && lookup.Some? && old(sourceTabId).Some? && old(sourceTabId).value in old(tabMap);
              && (!sent ==> hole == old(hole) && tabMap == old(tabMap))
              && (sent ==>
                    && hole == Some(old(hole).value +
                                    [NodeRequest(TabOf(lookup.value), Some(old(tabMap)[old(sourceTabId).value].url))])
                    && (remap.Some? ==> tabMap == old(tabMap)[tabId := TabOf(remap.value)])
                    && (remap.None? ==> tabMap == old(tabMap)))
      ensures sourceTabId == old(sourceTabId) && navInNewTab == old(navInNewTab)
    {
      if !CanProceed() || lookup.None? {
        return;
      }
      var tab := lookup.value;
      var loadedTab := TabOf(tab);
      if sourceTabId.None? || sourceTabId.value !in tabMap {
        return;
      }
      hole := Some(hole.value + [NodeRequest(loadedTab, Some(tabMap[sourceTabId.value].url))]);
      MapTab(tab.id, remap);
    }
  }
}
