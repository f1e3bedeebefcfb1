/**
  The `SnackBrowser` component as an object: its React state (`tabs`,
  `activeTabId`, `isReady`, `isDisconnected`) and its two refs
  (`appState.current`, `webViewRefs.current`) are fields, and each handler
  is a method that commits what App.js commits.  AsyncStorage writes under
  'lastSnackURL' and `reload()` calls on WebViews are recorded in ghost
  logs.
*/
module Browser {
  import opened Wrappers
  import opened TabList
  import opened TabManager
  import Lifecycle

  /** The only payload the injected page script posts. */
  const DisconnectSignal: string := "SNACK_DISCONNECTED"

  /** `ref?.reload` is usable for the active tab: a ref is registered under its id and has `reload`. */
  predicate CanReload(refs: map<nat, bool>, active: Option<nat>) {
    active.Some? && active.value in refs && refs[active.value]
  }

  class SnackBrowser {
    var appState: string
    var tabs: seq<Tab>
    var activeTabId: Option<nat>
    var isReady: bool
    /** `webViewRefs.current`: for each tab id, whether the registered ref exposes `reload`. */
    var refs: map<nat, bool>
    var isDisconnected: bool
    /** Every value written under 'lastSnackURL', oldest first. */
    ghost var savedUrls: seq<string>
    /** The tab id of every `reload()` issued, oldest first. */
    ghost var reloads: seq<nat>

    function View(): TabsView
      reads this
    {
      TabsView(tabs, activeTabId)
    }

    /** Before initial load nothing is listed; afterwards the tab invariant holds. */
    ghost predicate Valid()
      reads this
    {
      if isReady then Wellformed(View()) else tabs == [] && activeTabId == None
    }

    /** Mounting: empty tab list, no active tab, not ready, connected, `appState.current` as given. */
    constructor (initialAppState: string)
      ensures Valid() && !isReady && !isDisconnected
      ensures appState == initialAppState && tabs == [] && activeTabId == None
      ensures refs == map[] && savedUrls == [] && reloads == []
    {
      appState := initialAppState;
      tabs := [];
      activeTabId := None;
      isReady := false;
      refs := map[];
      isDisconnected := false;
      savedUrls := [];
      reloads := [];
    }

    /**
      `loadInitialTab`: `savedUrl` is what AsyncStorage returned (None for
      null); `idStamp` and `keyStamp` are the two `Date.now()` readings.
    */
    method LoadInitialTab(savedUrl: Option<string>, idStamp: nat, keyStamp: nat)
      requires Valid() && !isReady
      modifies this`tabs, this`activeTabId, this`isReady
      ensures Valid() && isReady
      ensures View() == InitialView(savedUrl, idStamp, keyStamp)
    {
      var initialUrl := if savedUrl.Some? && savedUrl.value != "" then savedUrl.value else DefaultUrl;
      var newTab := Tab(idStamp, initialUrl, TabKeys.TabKey(keyStamp));
      tabs := [newTab];
      activeTabId := Some(newTab.id);
      isReady := true;
    }

    /** `handleNewTab` as it runs from a handler that closed over `snapshot`. */
    method CommitNewTab(snapshot: seq<Tab>, stamp: nat)
      requires isReady
      modifies this`tabs, this`activeTabId
      ensures Valid()
      ensures View() == WithNewTab(snapshot, stamp)
    {
      var newTab := DefaultTab(stamp);
      tabs := snapshot + [newTab];
      activeTabId := Some(newTab.id);
      assert View() == WithNewTab(snapshot, stamp);
    }

    /** `handleNewTab` pressed in the tab strip; `stamp` is the `Date.now()` reading. */
    method HandleNewTab(stamp: nat)
      requires Valid() && isReady
      modifies this`tabs, this`activeTabId
      ensures Valid()
      ensures View() == WithNewTab(old(tabs), stamp)
      ensures tabs == old(tabs) + [DefaultTab(stamp)] && activeTabId == Some(stamp)
    {
      CommitNewTab(tabs, stamp);
    }

    /**
      `handleCloseTab(id)`.  When nothing remains, `handleNewTab` runs from
      the same render, so it appends to the pre-close `tabs`, and its write
      is the one that sticks.
    */
    method HandleCloseTab(id: nat, stamp: nat)
      requires Valid() && isReady
      modifies this`tabs, this`activeTabId
      ensures Valid()
      ensures View() == CloseTab(old(View()), id, stamp)
    {
      var snapshot := tabs;
      var remaining := RemoveId(snapshot, id);
      tabs := remaining;
      if activeTabId == Some(id) && |remaining| > 0 {
        activeTabId := Some(remaining[|remaining| - 1].id);
      } else if |remaining| == 0 {
        CommitNewTab(snapshot, stamp);
      }
    }

    /**
      `handleNavigation(tabId, navState)` with `url` for `navState.url`:
      the url is written to storage iff the event is for the active tab.
    */
    method HandleNavigation(tabId: nat, url: string)
      requires Valid() && isReady
      modifies this`tabs, this`savedUrls
      ensures Valid()
      ensures View() == Navigate(old(View()), tabId, url)
      ensures savedUrls == old(savedUrls) + (if SavesOnNavigate(old(View()), tabId) then [url] else [])
    {
      tabs := Navigated(tabs, tabId, url);
      if Some(tabId) == activeTabId {
        savedUrls := savedUrls + [url];
      }
      NavigatedKeepsIdsAndKeys(old(tabs), tabId, url);
    }

    /** A press on a tab of the tab strip; the strip only offers listed ids. */
    method HandleSelectTab(id: nat)
      requires Valid() && isReady && id in Ids(tabs)
      modifies this`activeTabId
      ensures Valid()
      ensures View() == Activate(old(View()), id)
    {
      activeTabId := Some(id);
    }

    /**
      The AppState 'change' listener.  It may fire before the initial load
      has finished; the active tab is then missing and nothing is written.
    */
    method HandleAppStateChange(nextAppState: string)
      requires Valid()
      modifies this`appState, this`savedUrls
      ensures Valid()
      ensures appState == nextAppState
      ensures savedUrls == old(savedUrls) + Lifecycle.BackgroundSave(old(appState), nextAppState, ActiveTab(old(View()))).ToSeq()
    {
      if Lifecycle.MatchesActive(appState) && nextAppState == Lifecycle.Background {
        var activeTab := if activeTabId.Some? then Find(tabs, activeTabId.value) else None;
        if activeTab.Some? && activeTab.value.url != "" {
          savedUrls := savedUrls + [activeTab.value.url];
        }
      }
      appState := nextAppState;
    }

    /** The `ref` callback of a WebView: registers (or, with a ref lacking `reload`, disables) the handle for `id`. */
    method RegisterRef(id: nat, hasReload: bool)
      modifies this`refs
      ensures refs == old(refs)[id := hasReload]
    {
      refs := refs[id := hasReload];
    }

    /** `onMessage`: only the exact disconnect payload raises the single, component-wide flag. */
    method HandleMessage(data: string)
      modifies this`isDisconnected
      ensures isDisconnected == (old(isDisconnected) || data == DisconnectSignal)
      ensures data != DisconnectSignal ==> isDisconnected == old(isDisconnected)
    {
      if data == DisconnectSignal {
        isDisconnected := true;
      }
    }

    /**
      `reconnectCurrentTab`: when the active tab's ref has `reload`, issue
      exactly one reload for it and clear the flag optimistically;
      otherwise change nothing.
    */
    method ReconnectCurrentTab()
      modifies this`isDisconnected, this`reloads
      ensures CanReload(refs, activeTabId) ==> reloads == old(reloads) + [activeTabId.value] && !isDisconnected
      ensures !CanReload(refs, activeTabId) ==> reloads == old(reloads) && isDisconnected == old(isDisconnected)
    {
      if activeTabId.Some? && activeTabId.value in refs && refs[activeTabId.value] {
        reloads := reloads + [activeTabId.value];
        isDisconnected := false;
      }
    }

    /** The render gate `!isReady || !activeTab`: once loaded, content always renders. */
    function ShowsContent(): (r: bool)
      reads this
      ensures Valid() ==> (r <==> isReady)
    {
      TabManager.ShowsContent(isReady, View())
    }
  }

  /**
    Load, open two tabs, select the middle one and close it: the last tab
    becomes active, not the first.
  */
  method CloseMiddleScenario(saved: Option<string>, t0: nat, t1: nat, t2: nat)
    returns (tabs: seq<Tab>, active: Option<nat>)
    requires t0 != t1 && t1 != t2 && t0 != t2
    ensures |tabs| == 2 && tabs[1] == DefaultTab(t2) && tabs[0].id == t0
    ensures active == Some(t2)
  {
    var b := new SnackBrowser("active");
    b.LoadInitialTab(saved, t0, t0);
    var first := b.tabs[0];
    b.HandleNewTab(t1);
    b.HandleNewTab(t2);
    var three := [first, DefaultTab(t1), DefaultTab(t2)];
    assert b.tabs == three;
    assert Ids(three)[1] == t1;
    b.HandleSelectTab(t1);
    ghost var before := b.View();
    assert before == TabsView(three, Some(t1));
    b.HandleCloseTab(t1, t0);
    CloseMiddleOfThree(first, DefaultTab(t1), DefaultTab(t2), t0);
    assert b.View() == TabsView([first, DefaultTab(t2)], Some(t2));
    tabs, active := b.tabs, b.activeTabId;
  }

  /**
    Load one tab and close it: the stale snapshot keeps the closed tab and
    a new default tab is appended and activated.
  */
  method CloseSoleScenario(saved: Option<string>, t0: nat, t1: nat)
    returns (tabs: seq<Tab>, active: Option<nat>)
    ensures |tabs| == 2 && tabs[0].id == t0 && tabs[0].url == InitialUrl(saved)
    ensures tabs[1] == DefaultTab(t1) && active == Some(t1)
  {
    var b := new SnackBrowser("active");
    b.LoadInitialTab(saved, t0, t0);
    var only := b.tabs[0];
    b.HandleCloseTab(t0, t1);
    CloseSoleTab(only, t1);
    tabs, active := b.tabs, b.activeTabId;
  }

  /**
    Navigating the active tab writes the new url, and going to the
    background afterwards writes it again; the active tab keeps that url.
  */
  method NavigateThenBackgroundScenario(t0: nat, url: string)
    returns (activeUrl: string, state: string)
    requires url != ""
    ensures activeUrl == url && state == Lifecycle.Background
  {
    var b := new SnackBrowser("active");
    b.LoadInitialTab(None, t0, t0);
    b.HandleNavigation(t0, url);
    NavigateActiveUrl(InitialView(None, t0, t0), url);
    Lifecycle.SavesFromForeground("active", Tab(t0, url, TabKeys.TabKey(t0)));
    b.HandleAppStateChange(Lifecycle.Background);
    assert b.savedUrls == [url, url];
    activeUrl, state := b.tabs[0].url, b.appState;
  }
}
