/**
  What the tab handlers of App.js commit: the tab list and the active tab
  id after initial load, `handleNewTab`, `handleCloseTab`,
  `handleNavigation` and a tab-strip press.  Each handler reads the
  snapshot of `tabs` its render closed over, and when it calls two setters
  of the same state the later write wins.  The class in module Browser
  commits exactly these values.
*/
module TabManager {
  import opened Wrappers
  import opened TabList
  import TabKeys

  const DefaultUrl: string := "https://expo.dev/accounts/flylegion/snacks"

  /** The committed `tabs` and `activeTabId` (None is `null`). */
  datatype TabsView = TabsView(tabs: seq<Tab>, active: Option<nat>)

  /** The invariant after initial load: some tab exists and the active id is one of the listed ids. */
  predicate Wellformed(v: TabsView) {
    |v.tabs| > 0 && v.active.Some? && v.active.value in Ids(v.tabs)
  }

  /** `savedUrl || DEFAULT_URL`: a missing or empty saved value falls back to the default. */
  function InitialUrl(saved: Option<string>): (u: string)
    ensures u != ""
    ensures saved.Some? && saved.value != "" ==> u == saved.value
    ensures saved.None? || saved.value == "" ==> u == DefaultUrl
  {
    if saved.Some? && saved.value != "" then saved.value else DefaultUrl
  }

  /**
    `loadInitialTab`: one tab whose id comes from one `Date.now()` call and
    whose key from a second one, made active.
  */
  function InitialView(saved: Option<string>, idStamp: nat, keyStamp: nat): (v: TabsView)
    ensures Wellformed(v) && |v.tabs| == 1
    ensures v.active == Some(idStamp) && v.tabs[0].id == idStamp
    ensures v.tabs[0].url == InitialUrl(saved) && v.tabs[0].key == TabKeys.TabKey(keyStamp)
  {
    TabsView([Tab(idStamp, InitialUrl(saved), TabKeys.TabKey(keyStamp))], Some(idStamp))
  }

  /** The tab `handleNewTab` creates from one timestamp: its key spells its id. */
  function DefaultTab(stamp: nat): (t: Tab)
    ensures t.id == stamp && t.url == DefaultUrl
    ensures t.key == TabKeys.TabKey(stamp)
    ensures |t.key| > |TabKeys.KeyPrefix| && TabKeys.AllDigits(t.key[|TabKeys.KeyPrefix|..])
    ensures TabKeys.KeyStamp(t.key) == t.id
  {
    TabKeys.KeyStampOfTabKey(stamp);
    Tab(stamp, DefaultUrl, TabKeys.TabKey(stamp))
  }

  /** `handleNewTab` over the `tabs` snapshot it closed over: append one default tab and activate it. */
  function WithNewTab(snapshot: seq<Tab>, stamp: nat): (v: TabsView)
    ensures Wellformed(v)
  {
    assert Ids(snapshot + [DefaultTab(stamp)])[|snapshot|] == stamp;
    TabsView(snapshot + [DefaultTab(stamp)], Some(stamp))
  }

  /**
    `handleCloseTab(id)`.  The filtered list is committed, then: if the
    active tab was closed and tabs remain, the LAST remaining tab becomes
    active; otherwise, if nothing remains, `handleNewTab` runs on the
    same stale snapshot, so its write of the old list plus a new tab wins
    over the empty one.
  */
  function CloseTab(v: TabsView, id: nat, stamp: nat): (r: TabsView)
    ensures |r.tabs| > 0
    ensures r.active != v.active ==> r.active.Some? && r.active.value in Ids(r.tabs)
    ensures Wellformed(v) ==> Wellformed(r)
  {
    var remaining := RemoveId(v.tabs, id);
    if v.active == Some(id) && |remaining| > 0 then
      assert Ids(remaining)[|remaining| - 1] == remaining[|remaining| - 1].id;
      TabsView(remaining, Some(remaining[|remaining| - 1].id))
    else if |remaining| == 0 then
      WithNewTab(v.tabs, stamp)
    else
      var a := if v.active.Some? then v.active.value else id;
      RemoveIdIds(v.tabs, id, a);
      TabsView(remaining, v.active)
  }

  /** `handleNavigation(tabId, navState)`: only the url of the tabs carrying `tabId` changes. */
  function Navigate(v: TabsView, tabId: nat, url: string): (r: TabsView)
    ensures r.active == v.active && Ids(r.tabs) == Ids(v.tabs)
  {
    NavigatedKeepsIdsAndKeys(v.tabs, tabId, url);
    TabsView(Navigated(v.tabs, tabId, url), v.active)
  }

  /**
    `handleNavigation` writes the url to storage iff the event is for the
    active tab; under the invariant that is always a listed tab.
  */
  predicate SavesOnNavigate(v: TabsView, tabId: nat): (r: bool)
    ensures Wellformed(v) && r ==> tabId in Ids(v.tabs)
  {
    v.active == Some(tabId)
  }

  /** A press on a tab in the tab strip: `setActiveTabId(tab.id)`. */
  function Activate(v: TabsView, id: nat): (r: TabsView)
    ensures r.tabs == v.tabs && r.active == Some(id)
  {
    TabsView(v.tabs, Some(id))
  }

  /** `tabs.find(tab => tab.id === activeTabId)`; a `null` active id matches no tab. */
  function ActiveTab(v: TabsView): (r: Option<Tab>)
    ensures r.Some? ==> r.value in v.tabs && Some(r.value.id) == v.active
    ensures Wellformed(v) ==> r.Some?
  {
    match v.active
    case None => None
    case Some(a) => Find(v.tabs, a)
  }

  /** `!isReady || !activeTab` shows the loading indicator; the tabs render only otherwise. */
  function ShowsContent(isReady: bool, v: TabsView): (r: bool)
    ensures r ==> isReady && ActiveTab(v).Some?
    ensures isReady && Wellformed(v) ==> r
  {
    isReady && ActiveTab(v).Some?
  }

  // ---------------------------------------------------------------------
  // What each handler keeps invariant

  lemma NewTabProperties(v: TabsView, stamp: nat)
    ensures var r := WithNewTab(v.tabs, stamp);
      && |r.tabs| == |v.tabs| + 1
      && r.tabs[..|v.tabs|] == v.tabs
      && r.tabs[|v.tabs|] == Tab(stamp, DefaultUrl, TabKeys.TabKey(stamp))
      && r.active == Some(stamp) && stamp in Ids(r.tabs)
  {
    var r := WithNewTab(v.tabs, stamp);
    assert r.tabs[..|v.tabs|] == v.tabs;
  }

  /**
    Closing the active tab while others remain activates the last
    remaining tab, wherever the closed tab stood; every tab carrying the
    id is gone and the survivors keep their order.
  */
  lemma CloseActiveSelectsLast(v: TabsView, id: nat, stamp: nat)
    requires v.active == Some(id)
    requires exists t :: t in v.tabs && t.id != id
    ensures var r := CloseTab(v, id, stamp);
      && r.tabs == RemoveId(v.tabs, id)
      && |r.tabs| > 0
      && r.active == Some(r.tabs[|r.tabs| - 1].id)
      && id !in Ids(r.tabs)
  {
    var t :| t in v.tabs && t.id != id;
    assert t in RemoveId(v.tabs, id);
    RemoveIdIds(v.tabs, id, id);
  }

  /** Closing a tab that is not active leaves the active id alone while tabs remain. */
  lemma CloseInactiveKeepsActive(v: TabsView, id: nat, stamp: nat)
    requires v.active != Some(id)
    requires exists t :: t in v.tabs && t.id != id
    ensures var r := CloseTab(v, id, stamp);
      r.tabs == RemoveId(v.tabs, id) && r.active == v.active && id !in Ids(r.tabs)
  {
    var t :| t in v.tabs && t.id != id;
    assert t in RemoveId(v.tabs, id);
    RemoveIdIds(v.tabs, id, id);
  }

  /**
    Closing when every listed tab carries the id: because `handleNewTab`
    appends to the stale pre-close list, the committed list is the old list
    plus one default tab, and that new tab is active.
  */
  lemma CloseLastRemaining(v: TabsView, id: nat, stamp: nat)
    requires forall i :: 0 <= i < |v.tabs| ==> v.tabs[i].id == id
    ensures CloseTab(v, id, stamp) == TabsView(v.tabs + [DefaultTab(stamp)], Some(stamp))
  {
    RemoveIdEmpty(v.tabs, id);
  }

  /** Closing the only tab keeps it listed and adds a fresh default tab after it. */
  lemma CloseSoleTab(t: Tab, stamp: nat)
    ensures var r := CloseTab(TabsView([t], Some(t.id)), t.id, stamp);
      && r.tabs == [t, DefaultTab(stamp)]
      && r.active == Some(stamp)
  {
    CloseLastRemaining(TabsView([t], Some(t.id)), t.id, stamp);
  }

  /** Three tabs, the middle one active: closing it activates the third, not the first. */
  lemma CloseMiddleOfThree(a: Tab, b: Tab, c: Tab, stamp: nat)
    requires a.id != b.id && b.id != c.id
    ensures CloseTab(TabsView([a, b, c], Some(b.id)), b.id, stamp) == TabsView([a, c], Some(c.id))
  {
    var tabs := [a, b, c];
    assert RemoveId([c], b.id) == [c] by { assert [c][1..] == []; }
    assert RemoveId([b, c], b.id) == [c] by { assert [b, c][1..] == [c]; }
    assert RemoveId(tabs, b.id) == [a, c] by { assert tabs[1..] == [b, c]; }
  }

  /** With fresh stamps, ids stay distinct through new tabs and closes. */
  lemma CloseTabKeepsDistinct(v: TabsView, id: nat, stamp: nat)
    requires DistinctIds(v.tabs) && stamp !in Ids(v.tabs)
    ensures DistinctIds(CloseTab(v, id, stamp).tabs)
  {
    RemoveIdKeepsDistinct(v.tabs, id);
    if RemoveId(v.tabs, id) == [] {
      NewTabKeepsDistinct(v, stamp);
    }
  }

  lemma NewTabKeepsDistinct(v: TabsView, stamp: nat)
    requires DistinctIds(v.tabs) && stamp !in Ids(v.tabs)
    ensures DistinctIds(WithNewTab(v.tabs, stamp).tabs)
  {
    var r := WithNewTab(v.tabs, stamp).tabs;
    forall i, j | 0 <= i < j < |r| ensures r[i].id != r[j].id {
      if j == |v.tabs| {
        assert Ids(v.tabs)[i] == r[i].id;
      }
    }
  }

  /** Navigation keeps the invariant and changes the url only of the navigated tab. */
  lemma NavigateWellformed(v: TabsView, tabId: nat, url: string)
    requires Wellformed(v)
    ensures Wellformed(Navigate(v, tabId, url))
    ensures ActiveTab(Navigate(v, tabId, url)).Some?
  {
  }

  /** After the active tab navigates, the active tab's url is the new one. */
  lemma NavigateActiveUrl(v: TabsView, url: string)
    requires Wellformed(v)
    ensures ActiveTab(Navigate(v, v.active.value, url)).value.url == url
  {
    FindAfterNavigated(v.tabs, v.active.value, url);
  }

  /** Activating a listed tab keeps the invariant. */
  lemma ActivateWellformed(v: TabsView, id: nat)
    requires Wellformed(v) && id in Ids(v.tabs)
    ensures Wellformed(Activate(v, id))
    ensures ActiveTab(Activate(v, id)).value.id == id
  {
  }

  // ---------------------------------------------------------------------
  // Any sequence of tab-strip and WebView events

  datatype TabEvent =
    | NewTab(stamp: nat)
    | CloseTabEvent(id: nat, stamp: nat)
    | NavigationEvent(tabId: nat, url: string)
    | SelectEvent(id: nat)

  /**
    One event applied to the committed state.  The tab strip only offers
    listed ids, so a press on an unlisted id (which the strip cannot
    produce) is taken as no event.
  */
  function Step(v: TabsView, e: TabEvent): (r: TabsView)
    ensures Wellformed(v) ==> Wellformed(r)
  {
    match e
    case NewTab(stamp) => WithNewTab(v.tabs, stamp)
    case CloseTabEvent(id, stamp) => CloseTab(v, id, stamp)
    case NavigationEvent(tabId, url) => Navigate(v, tabId, url)
    case SelectEvent(id) => if id in Ids(v.tabs) then Activate(v, id) else v
  }

  /**
    After initial load, no sequence of opens, closes, navigations and tab
    presses empties the list or orphans the active id.
  */
  function Run(v: TabsView, events: seq<TabEvent>): (r: TabsView)
    ensures Wellformed(v) ==> Wellformed(r) && ActiveTab(r).Some?
    decreases |events|
  {
    if events == [] then v else Run(Step(v, events[0]), events[1..])
  }

  // ---------------------------------------------------------------------
  // Render keys

  /** No two tabs carry the same render key (React's `key` at App.js:127). */
  ghost predicate DistinctKeys(tabs: seq<Tab>) {
    forall i, j :: 0 <= i < j < |tabs| ==> tabs[i].key != tabs[j].key
  }

  /** Each tab's key was built from the stamp at the same position. */
  ghost predicate KeyedBy(tabs: seq<Tab>, keyStamps: seq<nat>) {
    |keyStamps| == |tabs| && forall i :: 0 <= i < |tabs| ==> tabs[i].key == TabKeys.TabKey(keyStamps[i])
  }

  /** A stamp not used for any existing key gives a key no tab carries. */
  lemma FreshStampFreshKey(tabs: seq<Tab>, keyStamps: seq<nat>, stamp: nat)
    requires KeyedBy(tabs, keyStamps) && stamp !in keyStamps
    ensures forall i :: 0 <= i < |tabs| ==> tabs[i].key != TabKeys.TabKey(stamp)
  {
    forall i | 0 <= i < |tabs| ensures tabs[i].key != TabKeys.TabKey(stamp) {
      assert keyStamps[i] in keyStamps;
      TabKeys.TabKeyInjective(keyStamps[i], stamp);
    }
  }

  /** A new tab whose stamp was not used for any existing key keeps keys distinct. */
  lemma NewTabKeepsDistinctKeys(tabs: seq<Tab>, keyStamps: seq<nat>, stamp: nat)
    requires DistinctKeys(tabs) && KeyedBy(tabs, keyStamps) && stamp !in keyStamps
    ensures DistinctKeys(WithNewTab(tabs, stamp).tabs)
    ensures KeyedBy(WithNewTab(tabs, stamp).tabs, keyStamps + [stamp])
  {
    FreshStampFreshKey(tabs, keyStamps, stamp);
    var r := WithNewTab(tabs, stamp).tabs;
    forall i, j | 0 <= i < j < |r| ensures r[i].key != r[j].key {
      if j == |tabs| {
        assert r[i] == tabs[i];
      }
    }
  }

  lemma {:induction false} RemoveIdKeepsDistinctKeys(tabs: seq<Tab>, id: nat)
    requires DistinctKeys(tabs)
    ensures DistinctKeys(RemoveId(tabs, id))
  {
    if tabs != [] {
      RemoveIdKeepsDistinctKeys(tabs[1..], id);
      var rest := RemoveId(tabs[1..], id);
      if tabs[0].id != id {
        var r := [tabs[0]] + rest;
        forall i, j | 0 <= i < j < |r| ensures r[i].key != r[j].key {
          if i == 0 {
            assert r[j] == rest[j - 1] && rest[j - 1] in rest;
            var k :| 0 <= k < |tabs[1..]| && tabs[1..][k] == r[j];
            assert tabs[k + 1] == r[j];
          } else {
            assert r[i] == rest[i - 1] && r[j] == rest[j - 1];
          }
        }
      }
    }
  }

  /**
    Closing keeps keys distinct, given that the stamp of the tab it may
    reopen was not used for any existing key.
  */
  lemma CloseTabKeepsDistinctKeys(v: TabsView, keyStamps: seq<nat>, id: nat, stamp: nat)
    requires DistinctKeys(v.tabs) && KeyedBy(v.tabs, keyStamps) && stamp !in keyStamps
    ensures DistinctKeys(CloseTab(v, id, stamp).tabs)
    ensures KeyedBy(CloseTab(v, id, stamp).tabs, CloseKeyStamps(v.tabs, keyStamps, id, stamp))
  {
    RemoveIdKeepsDistinctKeys(v.tabs, id);
    if RemoveId(v.tabs, id) == [] {
      NewTabKeepsDistinctKeys(v.tabs, keyStamps, stamp);
    }
  }

  /** The key stamps of the tabs that survive `RemoveId`, filtered alongside them. */
  ghost function RemoveIdStamps(tabs: seq<Tab>, keyStamps: seq<nat>, id: nat): (r: seq<nat>)
    requires |keyStamps| == |tabs|
    ensures KeyedBy(tabs, keyStamps) ==> KeyedBy(RemoveId(tabs, id), r)
    ensures forall s :: s in r ==> s in keyStamps
  {
    if tabs == [] then []
    else
      var rest := RemoveIdStamps(tabs[1..], keyStamps[1..], id);
      assert KeyedBy(tabs, keyStamps) ==> KeyedBy(tabs[1..], keyStamps[1..]) by {
        if KeyedBy(tabs, keyStamps) {
          forall i | 0 <= i < |tabs[1..]| ensures tabs[1..][i].key == TabKeys.TabKey(keyStamps[1..][i]) {
            assert tabs[1..][i] == tabs[i + 1] && keyStamps[1..][i] == keyStamps[i + 1];
          }
        }
      }
      if tabs[0].id == id then rest else [keyStamps[0]] + rest
  }

  /** The key stamps of the tabs a close commits. */
  ghost function CloseKeyStamps(tabs: seq<Tab>, keyStamps: seq<nat>, id: nat, stamp: nat): (r: seq<nat>)
    requires |keyStamps| == |tabs|
    ensures forall s :: s in r ==> s in keyStamps || s == stamp
  {
    if RemoveId(tabs, id) == [] then keyStamps + [stamp] else RemoveIdStamps(tabs, keyStamps, id)
  }

  /** Navigation never touches keys, so distinct keys stay distinct. */
  lemma NavigateKeepsDistinctKeys(v: TabsView, tabId: nat, url: string)
    requires DistinctKeys(v.tabs)
    ensures DistinctKeys(Navigate(v, tabId, url).tabs)
  {
    NavigatedKeepsIdsAndKeys(v.tabs, tabId, url);
  }

  /**
    The initial tab's key comes from its own clock reading, so a new tab's
    key is distinct from it exactly when the two stamps differ; the new
    tab's id being fresh is not enough.
  */
  lemma InitialThenNewTabKeys(saved: Option<string>, idStamp: nat, keyStamp: nat, stamp: nat)
    ensures var r := WithNewTab(InitialView(saved, idStamp, keyStamp).tabs, stamp).tabs;
      DistinctKeys(r) <==> stamp != keyStamp
  {
    var init := InitialView(saved, idStamp, keyStamp).tabs;
    var r := WithNewTab(init, stamp).tabs;
    assert r == [init[0], DefaultTab(stamp)];
    TabKeys.TabKeyInjective(keyStamp, stamp);
    if r[0].key != r[1].key {
      forall i, j | 0 <= i < j < |r| ensures r[i].key != r[j].key {
        assert i == 0 && j == 1;
      }
    }
  }

  /**
    A concrete collision: the initial tab gets id 1 and key stamp 2, and a
    new tab opened at stamp 2 has a fresh id but the same key `webview-2`.
  */
  lemma InitialKeyCollision()
    ensures var r := WithNewTab(InitialView(None, 1, 2).tabs, 2).tabs;
      DistinctIds(r) && !DistinctKeys(r)
  {
    var r := WithNewTab(InitialView(None, 1, 2).tabs, 2).tabs;
    assert r[0].id == 1 && r[1].id == 2;
    assert r[0].key == r[1].key;
  }

  /** The clock readings a sequence of events consumes: one per new tab and one per close. */
  function EventStamps(events: seq<TabEvent>): seq<nat> {
    if events == [] then []
    else
      match events[0]
      case NewTab(stamp) => [stamp] + EventStamps(events[1..])
      case CloseTabEvent(_, stamp) => [stamp] + EventStamps(events[1..])
      case _ => EventStamps(events[1..])
  }

  ghost predicate DistinctStamps(stamps: seq<nat>) {
    forall i, j :: 0 <= i < j < |stamps| ==> stamps[i] != stamps[j]
  }

  /** One event keeps render keys distinct when its clock reading is unused for any key. */
  lemma StepKeepsDistinctKeys(v: TabsView, keyStamps: seq<nat>, e: TabEvent) returns (next: seq<nat>)
    requires DistinctKeys(v.tabs) && KeyedBy(v.tabs, keyStamps)
    requires forall s :: s in EventStamps([e]) ==> s !in keyStamps
    ensures DistinctKeys(Step(v, e).tabs) && KeyedBy(Step(v, e).tabs, next)
    ensures forall s :: s in next ==> s in keyStamps || s in EventStamps([e])
  {
    match e {
      case NewTab(stamp) =>
        assert EventStamps([e]) == [stamp];
        NewTabKeepsDistinctKeys(v.tabs, keyStamps, stamp);
        next := keyStamps + [stamp];
      case CloseTabEvent(id, stamp) =>
        assert EventStamps([e]) == [stamp];
        CloseTabKeepsDistinctKeys(v, keyStamps, id, stamp);
        next := CloseKeyStamps(v.tabs, keyStamps, id, stamp);
      case NavigationEvent(tabId, url) =>
        NavigateKeepsDistinctKeys(v, tabId, url);
        NavigatedKeepsIdsAndKeys(v.tabs, tabId, url);
        next := keyStamps;
      case SelectEvent(id) =>
        next := keyStamps;
    }
  }

  lemma EventStampsCons(events: seq<TabEvent>)
    requires events != []
    ensures EventStamps(events) == EventStamps([events[0]]) + EventStamps(events[1..])
  {
    assert [events[0]][1..] == [];
  }

  /** The readings left after the first event are still distinct and unused for the keys after it. */
  lemma TailStampsFresh(es: seq<nat>, hs: seq<nat>, rs: seq<nat>, keyStamps: seq<nat>, next: seq<nat>)
    requires es == hs + rs && |hs| <= 1
    requires DistinctStamps(es) && forall s :: s in es ==> s !in keyStamps
    requires forall s :: s in next ==> s in keyStamps || s in hs
    ensures DistinctStamps(rs) && forall s :: s in rs ==> s !in next
  {
    forall i, j | 0 <= i < j < |rs| ensures rs[i] != rs[j] {
      assert rs[i] == es[|hs| + i] && rs[j] == es[|hs| + j];
    }
    forall s | s in rs ensures s !in next {
      var k :| 0 <= k < |rs| && rs[k] == s;
      assert es[|hs| + k] == s;
      if |hs| == 1 {
        assert es[0] == hs[0];
      }
    }
  }

  /**
    Render keys stay distinct through any sequence of events whose clock
    readings are pairwise distinct and unused for any existing key.
  */
  lemma {:induction false} RunKeepsDistinctKeys(v: TabsView, keyStamps: seq<nat>, events: seq<TabEvent>)
    requires DistinctKeys(v.tabs) && KeyedBy(v.tabs, keyStamps)
    requires DistinctStamps(EventStamps(events))
    requires forall s :: s in EventStamps(events) ==> s !in keyStamps
    ensures DistinctKeys(Run(v, events).tabs)
    decreases |events|
  {
    if events != [] {
      var e, rest := events[0], events[1..];
      var hs := EventStamps([e]);
      EventStampsCons(events);
      assert |hs| <= 1 by {
        match e
        case NewTab(_) =>
        case CloseTabEvent(_, _) =>
        case NavigationEvent(_, _) =>
        case SelectEvent(_) =>
      }
      assert forall s :: s in hs ==> s in EventStamps(events);
      var next := StepKeepsDistinctKeys(v, keyStamps, e);
      TailStampsFresh(EventStamps(events), hs, EventStamps(rest), keyStamps, next);
      RunKeepsDistinctKeys(Step(v, e), next, rest);
      assert Run(v, events) == Run(Step(v, e), rest);
    }
  }

  // ---------------------------------------------------------------------
  // Two events handled from the same render

  /**
    Two navigation events for different tabs, both handled against the
    same rendered list: the second commit replaces the first, so the first
    tab's url update is lost.
  */
  lemma SameRenderNavigationsLoseFirst(v: TabsView, a: nat, b: nat, urlA: string, urlB: string)
    requires a != b
    ensures Navigate(v, b, urlB).tabs == Navigated(v.tabs, b, urlB)
    ensures forall i :: 0 <= i < |v.tabs| && v.tabs[i].id == a ==> Navigate(v, b, urlB).tabs[i].url == v.tabs[i].url
    ensures (exists i :: 0 <= i < |v.tabs| && v.tabs[i].id == a && v.tabs[i].url != urlA) ==>
      Navigate(v, b, urlB) != Navigate(Navigate(v, a, urlA), b, urlB)
  {
    if exists i :: 0 <= i < |v.tabs| && v.tabs[i].id == a && v.tabs[i].url != urlA {
      var i :| 0 <= i < |v.tabs| && v.tabs[i].id == a && v.tabs[i].url != urlA;
      var sameRender := Navigate(v, b, urlB).tabs;
      var inTurn := Navigate(Navigate(v, a, urlA), b, urlB).tabs;
      assert sameRender[i].url == v.tabs[i].url;
      assert inTurn[i].url == urlA;
    }
  }

  /**
    A new tab and then a navigation event handled against the same render:
    the navigation commits the mapped pre-open list, so the new tab
    vanishes while the active id still names it.
  */
  lemma SameRenderNewTabThenNavigation(v: TabsView, stamp: nat, tabId: nat, url: string)
    requires stamp !in Ids(v.tabs)
    ensures var committed := TabsView(Navigate(v, tabId, url).tabs, WithNewTab(v.tabs, stamp).active);
      committed.active == Some(stamp) && !Wellformed(committed)
  {
  }
}
