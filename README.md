# Snack browser tab and session manager, in Dafny

This project models the core of `SnackBrowser`, the single React Native
component in `App.js`. It is a multi-tab WebView shell for Expo Snack
sessions. The model covers:

- the navigation allow-list `isAllowedUrl`;
- the ordered tab list `{ id, url, key }` and the active tab id, as changed by
  the initial load, `handleNewTab`, `handleCloseTab`, `handleNavigation` and a
  tab-strip press;
- the write-through of the last url under the storage key `'lastSnackURL'`,
  both on navigation of the active tab and on the AppState change from a
  state matching `/active/` to `'background'`;
- the component-wide `isDisconnected` flag: it is raised by the
  `'SNACK_DISCONNECTED'` message and cleared by `reconnectCurrentTab`;
- the render gate `!isReady || !activeTab`.

Modules:

- `AllowList`: `isAllowedUrl` as pure functions over strings.
- `TabKeys`: the render key `webview-${stamp}`. Its decimal rendering is
  paired with a parser, so distinct stamps give distinct keys.
- `TabList`: the `Tab` record and the list expressions the handlers build
  (`filter`, `map`, `find`).
- `TabManager`: the `tabs`/`activeTabId` pair each handler commits, the
  invariant "the list is non-empty and the active id is listed", and lemmas
  that every handler keeps it.
- `Lifecycle`: the AppState listener's `/active/` to `'background'` rule.
- `Browser`: the class `SnackBrowser`. Its fields are the component's state
  and refs, it has one method per handler, and each method's postcondition
  ties the new state to the `TabManager` and `Lifecycle` functions.

Some of the code's behaviour is easy to misread. In each case below the model
follows the code:

- The allow-list test is a plain `endsWith` with no dot boundary
  (App.js:35). So `notexpo.dev` is accepted; see
  `AllowList.AcceptsAnyExpoDevSuffix`.
- Closing the only tab does not leave one fresh tab. `handleNewTab` spreads
  the `tabs` that the render closed over (App.js:88). That list still holds
  the closed tab, and its `setTabs` overrides the empty list written at
  App.js:94. So the committed list is the old list plus a new default tab,
  and the new tab is active; see `TabManager.CloseSoleTab`. The invariant
  (non-empty, active id listed) still holds.
- The disconnect flag is one boolean for the whole component, not a flag per
  tab (App.js:23, App.js:171).
- The initial tab takes its id and its key from two separate `Date.now()`
  readings (App.js:46, App.js:48). They are two parameters here and need not
  be equal.

Environment inputs become parameters:

- `Date.now()` readings are `stamp` arguments, and nothing assumes they are
  unique.
- The AsyncStorage read is an `Option<string>` argument.
- AsyncStorage writes and WebView `reload()` calls are appended to the ghost
  logs `savedUrls` and `reloads`.
- `new URL(url).hostname` is a function argument `string -> Option<string>`
  that yields `None` where the constructor throws.

## Model

| member | source | states |
|---|---|---|
| `AllowList.SomeSuffix` | App.js:35 | `some(endsWith)` over a list is true iff some listed domain is a suffix of the host |
| `AllowList.IsAllowedHost` | App.js:27-35 | a hostname is accepted iff it ends with one of the five listed domains |
| `AllowList.IsAllowedUrl` | App.js:25-39 | an unparsable URL is refused; otherwise the URL is accepted iff its hostname ends with a listed domain |
| `AllowList.AllowedHostReduced` | App.js:27-35 | the five-entry list accepts exactly the hosts ending in `expo.dev`, `accounts.google.com` or `githubusercontent.com` |
| `AllowList.AcceptsAnyExpoDevSuffix` | App.js:35 | with no dot boundary, every host of the form `<anything>expo.dev` is accepted |
| `AllowList.AcceptsNotExpoDev` | App.js:35 | `notexpo.dev` is accepted |
| `AllowList.RejectsEvilCom` | App.js:27-35 | `evil.com` is refused |
| `AllowList.AcceptsSnackExpoDev` | App.js:28-35 | `snack.expo.dev` is accepted |
| `TabKeys.Decimal` | App.js:86 | the rendering of a stamp is non-empty digits with no leading zero |
| `TabKeys.ParseDecimalOfDecimal` | App.js:86 | parsing the rendered digits of a stamp gives the stamp back |
| `TabKeys.DecimalOfParseDecimal` | App.js:86 | rendering the value of a canonical digit string gives the string back |
| `TabKeys.DecimalInjective` | App.js:86 | two stamps render alike iff they are equal |
| `TabKeys.TabKey` | App.js:86 | a key is `webview-` followed by canonical decimal digits |
| `TabKeys.KeyStampOfTabKey` | App.js:86 | the stamp can be read back from the key built from it |
| `TabKeys.TabKeyOfKeyStamp` | App.js:86 | every `webview-<digits>` key is the key of the stamp it spells |
| `TabKeys.TabKeyInjective` | App.js:83-86 | tabs made from distinct stamps get distinct render keys, and equal stamps equal keys |
| `TabList.RemoveId` | App.js:93 | the filtered list holds exactly the tabs whose id differs from the closed id, and it is no longer |
| `TabList.RemoveIdConcat` | App.js:93 | filtering distributes over concatenation, so survivors keep their order |
| `TabList.RemoveIdIds` | App.js:93 | after filtering, the closed id is gone and every other id is present iff it was before |
| `TabList.RemoveIdAbsent` | App.js:93 | closing an id no tab carries leaves the list unchanged |
| `TabList.RemoveIdEmpty` | App.js:93-97 | the filter is empty iff every tab carries the closed id |
| `TabList.RemoveIdKeepsDistinct` | App.js:93 | filtering keeps ids pairwise distinct |
| `TabList.Navigated` | App.js:72-74 | same length; each tab carrying the id gets the new url and keeps id and key; every other tab is unchanged |
| `TabList.NavigatedKeepsIdsAndKeys` | App.js:72-74 | navigation leaves the sequence of ids and every key unchanged |
| `TabList.NavigatedIdempotent` | App.js:72-74 | repeating a navigation to the same url changes nothing more |
| `TabList.NavigatedAbsent` | App.js:72-74 | a navigation event for an unlisted id leaves the list unchanged |
| `TabList.IndexOf` | App.js:110 | the index found carries the id and no earlier tab does; none is found iff no tab carries it |
| `TabList.Find` | App.js:110 | the result is absent iff no tab carries the id; otherwise it is a listed tab with that id, the first one |
| `TabList.FindUnique` | App.js:110 | with distinct ids, `find` returns the one tab carrying the id |
| `TabList.FindAfterNavigated` | App.js:72-74 | after navigating a listed tab, looking it up gives the new url |
| `TabManager.InitialUrl` | App.js:44 | a non-empty saved url is used as is; a missing or empty one gives `DEFAULT_URL` |
| `TabManager.InitialView` | App.js:42-52 | initial load gives exactly one tab, with the saved-or-default url and the key from the second stamp; that tab is active and the invariant holds |
| `TabManager.DefaultTab` | App.js:83-87 | a new tab has the default url, the stamp as id and the key `webview-<stamp>`, and its key spells that id |
| `TabManager.SavesOnNavigate` | App.js:76 | a navigation writes to storage only for the active id, which under the invariant is a listed tab |
| `TabManager.WithNewTab` | App.js:81-90 | appending a default tab and activating it yields a non-empty list whose active id is listed |
| `TabManager.Navigate` | App.js:71-75 | navigation keeps the active id and the sequence of ids |
| `TabManager.Activate` | App.js:191 | a tab press keeps the list and makes the pressed id active |
| `TabManager.ActiveTab` | App.js:110 | the active tab found is listed and carries the active id; under the invariant it always exists |
| `TabManager.ShowsContent` | App.js:110-112 | content renders only when ready and the active tab is found, and always once ready under the invariant |
| `TabManager.NewTabProperties` | App.js:81-90 | a new tab keeps all previous tabs in order and appends exactly one tab with `DEFAULT_URL` and key `webview-<id>`, which becomes active |
| `TabManager.CloseTab` | App.js:92-100 | closing any id never leaves the list empty, a changed active id always names a listed tab, and the invariant is kept; the `Close*` lemmas below give the result branch by branch |
| `TabManager.CloseActiveSelectsLast` | App.js:93-96 | closing the active tab while others remain keeps the filtered list and activates its last tab, not a neighbour |
| `TabManager.CloseInactiveKeepsActive` | App.js:93-95 | closing a tab that is not active leaves the active id unchanged while tabs remain |
| `TabManager.CloseLastRemaining` | App.js:88-98 | when the filter empties the list, the committed list is the pre-close list plus a new default tab, which is active |
| `TabManager.CloseSoleTab` | App.js:92-99 | closing the only tab gives that tab followed by a new default tab, and the new tab is active |
| `TabManager.CloseMiddleOfThree` | App.js:92-96 | with tabs A, B, C and B active, closing B gives A, C with C active |
| `TabManager.NewTabKeepsDistinct` | App.js:81-88 | a new tab with a fresh stamp keeps ids distinct |
| `TabManager.CloseTabKeepsDistinct` | App.js:92-99 | closing, with a fresh stamp for the possible new tab, keeps ids distinct |
| `TabManager.NavigateWellformed` | App.js:71-75 | navigation keeps the invariant and the active tab findable |
| `TabManager.NavigateActiveUrl` | App.js:71-74 | after the active tab navigates, the active tab carries the new url |
| `TabManager.ActivateWellformed` | App.js:191 | pressing a listed tab keeps the invariant and makes that tab the one found |
| `TabManager.Step` | App.js:71-100 | each new-tab, close, navigation or tab-press event keeps the invariant |
| `TabManager.Run` | App.js:71-100 | after initial load, any sequence of such events keeps the list non-empty and the active tab findable |
| `TabManager.FreshStampFreshKey` | App.js:83-86 | a stamp not used for any existing key gives a key no listed tab carries |
| `TabManager.NewTabKeepsDistinctKeys` | App.js:81-88 | a new tab whose stamp was not used for any key keeps render keys distinct |
| `TabManager.RemoveIdKeepsDistinctKeys` | App.js:93 | filtering keeps render keys distinct |
| `TabManager.CloseTabKeepsDistinctKeys` | App.js:92-99 | closing keeps render keys distinct when the stamp of a possible reopened tab was not used for any key, and the result is keyed by `CloseKeyStamps` |
| `TabManager.RemoveIdStamps` | App.js:93 | dropping the stamps of the filtered tabs keeps the remaining keys matched to their stamps, and adds no stamp |
| `TabManager.CloseKeyStamps` | App.js:92-99 | the stamps behind a close's keys come from the old keys or the close's own clock reading |
| `TabManager.StepKeepsDistinctKeys` | App.js:71-100 | one handled event keeps render keys distinct and yields stamps for the new keys, drawn from the old ones or the event's reading |
| `TabManager.EventStampsCons` | App.js:82 | the clock readings of a run are the first event's readings followed by the rest's |
| `TabManager.TailStampsFresh` | App.js:82 | after one event, the remaining readings are still pairwise distinct and unused for any key |
| `TabManager.RunKeepsDistinctKeys` | App.js:71-100 | any run of events whose clock readings are pairwise distinct and unused for existing keys keeps render keys distinct |
| `TabManager.NavigateKeepsDistinctKeys` | App.js:71-75 | navigation keeps render keys distinct |
| `TabManager.InitialThenNewTabKeys` | App.js:46-48 | after initial load, a new tab's key differs from the initial one iff its stamp differs from the initial key's stamp |
| `TabManager.InitialKeyCollision` | App.js:46-48 | an initial tab with id 1 and key stamp 2, then a new tab at stamp 2: ids distinct, keys equal |
| `TabManager.SameRenderNavigationsLoseFirst` | App.js:71-75 | two navigations handled from the same render: the second commit leaves the first tab's url as it was, so the result differs from handling them one after the other whenever the first navigation changes a url |
| `TabManager.SameRenderNewTabThenNavigation` | App.js:75-89 | a new tab and a navigation handled from the same render: the new tab is dropped while the active id names it, breaking the invariant |
| `Lifecycle.Contains` | App.js:59 | a literal `/pattern/` matches iff the pattern occurs at some index |
| `Lifecycle.ForegroundStates` | App.js:59 | `'active'` and `'inactive'` match `/active/`, while `'background'` does not |
| `Lifecycle.MatchesActive` | App.js:59 | `state.match(/active/)` holds iff `active` occurs somewhere in the state |
| `Lifecycle.BackgroundSave` | App.js:59-63 | a write happens iff the previous state matches `/active/`, the next is `'background'` and the active tab's url is non-empty; it writes that url |
| `Lifecycle.NoSaveFromUnknownOrExtension` | App.js:59 | `'unknown'` and `'extension'` do not match `/active/`, so leaving them for `'background'` writes nothing |
| `Lifecycle.SavesFromForeground` | App.js:59-63 | going from `'active'` or `'inactive'` to `'background'` writes a non-empty active url |
| `Browser.SnackBrowser.constructor` | App.js:18-23 | mounting starts with no tabs, no active id, not ready, not disconnected, and empty logs |
| `Browser.SnackBrowser.LoadInitialTab` | App.js:42-52 | the committed state is the initial view and the component becomes ready |
| `Browser.SnackBrowser.CommitNewTab` | App.js:81-90 | commits the snapshot plus a default tab, with the new tab active |
| `Browser.SnackBrowser.HandleNewTab` | App.js:81-90 | appends exactly one default tab to the current list, activates it, and keeps the invariant |
| `Browser.SnackBrowser.HandleCloseTab` | App.js:92-100 | the committed state is `CloseTab` of the old one, with the stale-snapshot reopen, and the invariant holds |
| `Browser.SnackBrowser.HandleNavigation` | App.js:71-79 | updates the url of the matching tabs and logs a write of the url iff the tab is active |
| `Browser.SnackBrowser.HandleSelectTab` | App.js:191 | activates a listed tab, keeping the invariant |
| `Browser.SnackBrowser.HandleAppStateChange` | App.js:58-67 | logs the active url on the `/active/` to `'background'` edge, if the url is non-empty; then records the next state |
| `Browser.SnackBrowser.RegisterRef` | App.js:131 | the ref registry maps the tab's id to the new handle |
| `Browser.SnackBrowser.HandleMessage` | App.js:169-173 | only the exact disconnect payload raises the flag; any other payload leaves it unchanged |
| `Browser.SnackBrowser.ReconnectCurrentTab` | App.js:102-108 | with a reloadable ref for the active tab, issues exactly one reload and clears the flag; otherwise nothing changes |
| `Browser.SnackBrowser.ShowsContent` | App.js:110-112 | under the invariant, content renders iff the initial load has completed |
| `Browser.CloseMiddleScenario` | App.js:81-100 | load, two new tabs, select and close the middle one: two tabs remain and the last is active |
| `Browser.CloseSoleScenario` | App.js:81-100 | load then close the only tab: the loaded tab stays, followed by a new active default tab |
| `Browser.NavigateThenBackgroundScenario` | App.js:58-79 | navigating the active tab and then backgrounding leaves the active url as navigated; both steps write it |

## Left out

- Rendering: the JSX, the styles, `StatusBar` and the WebView configuration props (App.js:120-297). They are presentation.
- The injected page script (App.js:143-168). It runs inside the WebView with a 4-second `setInterval`, DOM listeners and a `window.open` override. Only its observable output, the `'SNACK_DISCONNECTED'` message, is modelled, as the input of `HandleMessage`.
- AsyncStorage: the stored value read at start is an argument, and writes are a ghost log. Failures and the timing of `async`/`await` are not modelled.
- `new URL(...)`: the URL parser is a library call, so the hostname extractor is a parameter.
- `Date.now()`: clock readings are parameters. Collisions are allowed. The lemmas about distinct ids assume fresh stamps, and the lemmas about distinct keys assume a stamp not used for any existing key.
- React effect subscription and teardown (App.js:57-69). The listener is modelled as seeing the `tabs` and `activeTabId` most recently committed. In App.js it is re-subscribed only when the effect runs after a commit, so a change event that arrives before that still sees the previous snapshot.
- Browser.SnackBrowser: each handler method reads the state the previous event committed, as if React re-rendered between any two events. In App.js each handler maps, spreads or filters the `tabs` of the render it closed over (App.js:72, App.js:88, App.js:93), and `setTabs` is last-write-wins. So two events handled from the same render can lose an update. The class does not capture this interleaving; `TabManager.SameRenderNavigationsLoseFirst` and `TabManager.SameRenderNewTabThenNavigation` state its two effects on values. The only stale snapshot the class does model is the one inside a single close (App.js:88, App.js:98).
- Browser.SnackBrowser.HandleAppStateChange: the next state is recorded in the same step as the write. In App.js `appState.current` is assigned only after the awaited `setItem` (App.js:62, App.js:66). So a quick `'background'` to `'active'` round trip can leave `appState.current == 'background'` while the app is in the foreground, and the next backgrounding then writes nothing. The model does not capture this.
- `AppState.currentState` being `null` at launch. Here `appState` is always a string, so the case where `.match` would throw is not modelled.
- WebView refs: each ref is reduced to "has `reload`". The ref callback with `null` on unmount is `RegisterRef(id, false)`.
- Handlers before loading: the tab handlers require that loading has finished. The handlers are only reachable through the tabs and WebViews that the render gate shows after loading.
