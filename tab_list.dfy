/**
  The tab records of App.js and the list expressions its handlers build
  from them: `filter` (closing), `map` (navigation) and `find` (looking up
  the active tab).  Tabs are plain values; the handlers commit new lists.
*/
module TabList {
  import opened Wrappers

  /** `{ id, url, key }`; `id` is a `Date.now()` stamp and `key` the WebView's render key. */
  datatype Tab = Tab(id: nat, url: string, key: string)

  /** `tabs.map(tab => tab.id)`. */
  function Ids(tabs: seq<Tab>): (ids: seq<nat>)
    ensures |ids| == |tabs|
    ensures forall i :: 0 <= i < |tabs| ==> ids[i] == tabs[i].id
  {
    if tabs == [] then [] else [tabs[0].id] + Ids(tabs[1..])
  }

  lemma IdsMember(tabs: seq<Tab>, id: nat)
    ensures id in Ids(tabs) <==> exists t :: t in tabs && t.id == id
  {
    if id in Ids(tabs) {
      var i :| 0 <= i < |tabs| && Ids(tabs)[i] == id;
      assert tabs[i] in tabs;
    }
  }

  /** No two tabs carry the same id.  App.js does not enforce it; it holds when every stamp is fresh. */
  ghost predicate DistinctIds(tabs: seq<Tab>) {
    forall i, j :: 0 <= i < j < |tabs| ==> tabs[i].id != tabs[j].id
  }

  /** `tabs.filter(tab => tab.id !== id)`: removes every tab carrying `id`. */
  function RemoveId(tabs: seq<Tab>, id: nat): (r: seq<Tab>)
    ensures forall t :: t in r <==> t in tabs && t.id != id
    ensures |r| <= |tabs|
  {
    if tabs == [] then []
    else if tabs[0].id == id then RemoveId(tabs[1..], id)
    else [tabs[0]] + RemoveId(tabs[1..], id)
  }

  /** Filtering distributes over concatenation: the survivors keep their original order. */
  lemma {:induction false} RemoveIdConcat(a: seq<Tab>, b: seq<Tab>, id: nat)
    ensures RemoveId(a + b, id) == RemoveId(a, id) + RemoveId(b, id)
  {
    if a == [] {
      assert a + b == b;
    } else {
      assert (a + b)[1..] == a[1..] + b;
      RemoveIdConcat(a[1..], b, id);
    }
  }

  /** After filtering, the id is gone, and every other id that was present still is. */
  lemma RemoveIdIds(tabs: seq<Tab>, id: nat, other: nat)
    ensures id !in Ids(RemoveId(tabs, id))
    ensures other != id ==> (other in Ids(RemoveId(tabs, id)) <==> other in Ids(tabs))
  {
    IdsMember(RemoveId(tabs, id), id);
    IdsMember(RemoveId(tabs, id), other);
    IdsMember(tabs, other);
  }

  /** Closing an id nobody carries changes nothing. */
  lemma {:induction false} RemoveIdAbsent(tabs: seq<Tab>, id: nat)
    requires id !in Ids(tabs)
    ensures RemoveId(tabs, id) == tabs
  {
    if tabs != [] {
      assert Ids(tabs[1..]) == Ids(tabs)[1..];
      RemoveIdAbsent(tabs[1..], id);
    }
  }

  /** The filter comes out empty exactly when every tab carries the id. */
  lemma RemoveIdEmpty(tabs: seq<Tab>, id: nat)
    ensures RemoveId(tabs, id) == [] <==> forall i :: 0 <= i < |tabs| ==> tabs[i].id == id
  {
    var r := RemoveId(tabs, id);
    if r != [] {
      assert r[0] in r;
    }
    if exists i :: 0 <= i < |tabs| && tabs[i].id != id {
      var i :| 0 <= i < |tabs| && tabs[i].id != id;
      assert tabs[i] in tabs;
      assert tabs[i] in r;
    }
  }

  lemma {:induction false} RemoveIdKeepsDistinct(tabs: seq<Tab>, id: nat)
    requires DistinctIds(tabs)
    ensures DistinctIds(RemoveId(tabs, id))
  {
    if tabs != [] {
      RemoveIdKeepsDistinct(tabs[1..], id);
      var rest := RemoveId(tabs[1..], id);
      forall t | t in rest ensures t.id != tabs[0].id {
        var j :| 0 <= j < |tabs[1..]| && tabs[1..][j] == t;
        assert tabs[j + 1] == t;
      }
      if tabs[0].id != id {
        var r := [tabs[0]] + rest;
        forall i, j | 0 <= i < j < |r| ensures r[i].id != r[j].id {
          if i > 0 {
            assert r[i] == rest[i - 1] && r[j] == rest[j - 1];
          } else {
            assert r[j] == rest[j - 1];
            assert rest[j - 1] in rest;
          }
        }
      }
    }
  }

  /**
    `tabs.map(tab => tab.id === id ? { ...tab, url } : tab)`: each tab
    carrying `id` takes the new url; every other field and every other tab
    stay as they were.
  */
  function Navigated(tabs: seq<Tab>, id: nat, url: string): (r: seq<Tab>)
    ensures |r| == |tabs|
    ensures forall i :: 0 <= i < |tabs| ==> r[i] == if tabs[i].id == id then tabs[i].(url := url) else tabs[i]
  {
    if tabs == [] then []
    else [if tabs[0].id == id then tabs[0].(url := url) else tabs[0]] + Navigated(tabs[1..], id, url)
  }

  /** Navigation never changes the length, the order of ids or the render keys. */
  lemma NavigatedKeepsIdsAndKeys(tabs: seq<Tab>, id: nat, url: string)
    ensures Ids(Navigated(tabs, id, url)) == Ids(tabs)
    ensures forall i :: 0 <= i < |tabs| ==> Navigated(tabs, id, url)[i].key == tabs[i].key
  {
  }

  /** Repeating a navigation to the same url is a no-op. */
  lemma NavigatedIdempotent(tabs: seq<Tab>, id: nat, url: string)
    ensures Navigated(Navigated(tabs, id, url), id, url) == Navigated(tabs, id, url)
  {
  }

  /** A navigation event for a tab that is no longer listed changes nothing. */
  lemma NavigatedAbsent(tabs: seq<Tab>, id: nat, url: string)
    requires id !in Ids(tabs)
    ensures Navigated(tabs, id, url) == tabs
  {
    var r := Navigated(tabs, id, url);
    forall i | 0 <= i < |tabs| ensures r[i] == tabs[i] {
      assert Ids(tabs)[i] == tabs[i].id;
    }
  }

  /** The position of the first tab carrying `id`, if any (the index `find` stops at). */
  function IndexOf(tabs: seq<Tab>, id: nat): (r: Option<nat>)
    ensures r.Some? ==> r.value < |tabs| && tabs[r.value].id == id
    ensures r.Some? ==> forall j :: 0 <= j < r.value ==> tabs[j].id != id
    ensures r.None? ==> forall j :: 0 <= j < |tabs| ==> tabs[j].id != id
  {
    if tabs == [] then None
    else if tabs[0].id == id then Some(0)
    else
      match IndexOf(tabs[1..], id)
      case None => None
      case Some(k) => Some(k + 1)
  }

  /** `tabs.find(tab => tab.id === id)`: the first tab carrying `id`, if any. */
  function Find(tabs: seq<Tab>, id: nat): (r: Option<Tab>)
    ensures r.None? <==> id !in Ids(tabs)
    ensures r.Some? ==> r.value in tabs && r.value.id == id
    ensures r.Some? ==> IndexOf(tabs, id).Some? && r.value == tabs[IndexOf(tabs, id).value]
  {
    match IndexOf(tabs, id)
    case None => None
    case Some(i) => Some(tabs[i])
  }

  /** When ids are distinct, the tab found is the only tab carrying that id. */
  lemma FindUnique(tabs: seq<Tab>, id: nat, i: nat)
    requires DistinctIds(tabs)
    requires i < |tabs| && tabs[i].id == id
    ensures Find(tabs, id) == Some(tabs[i])
  {
    var k := IndexOf(tabs, id);
    assert k.Some?;
    assert k.value == i;
  }

  /** After navigating tab `id`, looking it up yields the new url. */
  lemma FindAfterNavigated(tabs: seq<Tab>, id: nat, url: string)
    requires id in Ids(tabs)
    ensures Find(Navigated(tabs, id, url), id).Some?
    ensures Find(Navigated(tabs, id, url), id).value.url == url
  {
    var r := Navigated(tabs, id, url);
    var k := IndexOf(tabs, id);
    assert k.Some?;
    assert r[k.value].id == id;
    var i := IndexOf(r, id).value;
    assert r[i] == tabs[i].(url := url);
  }
}
