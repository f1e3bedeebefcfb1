/**
  The AppState listener of App.js: on every change it writes the active
  tab's url under 'lastSnackURL' when the previous state matches the
  regular expression /active/ and the next one is 'background', and then
  records the next state.  Note that 'inactive' matches /active/ too.
*/
module Lifecycle {
  import opened Wrappers
  import opened TabList

  const Background: string := "background"

  predicate StartsWith(s: string, prefix: string) {
    |prefix| <= |s| && s[..|prefix|] == prefix
  }

  /** `pat` occurs in `s` starting at index `i`. */
  predicate OccursAt(s: string, pat: string, i: int) {
    0 <= i && i + |pat| <= |s| && s[i..i + |pat|] == pat
  }

  /** `s.match(/pat/)` is truthy for a pattern without metacharacters: `pat` occurs somewhere in `s`. */
  function Contains(s: string, pat: string): (r: bool)
    ensures r <==> exists i :: OccursAt(s, pat, i)
    decreases |s|
  {
    if StartsWith(s, pat) then
      assert OccursAt(s, pat, 0);
      true
    else if s == [] then
      assert forall i :: !OccursAt(s, pat, i);
      false
    else
      var r := Contains(s[1..], pat);
      assert forall i :: OccursAt(s, pat, i + 1) <==> OccursAt(s[1..], pat, i) by {
        forall i ensures OccursAt(s, pat, i + 1) <==> OccursAt(s[1..], pat, i) {
          if 0 <= i && i + 1 + |pat| <= |s| {
            var t := s[1..];
            var u, w := s[i + 1..i + 1 + |pat|], t[i..i + |pat|];
            assert forall k :: 0 <= k < |pat| ==> u[k] == w[k];
            assert u == w;
          }
        }
      }
      assert !OccursAt(s, pat, 0);
      assert forall i :: OccursAt(s, pat, i) ==> OccursAt(s[1..], pat, i - 1);
      r
  }

  /** `state.match(/active/)`. */
  predicate MatchesActive(state: string): (r: bool)
    ensures r <==> exists i :: OccursAt(state, "active", i)
  {
    Contains(state, "active")
  }

  /**
    The url the listener writes for the change `prev` to `next`, given
    the active tab the listener's closure sees: only on a /active/ to
    'background' change, and only for a truthy (non-empty) url.
  */
  function BackgroundSave(prev: string, next: string, activeTab: Option<Tab>): (r: Option<string>)
    ensures r.Some? ==> next == Background && prev != Background
    ensures r.Some? ==> exists i :: OccursAt(prev, "active", i)
    ensures r.Some? ==> activeTab.Some? && r.value == activeTab.value.url && r.value != ""
    ensures (exists i :: OccursAt(prev, "active", i)) && next == Background && activeTab.Some? && activeTab.value.url != ""
      ==> r == Some(activeTab.value.url)
  {
    ForegroundStates();
    if MatchesActive(prev) && next == Background && activeTab.Some? && activeTab.value.url != "" then
      Some(activeTab.value.url)
    else
      None
  }

  /** Both 'active' and 'inactive' count as foreground; 'background' does not. */
  lemma ForegroundStates()
    ensures MatchesActive("active")
    ensures MatchesActive("inactive")
    ensures !MatchesActive(Background)
  {
    assert OccursAt("active", "active", 0);
    assert OccursAt("inactive", "active", 2);
    var b := Background;
    forall i ensures !OccursAt(b, "active", i) {
      if 0 <= i <= 4 {
        assert b[i..i + 6][0] == b[i] && b[i..i + 6][2] == b[i + 2];
        assert b[i] != 'a' || b[i + 2] != 't';
      }
    }
  }

  /** Other AppState values such as 'unknown' and 'extension' do not match /active/, so leaving them writes nothing. */
  lemma NoSaveFromUnknownOrExtension(activeTab: Option<Tab>)
    ensures !MatchesActive("unknown") && !MatchesActive("extension")
    ensures BackgroundSave("unknown", Background, activeTab) == None
    ensures BackgroundSave("extension", Background, activeTab) == None
  {
    var u := "unknown";
    forall i ensures !OccursAt(u, "active", i) {
      if 0 <= i <= 1 {
        assert u[i..i + 6][0] == u[i];
        assert u[i] != 'a';
      }
    }
    var e := "extension";
    forall i ensures !OccursAt(e, "active", i) {
      if 0 <= i <= 3 {
        assert e[i..i + 6][0] == e[i];
        assert e[i] != 'a';
      }
    }
  }

  /** Moving to the background from 'active' or 'inactive' writes the active tab's url when it is non-empty. */
  lemma SavesFromForeground(prev: string, t: Tab)
    requires prev == "active" || prev == "inactive"
    requires t.url != ""
    ensures BackgroundSave(prev, Background, Some(t)) == Some(t.url)
  {
    ForegroundStates();
  }
}
