/**
  The navigation allow-list consulted by every WebView before it loads a
  request (`isAllowedUrl` in App.js).  A URL is accepted when its hostname
  ends with one of five fixed domains.  The comparison is a plain string
  suffix test: there is no dot boundary, so `notexpo.dev` passes.
*/
module AllowList {
  import opened Wrappers

  /** The domains App.js accepts, in the order it lists them. */
  const AllowedDomains: seq<string> :=
    ["snack.expo.dev", "expo.dev", "auth.expo.dev", "accounts.google.com", "githubusercontent.com"]

  /** JavaScript's `s.endsWith(suffix)`. */
  predicate EndsWith(s: string, suffix: string) {
    |suffix| <= |s| && s[|s| - |suffix|..] == suffix
  }

  /** `domains.some(domain => host.endsWith(domain))`, scanning left to right. */
  function SomeSuffix(host: string, domains: seq<string>): (r: bool)
    ensures r <==> exists i :: 0 <= i < |domains| && EndsWith(host, domains[i])
  {
    if domains == [] then false
    else if EndsWith(host, domains[0]) then true
    else
      var rest := SomeSuffix(host, domains[1..]);
      assert forall i :: 1 <= i < |domains| ==> domains[i] == domains[1..][i - 1];
      rest
  }

  /** The hostname test applied to a parsed URL. */
  function IsAllowedHost(host: string): (r: bool)
    ensures r <==> exists d :: d in AllowedDomains && EndsWith(host, d)
  {
    SomeSuffix(host, AllowedDomains)
  }

  /**
    `isAllowedUrl(url)`.  `hostOf` stands for `new URL(url).hostname`: it
    yields None exactly when the URL constructor throws, and the function
    then fails closed.
  */
  function IsAllowedUrl(url: string, hostOf: string -> Option<string>): (r: bool)
    ensures hostOf(url).None? ==> !r
    ensures hostOf(url).Some? ==> (r <==> exists d :: d in AllowedDomains && EndsWith(hostOf(url).value, d))
  {
    match hostOf(url)
    case None => false
    case Some(host) => IsAllowedHost(host)
  }

  lemma EndsWithTransitive(s: string, a: string, b: string)
    requires EndsWith(s, a) && EndsWith(a, b)
    ensures EndsWith(s, b)
  {
    assert s[|s| - |b|..] == s[|s| - |a|..][|a| - |b|..];
  }

  /**
    Because `expo.dev` is itself a suffix of `snack.expo.dev` and of
    `auth.expo.dev`, the five-entry list accepts exactly the hostnames that
    end with one of three strings.
  */
  lemma AllowedHostReduced(host: string)
    ensures IsAllowedHost(host) <==>
      EndsWith(host, "expo.dev") || EndsWith(host, "accounts.google.com") || EndsWith(host, "githubusercontent.com")
  {
    assert EndsWith("snack.expo.dev", "expo.dev");
    assert EndsWith("auth.expo.dev", "expo.dev");
    if EndsWith(host, "snack.expo.dev") {
      EndsWithTransitive(host, "snack.expo.dev", "expo.dev");
    }
    if EndsWith(host, "auth.expo.dev") {
      EndsWithTransitive(host, "auth.expo.dev", "expo.dev");
    }
    assert "expo.dev" in AllowedDomains;
    assert "accounts.google.com" in AllowedDomains;
    assert "githubusercontent.com" in AllowedDomains;
  }

  /** No dot boundary: any hostname that merely ends in `expo.dev`, such as `notexpo.dev`, is accepted. */
  lemma AcceptsAnyExpoDevSuffix(prefix: string)
    ensures IsAllowedHost(prefix + "expo.dev")
  {
    var host := prefix + "expo.dev";
    assert host[|host| - |"expo.dev"|..] == "expo.dev";
    AllowedHostReduced(host);
  }

  lemma AcceptsNotExpoDev()
    ensures IsAllowedHost("notexpo.dev")
  {
    AcceptsAnyExpoDevSuffix("not");
    assert "not" + "expo.dev" == "notexpo.dev";
  }

  lemma RejectsEvilCom()
    ensures !IsAllowedHost("evil.com")
  {
    AllowedHostReduced("evil.com");
    assert "evil.com"[1] != "expo.dev"[1];
  }

  lemma AcceptsSnackExpoDev()
    ensures IsAllowedHost("snack.expo.dev")
  {
    AcceptsAnyExpoDevSuffix("snack.");
    assert "snack." + "expo.dev" == "snack.expo.dev";
  }
}
