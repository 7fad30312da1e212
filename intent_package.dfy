/**
 * The `Intent.packageName` extension of the screen activity: which package a
 * `package:`, `fdroid.app:`, `market://details?id=` or F-Droid web link names.
 *
 * Android's `Uri` parsing is not part of this model: a URI is the record of
 * the parts the classifier reads, each possibly null.
 */
module IntentPackage {
  import opened Wrappers

  datatype Uri = Uri(
    scheme: Option<string>,
    host: Option<string>,
    schemeSpecificPart: Option<string>,
    idParameter: Option<string>,        // `getQueryParameter("id")`
    lastPathSegment: Option<string>)

  datatype Intent = Intent(action: Option<string>, data: Option<Uri>)

  /** Android's `Intent.ACTION_VIEW`. */
  const ActionView: string := "android.intent.action.VIEW"

  const FdroidHost: string := "f-droid.org"
  const FdroidSubdomainSuffix: string := ".f-droid.org"

  /** `nullIfEmpty`: an empty string becomes null. */
  function NullIfEmpty(s: Option<string>): (r: Option<string>)
    ensures r.Some? <==> s.Some? && s.value != []
    ensures r.Some? ==> r == s
  {
    if s.Some? && s.value != [] then s else None
  }

  /** Kotlin's case-sensitive `String.endsWith`. */
  predicate EndsWith(s: string, suffix: string) {
    |suffix| <= |s| && s[|s| - |suffix|..] == suffix
  }

  /** The hosts whose web links are taken as package links. */
  predicate IsFdroidHost(host: string)
    ensures IsFdroidHost(host) ==> EndsWith(host, FdroidHost)
  {
    host == FdroidHost || EndsWith(host, FdroidSubdomainSuffix)
  }

  /** A web host is accepted exactly when it is `f-droid.org` or some name followed by `.f-droid.org`. */
  lemma FdroidHostIsDomainOrSubdomain(host: string)
    ensures IsFdroidHost(host) <==> host == FdroidHost || exists sub :: host == sub + FdroidSubdomainSuffix
  {
    if EndsWith(host, FdroidSubdomainSuffix) {
      var sub := host[..|host| - |FdroidSubdomainSuffix|];
      assert host == sub + FdroidSubdomainSuffix;
    }
    if sub :| host == sub + FdroidSubdomainSuffix {
      assert host[|host| - |FdroidSubdomainSuffix|..] == FdroidSubdomainSuffix;
    }
  }

  /** The package an intent's data URI names, if any. */
  function PackageName(intent: Intent): (r: Option<string>)
    // never an empty name
    ensures r.Some? ==> r.value != []
    // the name is one of the URI's own parts
    ensures r.Some? ==>
      && intent.data.Some?
      && (r == intent.data.value.schemeSpecificPart || r == intent.data.value.idParameter || r == intent.data.value.lastPathSegment)
    // a web link yields a name only from an F-Droid host
    ensures r.Some? && intent.data.value.scheme in {Some("http"), Some("https")} ==>
      intent.data.value.host.Some? && IsFdroidHost(intent.data.value.host.value)
  {
    var uri := intent.data;
    if uri.Some? && (uri.value.scheme == Some("package") || uri.value.scheme == Some("fdroid.app")) then
      NullIfEmpty(uri.value.schemeSpecificPart)
    else if uri.Some? && uri.value.scheme == Some("market") && uri.value.host == Some("details") then
      NullIfEmpty(uri.value.idParameter)
    else if uri.Some? && uri.value.scheme in {Some("http"), Some("https")} then
      var host := if uri.value.host.Some? then uri.value.host.value else "";
      if IsFdroidHost(host) then NullIfEmpty(uri.value.lastPathSegment) else None
    else
      None
  }

  /** `package:` and `fdroid.app:` give the scheme-specific part, or null when it is empty. */
  lemma PackageSchemes(intent: Intent)
    requires intent.data.Some? && intent.data.value.scheme in {Some("package"), Some("fdroid.app")}
    ensures PackageName(intent) == NullIfEmpty(intent.data.value.schemeSpecificPart)
  {
  }

  /** `market://details` gives the `id` parameter, or null when it is empty; any other market host gives null. */
  lemma MarketScheme(intent: Intent)
    requires intent.data.Some? && intent.data.value.scheme == Some("market")
    ensures intent.data.value.host == Some("details") ==> PackageName(intent) == NullIfEmpty(intent.data.value.idParameter)
    ensures intent.data.value.host != Some("details") ==> PackageName(intent) == None
  {
  }

  /** `http`/`https` give the last path segment for F-Droid hosts only; a missing host counts as empty. */
  lemma WebSchemes(intent: Intent)
    requires intent.data.Some? && intent.data.value.scheme in {Some("http"), Some("https")}
    ensures PackageName(intent) ==
      if intent.data.value.host.Some? && IsFdroidHost(intent.data.value.host.value)
      then NullIfEmpty(intent.data.value.lastPathSegment) else None
  {
  }

  /** No data, no scheme, or any scheme other than the five known ones gives null. */
  lemma OtherSchemes(intent: Intent)
    requires intent.data.None? ||
      intent.data.value.scheme !in {Some("package"), Some("fdroid.app"), Some("market"), Some("http"), Some("https")}
    ensures PackageName(intent) == None
  {
  }

  /** A host that merely ends in `f-droid.org` without the dot is not an F-Droid host. */
  lemma LookalikeHostRejected(last: string)
    ensures PackageName(Intent(Some(ActionView), Some(Uri(Some("https"), Some("evilf-droid.org"), None, None, Some(last))))) == None
  {
  }

  /** A subdomain of `f-droid.org` is accepted. */
  lemma SubdomainAccepted(last: string)
    requires last != []
    ensures PackageName(Intent(Some(ActionView), Some(Uri(Some("https"), Some("www.f-droid.org"), None, None, Some(last))))) == Some(last)
  {
  }
}
