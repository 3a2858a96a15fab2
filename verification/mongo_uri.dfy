/**
  The connection string the database layer ends up with: the configured
  URI, or a local default when none is set, forced to name the `UsersDB`
  database. A URI not already ending in `UsersDB` has everything from its
  last `/` on replaced by `/UsersDB`; `/UsersDB` is appended only when the
  URI has no `/` at all.

  A URI that names a host but no database (`mongodb://localhost:27017`)
  has its last `/` inside the `//` of the scheme, so the host is cut away.
  `NormaliseUri` models that; `NormaliseUriKeepingHost` is the version that
  treats such a URI as having no database name and appends one.
*/
module MongoUri {
  import opened Wrappers
  import Text

  const DbName: string := "UsersDB"
  const DefaultUri: string := "mongodb://localhost:27017/UsersDB"

  /** An unset or empty variable is the default. */
  function Configured(env: Option<string>): (u: string)
    ensures env.Some? && env.value != "" ==> u == env.value
    ensures env.None? || env.value == "" ==> u == DefaultUri
  {
    if env.None? || env.value == "" then DefaultUri else env.value
  }

  /** `u.replace(/\/[^/]*$/, '/UsersDB')`: the last `/` and what follows it become `/UsersDB`. */
  function ReplaceLastSegment(u: string): (r: string)
    ensures '/' !in u ==> r == u
    ensures '/' in u ==> Text.EndsWith(r, "/" + DbName)
  {
    match Text.LastIndexOf(u, '/')
    case None => u
    case Some(i) => u[..i] + "/" + DbName
  }

  /** The source's normalisation. */
  function NormaliseUri(env: Option<string>): (r: string)
    ensures Text.EndsWith(r, DbName)
    ensures Text.EndsWith(Configured(env), DbName) ==> r == Configured(env)
    ensures !Text.EndsWith(Configured(env), DbName) && '/' in Configured(env) ==>
              var i := Text.LastIndexOf(Configured(env), '/').value;
              r == Configured(env)[..i] + "/" + DbName
    ensures !Text.EndsWith(Configured(env), DbName) && '/' !in Configured(env) ==>
              r == Configured(env) + "/" + DbName
  {
    var u := Configured(env);
    if Text.EndsWith(u, DbName) then u
    else
      var v := ReplaceLastSegment(u);
      SuffixOfSuffix(v, DbName);
      if Text.EndsWith(v, "/" + DbName) then v
      else
        AppendEndsWith(v, "/" + DbName);
        SuffixOfSuffix(v + "/" + DbName, DbName);
        v + "/" + DbName
  }

  lemma SuffixOfSuffix(s: string, d: string)
    ensures Text.EndsWith(s, "/" + d) ==> Text.EndsWith(s, d)
  {
    if Text.EndsWith(s, "/" + d) {
      assert s[|s| - |d|..] == s[|s| - |d| - 1..][1..];
    }
  }

  lemma AppendEndsWith(s: string, t: string)
    ensures Text.EndsWith(s + t, t)
  {
    assert (s + t)[|s + t| - |t|..] == t;
  }

  /** Normalising a normalised URI changes nothing. */
  lemma NormaliseIdempotent(env: Option<string>)
    ensures NormaliseUri(Some(NormaliseUri(env))) == NormaliseUri(env)
  {
    var r := NormaliseUri(env);
    assert r != "" by {
      assert |r| >= |DbName|;
    }
  }

  /**
    A host-only URI loses its host: its last `/` is the second one of `//`,
    so `mongodb://localhost:27017` becomes `mongodb://UsersDB`.
  */
  lemma HostOnlyUriLosesHost(scheme: string, host: string)
    requires '/' !in host && host != ""
    requires !Text.EndsWith(scheme + "://" + host, DbName)
    ensures NormaliseUri(Some(scheme + "://" + host)) == scheme + "://" + DbName
  {
    var u := scheme + "://" + host;
    var i := |scheme| + 2;
    assert u[i] == '/';
    assert forall k | i < k < |u| :: u[k] == host[k - i - 1];
    assert Text.LastIndexOf(u, '/') == Some(i);
    assert u[..i] == scheme + ":/";
    assert u[..i] + "/" + DbName == scheme + "://" + DbName;
  }

  /**
    The replacement the comment in the source describes: a URI whose last
    `/` belongs to the scheme's `//` has no database name, so `/UsersDB` is
    appended to it whole.
  */
  function ReplaceDatabase(u: string): (r: string)
    ensures Text.EndsWith(r, "/" + DbName)
    ensures '/' !in u ==> r == u + "/" + DbName
  {
    var base := match Text.LastIndexOf(u, '/')
      case None => u
      case Some(i) => if i > 0 && u[i - 1] == '/' then u else u[..i];
    AppendEndsWith(base, "/" + DbName);
    base + "/" + DbName
  }

  /** The normalisation with `ReplaceDatabase` in place of the segment replacement. */
  function NormaliseUriKeepingHost(env: Option<string>): (r: string)
    ensures Text.EndsWith(r, DbName)
    ensures Text.EndsWith(Configured(env), DbName) ==> r == Configured(env)
  {
    var u := Configured(env);
    if Text.EndsWith(u, DbName) then u
    else
      var v := ReplaceDatabase(u);
      SuffixOfSuffix(v, DbName);
      v
  }

  /**
    Any `scheme://host` with no further `/` and not already ending in the
    database name keeps its host: the database is appended.
  */
  lemma KeepingHostAppends(scheme: string, host: string)
    requires '/' !in host && host != ""
    requires !Text.EndsWith(scheme + "://" + host, DbName)
    ensures NormaliseUriKeepingHost(Some(scheme + "://" + host)) == scheme + "://" + host + "/" + DbName
  {
    var u := scheme + "://" + host;
    var i := |scheme| + 2;
    assert u[i] == '/' && u[i - 1] == '/';
    assert forall k | i < k < |u| :: u[k] == host[k - i - 1];
    assert Text.LastIndexOf(u, '/') == Some(i);
  }
}
