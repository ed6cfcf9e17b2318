/** Which repository serves a request: the conflict check on the configured routes, the
    registry's snapshot, and its route selection. */
module Routes {
  import opened Text
  import opened Upstreams

  datatype Repository = Repository(
    id: int,
    slug: string,
    enabled: bool,
    publicMode: string,
    publicHost: string,
    publicPath: string,
    stripPrefix: string,
    addPrefix: string,
    hostRewrite: Option<Authority>,
    upstreams: seq<Upstream>)

  // ---------------------------------------------------------------- normal paths

  predicate SafeSegments(segments: seq<string>) {
    forall segment | segment in segments :: segment != "" && segment != "." && segment != ".."
  }

  predicate IsSystemPrefix(segment: string) {
    segment == "metrics" || segment == "healthz" || segment == "_mirror_auth" || segment == "_mirrorrelay"
  }

  /** `NormalizeAndValidate` on a path-mode `public_path`; `None` is an error. */
  function NormalizePublicPath(publicPath: string, slug: string): Option<string> {
    var trimmed := Trim(IsSlash, if publicPath == "" then "/" + slug + "/" else publicPath);
    if trimmed == "" || !SafeSegments(Split(trimmed, '/')) then None
    else if exists c | c in trimmed :: c in "\\%\0\r\n\t ?#" then None
    else if IsSystemPrefix(Split(trimmed, '/')[0]) then None
    else Some("/" + trimmed + "/")
  }

  /** A slash at both ends, a visible first and last segment. */
  predicate NormalPath(path: string) {
    |path| >= 3 && path[0] == '/' && path[1] != '/' && path[|path| - 2] != '/' && path[|path| - 1] == '/'
  }

  lemma NormalizedIsNormal(publicPath: string, slug: string)
    requires NormalizePublicPath(publicPath, slug).Some?
    ensures NormalPath(NormalizePublicPath(publicPath, slug).value)
  {
    var value := if publicPath == "" then "/" + slug + "/" else publicPath;
    TrimTrimmed(IsSlash, value);
  }

  /** A normalised path is normal already. */
  lemma NormalizeTwice(publicPath: string, slug: string, again: string)
    requires NormalizePublicPath(publicPath, slug).Some?
    ensures NormalizePublicPath(NormalizePublicPath(publicPath, slug).value, again) ==
            NormalizePublicPath(publicPath, slug)
  {
    hide SafeSegments, IsSystemPrefix, Trim;
    var value := if publicPath == "" then "/" + slug + "/" else publicPath;
    TrimTrimmed(IsSlash, value);
    TrimBetweenSlashes(Trim(IsSlash, value));
  }

  lemma TrimBetweenSlashes(s: string)
    requires s != "" && Trimmed(IsSlash, s)
    ensures Trim(IsSlash, "/" + s + "/") == s
  {
    var slashed := s + "/";
    assert ("/" + s + "/")[1..] == slashed && slashed[0] == s[0] && IsSlash('/');
    assert TrimLeft(IsSlash, slashed) == slashed;
    assert slashed[..|slashed| - 1] == s && slashed[|slashed| - 1] == '/';
    assert TrimRight(IsSlash, slashed) == TrimRight(IsSlash, s);
  }

  // ---------------------------------------------------------------- the conflict check

  function PathOf(r: Repository): string {
    if r.publicPath == "" then "/" + r.slug + "/" else r.publicPath
  }

  function HostKey(host: string): string {
    ToLower(TrimSuffix(host, "."))
  }

  predicate IsPrefix(prefix: string, s: string) {
    prefix <= s
  }

  function Directory(path: string): string {
    TrimSuffix(path, "/") + "/"
  }

  predicate RoutePathsOverlap(left: string, right: string) {
    IsPrefix(Directory(right), Directory(left)) || IsPrefix(Directory(left), Directory(right))
  }

  const HEALTH := "/healthz/"
  const METRICS := "/metrics/"
  const TOKEN := "/_mirror_auth/"
  const AUXILIARY := "/_mirrorrelay/"

  /** What routes may not use besides each other's places. */
  datatype System = System(adminPath: string, sharedHost: string, adminHost: string) {
    function Reserved(): seq<string> {
      [HEALTH, METRICS, TOKEN, AUXILIARY] + if adminPath == "" then [] else [adminPath]
    }
  }

  predicate IsHostMode(r: Repository) {
    r.publicMode == "host"
  }

  /** A repository that clashes with nothing reserved. */
  predicate PlacedApart(r: Repository, system: System) {
    if IsHostMode(r) then
      HostKey(r.publicHost) != "" ==>
        HostKey(r.publicHost) != HostKey(system.sharedHost) && HostKey(r.publicHost) != HostKey(system.adminHost)
    else
      && PathOf(r) != "/" && PathOf(r) != "//"
      && forall path | path in system.Reserved() :: !RoutePathsOverlap(PathOf(r), path)
  }

  /** Two repositories, the first listed before the second, that do not clash. An owner of a
      host without a slug is not remembered. */
  predicate Apart(first: Repository, second: Repository) {
    if IsHostMode(first) && IsHostMode(second) then
      HostKey(second.publicHost) == "" || first.slug == "" || HostKey(first.publicHost) != HostKey(second.publicHost)
    else if !IsHostMode(first) && !IsHostMode(second) then !RoutePathsOverlap(PathOf(first), PathOf(second))
    else true
  }

  ghost predicate NoConflicts(repositories: seq<Repository>, system: System) {
    && (forall i | 0 <= i < |repositories| :: PlacedApart(repositories[i], system))
    && (forall i, j | 0 <= i < j < |repositories| :: Apart(repositories[i], repositories[j]))
  }

  lemma OverlapSymmetric(left: string, right: string)
    ensures RoutePathsOverlap(left, right) <==> RoutePathsOverlap(right, left)
  {
  }

  /** The slug last recorded for a host. */
  function Owner(repositories: seq<Repository>, host: string): string {
    if repositories == [] then ""
    else
      var last := repositories[|repositories| - 1];
      if IsHostMode(last) && HostKey(last.publicHost) == host then last.slug
      else Owner(repositories[..|repositories| - 1], host)
  }

  function PathsOf(repositories: seq<Repository>): seq<string> {
    if repositories == [] then []
    else
      var last := repositories[|repositories| - 1];
      PathsOf(repositories[..|repositories| - 1]) + if IsHostMode(last) then [] else [PathOf(last)]
  }

  predicate Owns(r: Repository, host: string) {
    IsHostMode(r) && HostKey(r.publicHost) == host && r.slug != ""
  }

  /** While no conflict was found, a host has a recorded owner exactly if some repository
      with a slug has it. */
  lemma {:induction false} OwnerExactly(repositories: seq<Repository>, host: string)
    requires host != "" && forall i, j | 0 <= i < j < |repositories| :: Apart(repositories[i], repositories[j])
    ensures Owner(repositories, host) != "" <==> exists k | 0 <= k < |repositories| :: Owns(repositories[k], host)
  {
    hide HostKey, RoutePathsOverlap;
    if repositories != [] {
      var n := |repositories| - 1;
      var before := repositories[..n];
      OwnerExactly(before, host);
      if k :| 0 <= k < |before| && Owns(before[k], host) {
        assert Owns(repositories[k], host) && Apart(repositories[k], repositories[n]);
      }
      if k :| 0 <= k < |repositories| && Owns(repositories[k], host) {
        assert k < n ==> Owns(before[k], host) && Apart(repositories[k], repositories[n]);
      }
    }
  }

  lemma {:induction false} PathsExactly(repositories: seq<Repository>, path: string)
    ensures (forall other | other in PathsOf(repositories) :: !RoutePathsOverlap(path, other)) <==>
            forall k | 0 <= k < |repositories| && !IsHostMode(repositories[k]) ::
                !RoutePathsOverlap(path, PathOf(repositories[k]))
  {
    hide RoutePathsOverlap, PathOf;
    if repositories != [] {
      PathsExactly(repositories[..|repositories| - 1], path);
    }
  }

  method ClearOf(path: string, others: seq<string>) returns (clear: bool)
    ensures clear <==> forall other | other in others :: !RoutePathsOverlap(path, other)
  {
    for i := 0 to |others|
      invariant forall k | 0 <= k < i :: !RoutePathsOverlap(path, others[k])
    {
      if RoutePathsOverlap(path, others[i]) {
        return false;
      }
    }
    return true;
  }

  /** `ValidateRouteConflicts` accepts exactly the lists whose repositories are pairwise apart
      and apart from the system's own places. */
  method ValidateRouteConflicts(repositories: seq<Repository>, system: System) returns (ok: bool)
    ensures ok <==> NoConflicts(repositories, system)
  {
    hide RoutePathsOverlap, HostKey, PathOf;
    var seenHosts: map<string, string> := map[];
    var paths: seq<string> := [];
    for i := 0 to |repositories|
      invariant NoConflicts(repositories[..i], system)
      invariant forall host | host != "" ::
                Owner(repositories[..i], host) == if host in seenHosts then seenHosts[host] else ""
      invariant paths == PathsOf(repositories[..i])
    {
      var repository := repositories[i];
      assert repositories[..i + 1][..i] == repositories[..i];
      if repository.publicMode == "host" {
        var host := HostKey(repository.publicHost);
        if host != "" {
          OwnerExactly(repositories[..i], host);
          if host in seenHosts && seenHosts[host] != "" {
            return false;
          }
          if host == HostKey(system.sharedHost) || host == HostKey(system.adminHost) {
            return false;
          }
          seenHosts := seenHosts[host := repository.slug];
        }
      } else {
        var path := PathOf(repository);
        if path == "/" || path == "//" {
          return false;
        }
        var ok := ClearOf(path, system.Reserved());
        if !ok {
          return false;
        }
        ok := ClearOf(path, paths);
        PathsExactly(repositories[..i], path);
        if !ok {
          PathTaken(repositories, system, i);
          return false;
        }
        paths := paths + [path];
      }
      OneMore(repositories, system, i);
    }
    assert repositories[..|repositories|] == repositories;
    return true;
  }

  lemma PathTaken(repositories: seq<Repository>, system: System, i: nat)
    requires i < |repositories| && !IsHostMode(repositories[i])
    requires exists k | 0 <= k < |repositories[..i]| && !IsHostMode(repositories[..i][k]) ::
               RoutePathsOverlap(PathOf(repositories[i]), PathOf(repositories[..i][k]))
    ensures !NoConflicts(repositories, system)
  {
    hide RoutePathsOverlap, PathOf;
    var k :| 0 <= k < i && !IsHostMode(repositories[..i][k]) &&
        RoutePathsOverlap(PathOf(repositories[i]), PathOf(repositories[..i][k]));
    OverlapSymmetric(PathOf(repositories[i]), PathOf(repositories[k]));
    assert !Apart(repositories[k], repositories[i]);
  }

  /** A repository that is placed apart and apart from all before it keeps the list clean. */
  lemma OneMore(repositories: seq<Repository>, system: System, i: nat)
    requires i < |repositories| && NoConflicts(repositories[..i], system) && PlacedApart(repositories[i], system)
    requires IsHostMode(repositories[i]) && HostKey(repositories[i].publicHost) != "" ==>
               forall k | 0 <= k < |repositories[..i]| ::
                   !Owns(repositories[..i][k], HostKey(repositories[i].publicHost))
    requires !IsHostMode(repositories[i]) ==>
               forall k | 0 <= k < |repositories[..i]| && !IsHostMode(repositories[..i][k]) ::
                 !RoutePathsOverlap(PathOf(repositories[i]), PathOf(repositories[..i][k]))
    ensures NoConflicts(repositories[..i + 1], system)
  {
    hide RoutePathsOverlap, PathOf, HostKey, PlacedApart;
    var all := repositories[..i + 1];
    forall k | 0 <= k < i ensures Apart(all[k], all[i]) {
      OverlapSymmetric(PathOf(repositories[i]), PathOf(repositories[k]));
      assert repositories[..i][k] == all[k];
    }
    assert forall k | 0 <= k < i :: all[k] == repositories[..i][k];
  }

  // ---------------------------------------------------------------- route selection

  function Root(r: Repository): string {
    TrimSuffix(PathOf(r), "/")
  }

  /** A path-mode repository that may serve the path. */
  predicate Serves(r: Repository, path: string) {
    r.enabled && !IsHostMode(r) && (path == Root(r) || IsPrefix(PathOf(r), path))
  }

  /** The first repository with the longest root among those that serve the path; a root
      must not be empty. */
  function Longest(repositories: seq<Repository>, path: string): Option<Repository> {
    if repositories == [] then None
    else
      var before := Longest(repositories[..|repositories| - 1], path);
      var last := repositories[|repositories| - 1];
      if Serves(last, path) && |Root(last)| > (if before.Some? then |Root(before.value)| else 0) then Some(last)
      else before
  }

  /** The last host-mode repository with this host. */
  function ByHost(repositories: seq<Repository>, host: string): Option<Repository> {
    if repositories == [] then None
    else
      var last := repositories[|repositories| - 1];
      if IsHostMode(last) && last.publicHost != "" && ToLower(last.publicHost) == host then Some(last)
      else ByHost(repositories[..|repositories| - 1], host)
  }

  function OrRoot(path: string): string {
    if path == "" then "/" else path
  }

  datatype Routed = NotFound | Found(repository: Repository, relative: string)

  function RouteByPath(repositories: seq<Repository>, path: string): Routed {
    match Longest(repositories, path)
    case None => NotFound
    case Some(m) => Found(m, OrRoot(TrimPrefix(path, Root(m))))
  }

  predicate IsBracket(c: char) {
    c == '[' || c == ']'
  }

  /** `Registry.Route`; `host` is the request's host without its port. */
  function Route(repositories: seq<Repository>, basePath: string, host: string, path: string): Routed {
    var named := ByHost(repositories, ToLower(Trim(IsBracket, host)));
    if named.Some? && named.value.enabled then Found(named.value, OrRoot(path))
    else if RouteByPath(repositories, path).Found? then RouteByPath(repositories, path)
    else if basePath != "" && IsPrefix(basePath + "/", path) then RouteByPath(repositories, TrimPrefix(path, basePath))
    else NotFound
  }

  // ---------------------------------------------------------------- the registry

  function UpdateOne(u: Upstream, upstreamId: int, status: string): Upstream {
    if u.id == upstreamId then u.(healthStatus := status) else u
  }

  function UpdateUpstreams(values: seq<Upstream>, upstreamId: int, status: string): seq<Upstream> {
    seq(|values|, i requires 0 <= i < |values| => UpdateOne(values[i], upstreamId, status))
  }

  function UpdateRepository(r: Repository, upstreamId: int, status: string): Repository {
    r.(upstreams := UpdateUpstreams(r.upstreams, upstreamId, status))
  }

  function UpdateHealth(repositories: seq<Repository>, upstreamId: int, status: string): seq<Repository> {
    seq(|repositories|, i requires 0 <= i < |repositories| => UpdateRepository(repositories[i], upstreamId, status))
  }

  /** The active snapshot: the repositories, and an index by host. */
  class Registry {
    const basePath: string
    var all: seq<Repository>
    var byHost: map<string, Repository>

    constructor (basePath: string)
      ensures this.basePath == basePath && all == [] && Valid()
    {
      this.basePath, all, byHost := basePath, [], map[];
    }

    /** The index is exactly what looking through the list gives. */
    ghost predicate Valid()
      reads this
    {
      IndexOf(byHost, all)
    }

    static ghost predicate IndexOf(byHost: map<string, Repository>, all: seq<Repository>) {
      forall host :: ByHost(all, host) == if host in byHost then Some(byHost[host]) else None
    }

    method Replace(all: seq<Repository>)
      modifies this
      ensures Valid() && this.all == all
    {
      var index: map<string, Repository> := map[];
      for i := 0 to |all|
        invariant IndexOf(index, all[..i])
      {
        assert all[..i + 1][..i] == all[..i];
        if all[i].publicMode == "host" && all[i].publicHost != "" {
          index := index[ToLower(all[i].publicHost) := all[i]];
        }
      }
      assert all[..|all|] == all;
      this.all, byHost := all, index;
    }

    method UpdateUpstreamHealth(upstreamId: int, status: string)
      requires Valid()
      modifies this
      ensures Valid() && all == UpdateHealth(old(all), upstreamId, status)
    {
      var current := all;
      var updated: seq<Repository> := [];
      var changed := false;
      for i := 0 to |current|
        invariant |updated| == i && forall k | 0 <= k < i ::
                  updated[k] == UpdateRepository(current[k], upstreamId, status)
        invariant !changed ==> forall k | 0 <= k < i :: updated[k] == current[k]
        invariant all == current && Valid()
      {
        var upstreams, touched := UpdateList(current[i].upstreams, upstreamId, status);
        updated := updated + [current[i].(upstreams := upstreams)];
        changed := changed || touched;
      }
      assert updated == UpdateHealth(current, upstreamId, status);
      if changed {
        Replace(updated);
      } else {
        assert updated == current;
      }
    }

    /** The three loops of `Route` find what the specification finds. */
    method RouteRequest(host: string, path: string) returns (routed: Routed)
      requires Valid()
      ensures routed == Route(all, basePath, host, path)
    {
      hide ByHost, Longest, TrimPrefix, Trim, ToLower;
      var name := ToLower(Trim(IsBracket, host));
      assert ByHost(all, name) == if name in byHost then Some(byHost[name]) else None;
      if name in byHost && byHost[name].enabled {
        return Found(byHost[name], OrRoot(path));
      }
      var selected := LongestMatch(path);
      if selected.None? && basePath != "" && IsPrefix(basePath + "/", path) {
        var sub := TrimPrefix(path, basePath);
        selected := LongestMatch(sub);
        if selected.Some? {
          return Found(selected.value, OrRoot(TrimPrefix(sub, Root(selected.value))));
        }
      }
      if selected.None? {
        return NotFound;
      }
      return Found(selected.value, OrRoot(TrimPrefix(path, Root(selected.value))));
    }

    method LongestMatch(path: string) returns (selected: Option<Repository>)
      ensures selected == Longest(all, path)
    {
      hide Serves, Root;
      selected := None;
      var selectedPrefix := "";
      for i := 0 to |all|
        invariant selected == Longest(all[..i], path)
        invariant selectedPrefix == if selected.Some? then Root(selected.value) else ""
      {
        assert all[..i + 1][..i] == all[..i];
        var root := Root(all[i]);
        if Serves(all[i], path) && |root| > |selectedPrefix| {
          selected, selectedPrefix := Some(all[i]), root;
        }
      }
      assert all[..|all|] == all;
    }
  }

  method UpdateList(values: seq<Upstream>, upstreamId: int, status: string)
      returns (updated: seq<Upstream>, touched: bool)
    ensures updated == UpdateUpstreams(values, upstreamId, status)
    ensures touched <==> exists i | 0 <= i < |values| :: values[i].id == upstreamId
  {
    updated, touched := values, false;
    for j := 0 to |values|
      invariant |updated| == |values|
      invariant forall k | 0 <= k < |values| ::
                updated[k] == if k < j then UpdateOne(values[k], upstreamId, status) else values[k]
      invariant touched <==> exists i | 0 <= i < j :: values[i].id == upstreamId
    {
      if updated[j].id == upstreamId {
        updated := updated[j := updated[j].(healthStatus := status)];
        touched := true;
      }
    }
    assert updated == UpdateUpstreams(values, upstreamId, status);
  }

  // ---------------------------------------------------------------- at most one match

  /** What normalisation makes of an accepted repository, as far as routing is concerned. */
  predicate Normal(r: Repository) {
    && r.slug != ""
    && if IsHostMode(r) then r.publicHost != "" && !HasSuffix(r.publicHost, ".") else NormalPath(PathOf(r))
  }

  predicate AllNormal(repositories: seq<Repository>) {
    forall i | 0 <= i < |repositories| :: Normal(repositories[i])
  }

  lemma PrefixesCompare(a: string, b: string, s: string)
    requires IsPrefix(a, s) && IsPrefix(b, s)
    ensures IsPrefix(a, b) || IsPrefix(b, a)
  {
  }

  lemma NormalDirectory(path: string)
    requires NormalPath(path)
    ensures Directory(path) == path && TrimSuffix(path, "/") + "/" == path && TrimSuffix(path, "/") != ""
  {
  }

  lemma ServedBelow(r: Repository, path: string)
    requires NormalPath(PathOf(r)) && Serves(r, path)
    ensures IsPrefix(PathOf(r), path + "/") && Directory(PathOf(r)) == PathOf(r)
  {
    NormalDirectory(PathOf(r));
  }

  /** No conflict, so no path is served by two repositories. */
  lemma OneServes(repositories: seq<Repository>, system: System, path: string, i: nat, j: nat)
    requires NoConflicts(repositories, system) && AllNormal(repositories)
    requires i < |repositories| && j < |repositories| && Serves(repositories[i], path) && Serves(repositories[j], path)
    ensures i == j
  {
    hide PathOf, Directory;
    ServedBelow(repositories[i], path);
    ServedBelow(repositories[j], path);
    PrefixesCompare(PathOf(repositories[i]), PathOf(repositories[j]), path + "/");
  }

  predicate Named(r: Repository, host: string) {
    IsHostMode(r) && r.publicHost != "" && ToLower(r.publicHost) == host
  }

  lemma OneNamed(repositories: seq<Repository>, system: System, host: string, i: nat, j: nat)
    requires NoConflicts(repositories, system) && AllNormal(repositories)
    requires i < |repositories| && j < |repositories| && Named(repositories[i], host) && Named(repositories[j], host)
    ensures i == j
  {
  }

  lemma {:induction false} LongestIsServing(repositories: seq<Repository>, path: string)
    ensures match Longest(repositories, path)
            case None => forall i | 0 <= i < |repositories| ::
                !Serves(repositories[i], path) || Root(repositories[i]) == ""
            case Some(m) => exists i | 0 <= i < |repositories| ::
                repositories[i] == m && Serves(m, path) && Root(m) != ""
  {
    hide Serves, Root;
    if repositories != [] {
      var n := |repositories| - 1;
      LongestIsServing(repositories[..n], path);
      var before := Longest(repositories[..n], path);
      if before.Some? {
        var i :| 0 <= i < n && repositories[..n][i] == before.value && Serves(before.value, path) &&
            Root(before.value) != "";
        assert repositories[i] == before.value;
      } else {
        assert forall i | 0 <= i < n :: repositories[..n][i] == repositories[i];
      }
      assert Longest(repositories, path) == before || Longest(repositories, path) == Some(repositories[n]);
    }
  }

  lemma {:induction false} ByHostIsNamed(repositories: seq<Repository>, host: string)
    ensures match ByHost(repositories, host)
            case None => forall i | 0 <= i < |repositories| :: !Named(repositories[i], host)
            case Some(m) => exists i | 0 <= i < |repositories| :: repositories[i] == m && Named(m, host)
  {
    if repositories != [] {
      var n := |repositories| - 1;
      ByHostIsNamed(repositories[..n], host);
      var before := ByHost(repositories[..n], host);
      if before.Some? {
        var i :| 0 <= i < n && repositories[..n][i] == before.value && Named(before.value, host);
        assert repositories[i] == before.value;
      } else {
        assert forall i | 0 <= i < n :: repositories[..n][i] == repositories[i];
      }
      assert Named(repositories[n], host) ==> ByHost(repositories, host) == Some(repositories[n]);
    }
  }

  /** The repository that serves a path is the one that is selected. */
  lemma ServingIsSelected(repositories: seq<Repository>, system: System, path: string, i: nat)
    requires NoConflicts(repositories, system) && AllNormal(repositories) && i < |repositories| &&
             Serves(repositories[i], path)
    ensures Longest(repositories, path) == Some(repositories[i])
  {
    hide Longest, NoConflicts, PathOf;
    LongestIsServing(repositories, path);
    NormalDirectory(PathOf(repositories[i]));
    var m := Longest(repositories, path);
    if m.Some? {
      var j :| 0 <= j < |repositories| && repositories[j] == m.value && Serves(m.value, path) && Root(m.value) != "";
      OneServes(repositories, system, path, i, j);
    }
  }

  lemma LongestPermuted(a: seq<Repository>, b: seq<Repository>, system: System, path: string)
    requires multiset(a) == multiset(b) && NoConflicts(a, system) && AllNormal(a)
    ensures Longest(a, path) == Longest(b, path)
  {
    hide Longest, NoConflicts, Serves, Normal;
    LongestIsServing(a, path);
    LongestIsServing(b, path);
    if Longest(a, path).Some? {
      assert Longest(a, path).value in multiset(b);
    }
    if Longest(b, path).Some? {
      var m := Longest(b, path).value;
      assert m in multiset(a);
      var j :| 0 <= j < |a| && a[j] == m;
      ServingIsSelected(a, system, path, j);
    }
  }

  lemma ByHostPermuted(a: seq<Repository>, b: seq<Repository>, system: System, host: string)
    requires multiset(a) == multiset(b) && NoConflicts(a, system) && AllNormal(a)
    ensures ByHost(a, host) == ByHost(b, host)
  {
    hide ByHost, NoConflicts, Named, Normal;
    ByHostIsNamed(a, host);
    ByHostIsNamed(b, host);
    if ByHost(a, host).Some? {
      assert ByHost(a, host).value in multiset(b);
    }
    if ByHost(b, host).Some? {
      var m := ByHost(b, host).value;
      assert m in multiset(a);
      var j :| 0 <= j < |a| && a[j] == m;
      if ByHost(a, host).Some? {
        var i :| 0 <= i < |a| && a[i] == ByHost(a, host).value && Named(a[i], host);
        OneNamed(a, system, host, i, j);
      }
    }
  }

  /** For a list the conflict check accepts, at most one repository can serve a request, so
      the order of the list does not matter. */
  lemma RouteOrderIsForgotten(a: seq<Repository>, b: seq<Repository>, system: System, basePath: string, host: string,
      path: string)
    requires multiset(a) == multiset(b) && NoConflicts(a, system) && AllNormal(a)
    ensures Route(a, basePath, host, path) == Route(b, basePath, host, path)
  {
    hide Longest, ByHost, NoConflicts, AllNormal, TrimPrefix, Trim, ToLower;
    ByHostPermuted(a, b, system, ToLower(Trim(IsBracket, host)));
    LongestPermuted(a, b, system, path);
    LongestPermuted(a, b, system, TrimPrefix(path, basePath));
  }

  // ---------------------------------------------------------------- health updates

  function UpdateRouted(routed: Routed, upstreamId: int, status: string): Routed {
    if routed.NotFound? then NotFound
    else routed.(repository := UpdateRepository(routed.repository, upstreamId, status))
  }

  lemma {:induction false} LongestUpdated(repositories: seq<Repository>, upstreamId: int, status: string, path: string)
    ensures Longest(UpdateHealth(repositories, upstreamId, status), path) ==
            if Longest(repositories, path).None? then None
            else Some(UpdateRepository(Longest(repositories, path).value, upstreamId, status))
  {
    hide UpdateUpstreams, TrimSuffix;
    if repositories != [] {
      var n := |repositories| - 1;
      LongestUpdated(repositories[..n], upstreamId, status, path);
      var updated := UpdateHealth(repositories, upstreamId, status);
      assert updated[..n] == UpdateHealth(repositories[..n], upstreamId, status);
    }
  }

  lemma {:induction false} ByHostUpdated(repositories: seq<Repository>, upstreamId: int, status: string, host: string)
    ensures ByHost(UpdateHealth(repositories, upstreamId, status), host) ==
            if ByHost(repositories, host).None? then None
            else Some(UpdateRepository(ByHost(repositories, host).value, upstreamId, status))
  {
    hide UpdateUpstreams, ToLower;
    if repositories != [] {
      var n := |repositories| - 1;
      ByHostUpdated(repositories[..n], upstreamId, status, host);
      var updated := UpdateHealth(repositories, upstreamId, status);
      assert updated[..n] == UpdateHealth(repositories[..n], upstreamId, status);
    }
  }

  /** A health update changes no route, only the health reported with it. */
  lemma HealthKeepsRoutes(repositories: seq<Repository>, upstreamId: int, status: string, basePath: string,
      host: string, path: string)
    ensures Route(UpdateHealth(repositories, upstreamId, status), basePath, host, path) ==
            UpdateRouted(Route(repositories, basePath, host, path), upstreamId, status)
  {
    hide Longest, ByHost, UpdateHealth, UpdateUpstreams, TrimPrefix, TrimSuffix, Trim, ToLower;
    ByHostUpdated(repositories, upstreamId, status, ToLower(Trim(IsBracket, host)));
    LongestUpdated(repositories, upstreamId, status, path);
    LongestUpdated(repositories, upstreamId, status, TrimPrefix(path, basePath));
  }
}
