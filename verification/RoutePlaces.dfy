/** Where repositories are found, told without the router: a conflict is a request that two
    places would answer. */
module RoutePlaces {
  import opened Text
  import opened Routes

  function PlaceOf(r: Repository): string {
    if r.publicPath == "" then "/" + r.slug + "/" else r.publicPath
  }

  /** The path is the place of the repository, without its last slash, and then `rest`. */
  predicate IsAt(r: Repository, path: string, rest: string) {
    && r.enabled && r.publicMode != "host" && PlaceOf(r) != ""
    && path == PlaceOf(r)[..|PlaceOf(r)| - 1] + rest && (rest == "" || rest[0] == '/')
  }

  /** The request's host names the repository. */
  predicate IsNamed(r: Repository, host: string) {
    && r.enabled && r.publicMode == "host" && r.publicHost != ""
    && ToLower(r.publicHost) == ToLower(Trim(IsBracket, host))
  }

  function Below(rest: string): string {
    if rest == "" then "/" else rest
  }

  lemma NormalPlace(r: Repository)
    requires Normal(r) && r.publicMode != "host"
    ensures var place := PlaceOf(r);
            && |place| >= 3 && place[|place| - 1] == '/' && Root(r) == place[..|place| - 1] && Root(r) + "/" == place
            && PathOf(r) == place && Directory(PathOf(r)) == place
  {
  }

  lemma ServesExactly(r: Repository, path: string)
    requires Normal(r)
    ensures Serves(r, path) <==> exists rest :: IsAt(r, path, rest)
    ensures forall rest | IsAt(r, path, rest) :: TrimPrefix(path, Root(r)) == rest
  {
    hide PathOf, Root;
    if r.publicMode != "host" {
      NormalPlace(r);
      var root := Root(r);
      if Serves(r, path) {
        var rest := path[|root|..];
        assert path == root + rest;
        assert path != root ==> path[|root|] == '/';
        assert IsAt(r, path, rest);
      }
      if rest :| IsAt(r, path, rest) {
        assert rest != "" ==> path[..|root| + 1] == root + "/";
      }
    }
  }

  ghost predicate Accepted(repositories: seq<Repository>, system: System) {
    NoConflicts(repositories, system) && AllNormal(repositories)
  }

  lemma AtIsSelected(repositories: seq<Repository>, system: System, i: nat, path: string, rest: string)
    requires Accepted(repositories, system) && i < |repositories| && IsAt(repositories[i], path, rest)
    ensures RouteByPath(repositories, path) == Found(repositories[i], Below(rest))
  {
    hide Longest, NoConflicts, Serves, Root, IsAt;
    ServesExactly(repositories[i], path);
    ServingIsSelected(repositories, system, path, i);
  }

  lemma NothingIsAt(repositories: seq<Repository>, path: string)
    requires AllNormal(repositories)
    ensures RouteByPath(repositories, path).NotFound? <==>
            forall i, rest | 0 <= i < |repositories| :: !IsAt(repositories[i], path, rest)
  {
    hide Longest, Serves, Normal, IsAt;
    LongestIsServing(repositories, path);
    forall i | 0 <= i < |repositories|
      ensures Serves(repositories[i], path) <==> exists rest :: IsAt(repositories[i], path, rest)
    {
      ServesExactly(repositories[i], path);
    }
    if Longest(repositories, path).None? {
      forall i | 0 <= i < |repositories| ensures !Serves(repositories[i], path) {
        RootIsVisible(repositories[i], path);
      }
    }
  }

  lemma RootIsVisible(r: Repository, path: string)
    requires Normal(r)
    ensures Serves(r, path) ==> Root(r) != ""
  {
    if r.publicMode != "host" { NormalPlace(r); }
  }

  lemma NamedExactly(repositories: seq<Repository>, system: System, host: string)
    requires Accepted(repositories, system)
    ensures var named := ByHost(repositories, ToLower(Trim(IsBracket, host)));
            named.Some? && named.value.enabled <==>
                exists i :: 0 <= i < |repositories| && IsNamed(repositories[i], host)
    ensures forall i | 0 <= i < |repositories| && IsNamed(repositories[i], host) ::
              ByHost(repositories, ToLower(Trim(IsBracket, host))) == Some(repositories[i])
  {
    hide ByHost, NoConflicts, Normal, ToLower, Trim;
    var key := ToLower(Trim(IsBracket, host));
    ByHostIsNamed(repositories, key);
    forall i | 0 <= i < |repositories| && IsNamed(repositories[i], host)
      ensures ByHost(repositories, key) == Some(repositories[i])
    {
      var j :| 0 <= j < |repositories| && repositories[j] == ByHost(repositories, key).value &&
          Named(repositories[j], key);
      OneNamed(repositories, system, key, i, j);
    }
  }

  /** Whatever the path, a request for its own host goes to that repository. */
  lemma HostsAreRouted(repositories: seq<Repository>, system: System, basePath: string, host: string, path: string,
      i: nat)
    requires Accepted(repositories, system) && i < |repositories| && IsNamed(repositories[i], host)
    ensures Route(repositories, basePath, host, path) == Found(repositories[i], Below(path))
  {
    hide ByHost, RouteByPath, ToLower, Trim, IsNamed, Accepted;
    NamedExactly(repositories, system, host);
    NamedIsEnabled(repositories[i], host);
  }

  lemma NamedIsEnabled(r: Repository, host: string)
    requires IsNamed(r, host)
    ensures r.enabled
  {
  }

  ghost predicate NobodyNamed(repositories: seq<Repository>, host: string) {
    forall i | 0 <= i < |repositories| :: !IsNamed(repositories[i], host)
  }

  /** A request for no repository's host goes to the repository its path is at, with the rest. */
  lemma PathsAreRouted(repositories: seq<Repository>, system: System, basePath: string, host: string, path: string,
      i: nat, rest: string)
    requires Accepted(repositories, system) && i < |repositories| && NobodyNamed(repositories, host)
    requires IsAt(repositories[i], path, rest)
    ensures Route(repositories, basePath, host, path) == Found(repositories[i], Below(rest))
  {
    hide ByHost, RouteByPath, ToLower, Trim, IsNamed, Accepted, IsAt;
    NamedExactly(repositories, system, host);
    AtIsSelected(repositories, system, i, path, rest);
  }

  /** Failing that, the same below the base path the gateway is mounted at. */
  lemma BasePathsAreRouted(repositories: seq<Repository>, system: System, basePath: string, host: string, below: string,
      i: nat, rest: string)
    requires Accepted(repositories, system) && i < |repositories| && NobodyNamed(repositories, host)
    requires basePath != "" && below != "" && below[0] == '/' && IsAt(repositories[i], below, rest)
    requires forall j, other | 0 <= j < |repositories| :: !IsAt(repositories[j], basePath + below, other)
    ensures Route(repositories, basePath, host, basePath + below) == Found(repositories[i], Below(rest))
  {
    hide ByHost, RouteByPath, ToLower, Trim, IsNamed, NoConflicts, IsAt;
    NamedExactly(repositories, system, host);
    NothingIsAt(repositories, basePath + below);
    AtIsSelected(repositories, system, i, below, rest);
    assert (basePath + below)[..|basePath| + 1] == basePath + "/";
  }

  /** Nothing is found exactly where no repository is named and none is at the path, nor below the
      base path. */
  lemma NothingIsRouted(repositories: seq<Repository>, system: System, basePath: string, host: string, path: string)
    requires Accepted(repositories, system)
    ensures Route(repositories, basePath, host, path).NotFound? <==>
            && NobodyNamed(repositories, host)
            && (forall i, rest | 0 <= i < |repositories| :: !IsAt(repositories[i], path, rest))
            && (basePath != "" && basePath + "/" <= path ==>
                  forall i, rest | 0 <= i < |repositories| :: !IsAt(repositories[i], path[|basePath|..], rest))
  {
    hide ByHost, RouteByPath, ToLower, Trim, IsNamed, NoConflicts, IsAt;
    NamedExactly(repositories, system, host);
    NothingIsAt(repositories, path);
    if basePath + "/" <= path {
      NothingIsAt(repositories, path[|basePath|..]);
    }
  }

  // ---------------------------------------------------------------- what a conflict is

  /** Two places conflict exactly when some request would be at both. */
  lemma OverlapExactly(a: Repository, b: Repository)
    requires Normal(a) && Normal(b) && a.enabled && b.enabled && a.publicMode != "host" && b.publicMode != "host"
    ensures RoutePathsOverlap(PathOf(a), PathOf(b)) <==>
            exists path, left, right :: IsAt(a, path, left) && IsAt(b, path, right)
  {
    hide Root, Normal, Directory, PathOf;
    NormalPlace(a);
    NormalPlace(b);
    if PlaceOf(b) <= PlaceOf(a) {
      Nested(a, b);
    }
    if PlaceOf(a) <= PlaceOf(b) {
      Nested(b, a);
    }
    if path, left, right :| IsAt(a, path, left) && IsAt(b, path, right) {
      AtIsBelow(a, path, left);
      AtIsBelow(b, path, right);
      PrefixesCompare(PlaceOf(a), PlaceOf(b), path + "/");
    }
  }

  lemma Nested(inner: Repository, outer: Repository)
    requires Normal(inner) && Normal(outer) && inner.enabled && outer.enabled
    requires inner.publicMode != "host" && outer.publicMode != "host" && PlaceOf(outer) <= PlaceOf(inner)
    ensures var path := PlaceOf(inner);
            IsAt(inner, path, "/") && IsAt(outer, path, path[|PlaceOf(outer)| - 1..])
  {
    NormalPlace(inner);
    NormalPlace(outer);
    assert PlaceOf(inner)[..|PlaceOf(outer)|] == PlaceOf(outer);
    assert PlaceOf(inner)[|PlaceOf(outer)| - 1] == '/';
  }

  lemma AtIsBelow(r: Repository, path: string, rest: string)
    requires Normal(r) && IsAt(r, path, rest)
    ensures PlaceOf(r) <= path + "/"
  {
    NormalPlace(r);
    var place := PlaceOf(r);
    assert (path + "/")[..|place| - 1] == place[..|place| - 1];
    assert (path + "/")[|place| - 1] == '/';
    assert (path + "/")[..|place|] == place;
  }

  /** And a place is reserved exactly when it meets one of the gateway's own, or the
      administration's. */
  lemma ReservedExactly(r: Repository, system: System)
    requires Normal(r) && r.publicMode != "host"
    ensures PlacedApart(r, system) <==>
            && !Meets(PlaceOf(r), "/healthz/") && !Meets(PlaceOf(r), "/metrics/")
            && !Meets(PlaceOf(r), "/_mirror_auth/") && !Meets(PlaceOf(r), "/_mirrorrelay/")
            && (system.adminPath != "" ==> !Meets(PlaceOf(r), TrimSuffix(system.adminPath, "/") + "/"))
  {
    hide Normal, Directory, RoutePathsOverlap, Meets;
    NormalPlace(r);
    SystemDirectories();
    ReservedMembers(system);
    forall path | path in system.Reserved()
      ensures RoutePathsOverlap(PathOf(r), path) <==> Meets(PlaceOf(r), Directory(path))
    {
      OverlapMeets(r, path);
    }
    DirectoryIs(system.adminPath);
  }

  lemma DirectoryIs(path: string)
    ensures Directory(path) == TrimSuffix(path, "/") + "/"
  {
  }

  lemma OverlapMeets(r: Repository, path: string)
    requires Normal(r) && r.publicMode != "host"
    ensures RoutePathsOverlap(PathOf(r), path) <==> Meets(PlaceOf(r), Directory(path))
  {
    NormalPlace(r);
  }

  lemma ReservedMembers(system: System)
    ensures HEALTH in system.Reserved() && METRICS in system.Reserved() && TOKEN in system.Reserved()
    ensures AUXILIARY in system.Reserved() && (system.adminPath != "" ==> system.adminPath in system.Reserved())
    ensures forall path | path in system.Reserved() ::
              path in {HEALTH, METRICS, TOKEN, AUXILIARY} || (system.adminPath != "" && path == system.adminPath)
  {
    var reserved := system.Reserved();
    assert reserved[0] == HEALTH && reserved[1] == METRICS && reserved[2] == TOKEN && reserved[3] == AUXILIARY;
    assert system.adminPath != "" ==> reserved[4] == system.adminPath;
  }

  predicate Meets(a: string, b: string) {
    a <= b || b <= a
  }

  lemma SystemDirectories()
    ensures Directory(HEALTH) == "/healthz/" && Directory(METRICS) == "/metrics/"
    ensures Directory(TOKEN) == "/_mirror_auth/" && Directory(AUXILIARY) == "/_mirrorrelay/"
  {
  }

  /** Two hosts conflict exactly when they are the same in lower case. */
  lemma HostsOverlapExactly(a: Repository, b: Repository)
    requires Normal(a) && Normal(b) && a.publicMode == "host" && b.publicMode == "host"
    ensures Apart(a, b) <==> ToLower(a.publicHost) != ToLower(b.publicHost)
  {
    hide ToLower;
    NoFinalDot(a.publicHost);
    NoFinalDot(b.publicHost);
  }

  /** And a host is reserved exactly when it is the shared one or the administration's. */
  lemma ReservedHostsExactly(r: Repository, system: System)
    requires Normal(r) && r.publicMode == "host"
    ensures PlacedApart(r, system) <==>
            && ToLower(r.publicHost) != ToLower(TrimSuffix(system.sharedHost, "."))
            && ToLower(r.publicHost) != ToLower(TrimSuffix(system.adminHost, "."))
  {
    NoFinalDot(r.publicHost);
    assert |ToLower(r.publicHost)| == |r.publicHost|;
  }

  lemma NoFinalDot(host: string)
    requires host != "" && !HasSuffix(host, ".")
    ensures HostKey(host) == ToLower(host) && ToLower(host) != ""
  {
    assert |ToLower(host)| == |host|;
  }
}
