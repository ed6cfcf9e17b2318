/** Links in rewritten directory pages: how a link is mapped into a repository's public
    place, and that following it leads back to the URL it replaced. */
module Links {
  import opened Text
  import opened Redirects
  import opened Upstreams
  import opened Routes

  // ---------------------------------------------------------------- paths

  function EnsureLeadingSlash(value: string): string {
    if value == "" then "/" else if value[0] == '/' then value else "/" + value
  }

  function JoinPath(base: string, relative: string): string {
    TrimRight(IsSlash, base) + "/" + TrimLeft(IsSlash, relative)
  }

  /** `None` is the error for a request outside the prefix. */
  function ApplyStripPrefix(relative: string, prefix: string): Option<string> {
    if prefix == "" || prefix == "/" then Some(EnsureLeadingSlash(relative))
    else
      var prefix := "/" + Trim(IsSlash, prefix);
      if relative == prefix then Some("/")
      else if !IsPrefix(prefix + "/", relative) then None
      else Some(TrimPrefix(relative, prefix))
  }

  predicate UnsafePath(value: string) {
    || (exists c | c in value :: c in "\0\r\n\\")
    || (exists segment | segment in Split(value, '/') :: segment == "." || segment == "..")
  }

  // ---------------------------------------------------------------- upstream URLs

  /** The upstream's URL under the authority that requests are made for. */
  function LogicalBase(r: Repository, u: Upstream): Url {
    var authority := if r.hostRewrite.Some? then r.hostRewrite else u.authority;
    if authority.Some? then u.url.(host := authority.value.host, port := authority.value.port) else u.url
  }

  function PrefixedPath(r: Repository, path: string): string {
    if r.addPrefix == "" then path else JoinPath(path, r.addPrefix)
  }

  function RepositoryUrl(r: Repository, u: Upstream, relative: string, query: string): Url {
    var base := LogicalBase(r, u);
    base.(path := JoinPath(PrefixedPath(r, base.path), relative), query := query)
  }

  /** The directory a repository's pages are below; `None` for an unusable upstream URL. */
  function EffectiveBase(r: Repository, u: Upstream): Option<Url> {
    if u.url.scheme == "" || u.url.host == "" then None
    else
      var base := LogicalBase(r, u);
      Some(base.(path := TrimRight(IsSlash, PrefixedPath(r, base.path)) + "/", query := ""))
  }

  // ---------------------------------------------------------------- mapping a link

  function PathWithinBase(basePath: string, targetPath: string): Option<string> {
    var basePath := if basePath == "" then "/" else basePath;
    var targetPath := if targetPath == "" then "/" else targetPath;
    var root := TrimSuffix(basePath, "/");
    if targetPath == root || targetPath == basePath then Some("/")
    else if !IsPrefix(root + "/", targetPath) then None
    else Some(EnsureLeadingSlash(TrimPrefix(targetPath, root + "/")))
  }

  function PublicPrefix(r: Repository): string {
    var prefix := if IsHostMode(r) then "/" else PathOf(r);
    var stripped := Trim(IsSlash, r.stripPrefix);
    if stripped == "" then prefix else TrimRight(IsSlash, prefix) + "/" + stripped + "/"
  }

  function PublicResourcePath(r: Repository, relative: string): string {
    var root := TrimRight(IsSlash, PublicPrefix(r));
    if relative == "" || relative == "/" then (if root == "" then "/" else root + "/")
    else root + EnsureLeadingSlash(relative)
  }

  datatype Link = Unmapped | Outside | Inside(path: string, query: string)

  /** `mapBrowsableURL`; `Outside` are the links that get a signed address elsewhere. */
  function MapLink(r: Repository, base: Url, target: Url, encodedSeparator: Url -> bool): Link {
    if r.id <= 0 || !SameOrigin(Some(base), Some(target)) || encodedSeparator(target) then Unmapped
    else
      match PathWithinBase(base.path, target.path)
      case None => Outside
      case Some(relative) => Inside(PublicResourcePath(r, relative), target.query)
  }

  // ---------------------------------------------------------------- following a link

  const AUXILIARY_UPSTREAM := "/_mirrorrelay/upstream/"

  predicate IsDigit(c: char) {
    '0' <= c <= '9'
  }

  function DecimalValue(s: string): int
    requires forall i | 0 <= i < |s| :: IsDigit(s[i])
  {
    if s == "" then 0 else 10 * DecimalValue(s[..|s| - 1]) + (s[|s| - 1] as int - '0' as int)
  }

  /** A positive 64-bit number in decimal, with an optional plus sign. */
  predicate IsPositiveId(s: string) {
    var digits := TrimPrefix(s, "+");
    && digits != "" && (forall i | 0 <= i < |digits| :: IsDigit(digits[i]))
    && 0 < DecimalValue(digits) < 0x8000_0000_0000_0000
  }

  predicate IsTokenRoute(value: string) {
    IsPositiveId(Split(TrimPrefix(value, TOKEN), '/')[0])
  }

  predicate IsSystemRoute(path: string) {
    IsPrefix(AUXILIARY_UPSTREAM, path) || IsTokenRoute(path)
  }

  /** The path that is looked at for the system's own routes. */
  function RequestPath(basePath: string, path: string): string {
    if basePath != "" && IsPrefix(basePath + "/", path) && IsSystemRoute(TrimPrefix(path, basePath)) then
      TrimPrefix(path, basePath)
    else path
  }

  datatype Resolved = SystemRoute | Rejected(status: int) | Adapter | Direct(repository: Repository, relative: string)

  predicate IsAdapterPath(relative: string) {
    IsPrefix("/__fetch/", relative) || IsPrefix("/__fetch_template/", relative)
  }

  function Resolve(repositories: seq<Repository>, basePath: string, host: string, path: string): Resolved {
    if IsSystemRoute(RequestPath(basePath, path)) then SystemRoute
    else
      match Route(repositories, basePath, host, path)
      case NotFound => Rejected(404)
      case Found(r, relative) =>
        match ApplyStripPrefix(relative, r.stripPrefix)
        case None => Rejected(404)
        case Some(relative) =>
          if UnsafePath(relative) then Rejected(400)
          else if IsAdapterPath(relative) then Adapter
          else Direct(r, relative)
  }

  /** The same as statements, over the registry. */
  method ResolveRequestRoute(registry: Registry, host: string, path: string) returns (resolved: Resolved)
    requires registry.Valid()
    ensures resolved == Resolve(registry.all, registry.basePath, host, path)
  {
    hide Route, IsTokenRoute, UnsafePath, ApplyStripPrefix;
    var reqPath := path;
    var bp := registry.basePath;
    if bp != "" && IsPrefix(bp + "/", reqPath) {
      var trimmedReqPath := TrimPrefix(reqPath, bp);
      if IsPrefix(AUXILIARY_UPSTREAM, trimmedReqPath) || IsTokenRoute(trimmedReqPath) {
        reqPath := trimmedReqPath;
      }
    }
    if IsPrefix(AUXILIARY_UPSTREAM, reqPath) || IsTokenRoute(reqPath) {
      return SystemRoute;
    }
    var routed := registry.RouteRequest(host, path);
    if routed.NotFound? {
      return Rejected(404);
    }
    var relative := ApplyStripPrefix(routed.relative, routed.repository.stripPrefix);
    if relative.None? {
      return Rejected(404);
    }
    if UnsafePath(relative.value) {
      return Rejected(400);
    }
    if IsAdapterPath(relative.value) {
      return Adapter;
    }
    return Direct(routed.repository, relative.value);
  }

  /** Following a link from a page of upstream `u`: the upstream URL that is requested. */
  function Followed(repositories: seq<Repository>, basePath: string, host: string, path: string, query: string,
      u: Upstream): Option<Url> {
    match Resolve(repositories, basePath, host, path)
    case Direct(r, relative) => Some(RepositoryUrl(r, u, relative, query))
    case _ => None
  }

  // ---------------------------------------------------------------- where a link points

  /** What follows the public place of the repository in a mapped link. */
  function StripPart(r: Repository): string {
    var stripped := Trim(IsSlash, r.stripPrefix);
    if stripped == "" then "" else "/" + stripped
  }

  function Place(r: Repository): string {
    if IsHostMode(r) then "" else Root(r)
  }

  lemma {:induction false} TrimRightSlash(s: string)
    requires s == "" || s[|s| - 1] != '/'
    ensures TrimRight(IsSlash, s) == s && TrimRight(IsSlash, s + "/") == s
  {
    assert (s + "/")[..|s + "/"| - 1] == s;
  }

  /** Without its last slash, the public prefix is the place. */
  lemma PlaceOfPrefix(r: Repository)
    requires Normal(r)
    ensures TrimRight(IsSlash, if IsHostMode(r) then "/" else PathOf(r)) == Place(r)
    ensures Place(r) == "" || Place(r)[|Place(r)| - 1] != '/'
  {
    hide PathOf;
    if IsHostMode(r) {
      TrimRightSlash("");
      assert "" + "/" == "/";
    } else {
      NormalDirectory(PathOf(r));
      assert Root(r)[|Root(r)| - 1] == PathOf(r)[|Root(r)| - 1];
      TrimRightSlash(Root(r));
    }
  }

  lemma RootOfLinks(r: Repository)
    requires Normal(r)
    ensures TrimRight(IsSlash, PublicPrefix(r)) == Place(r) + StripPart(r)
  {
    hide Trim, TrimRight, Place, Normal, PathOf;
    var stripped := Trim(IsSlash, r.stripPrefix);
    TrimTrimmed(IsSlash, r.stripPrefix);
    PlaceOfPrefix(r);
    if stripped == "" {
      assert Place(r) + "" == Place(r);
    } else {
      var root := Place(r) + ("/" + stripped);
      assert root[|root| - 1] == stripped[|stripped| - 1];
      TrimRightSlash(root);
      assert Place(r) + "/" + stripped + "/" == root + "/";
    }
  }

  /** The link is the public place, the prefix that is stripped again, and the path below
      the base. */
  lemma LinkPath(r: Repository, relative: string)
    requires Normal(r) && relative != "" && relative[0] == '/'
    ensures PublicResourcePath(r, relative) == Place(r) + StripPart(r) + relative
  {
    hide Normal, Place, StripPart, TrimRight, PublicPrefix;
    RootOfLinks(r);
  }

  /** A strip prefix of two or more slashes and nothing else. */
  predicate IsSlashRun(prefix: string) {
    |prefix| >= 2 && Trim(IsSlash, prefix) == ""
  }

  lemma PrefixOfSum(a: string, b: string)
    ensures IsPrefix(a, a + b) && TrimPrefix(a + b, a) == b
  {
  }

  /** Stripping the prefix gives the path below the base back, unless the prefix is a run of
      slashes. */
  lemma StripsBack(r: Repository, relative: string)
    requires relative != "" && relative[0] == '/'
    ensures !IsSlashRun(r.stripPrefix) ==> ApplyStripPrefix(StripPart(r) + relative, r.stripPrefix) == Some(relative)
    ensures IsSlashRun(r.stripPrefix) && (|relative| == 1 || relative[1] != '/') ==>
              ApplyStripPrefix(StripPart(r) + relative, r.stripPrefix) == if relative == "/" then Some("/") else None
    ensures IsSlashRun(r.stripPrefix) && |relative| > 1 && relative[1] == '/' ==>
              ApplyStripPrefix(StripPart(r) + relative, r.stripPrefix) == Some(relative[1..])
  {
    hide Trim;
    SingleCharacter(r.stripPrefix);
    var stripped := Trim(IsSlash, r.stripPrefix);
    if stripped == "" {
      assert StripPart(r) + relative == relative;
      assert relative == "/" <==> |relative| == 1;
    } else {
      PrefixOfSum("/" + stripped, relative);
      assert ("/" + stripped + relative)[..|stripped| + 2] == "/" + stripped + "/";
    }
  }

  lemma SingleCharacter(prefix: string)
    ensures |prefix| == 1 && Trim(IsSlash, prefix) == "" ==> prefix == "/"
    ensures (prefix == "" || prefix == "/") ==> Trim(IsSlash, prefix) == ""
  {
    TrimTrimmed(IsSlash, prefix);
    if |prefix| == 1 && prefix[0] != '/' {
      assert Trimmed(IsSlash, prefix);
    }
    if prefix == "/" {
      assert prefix[1..] == "";
    }
  }

  /** The part of the target below the base, if it is below. */
  predicate Below(base: Url, target: Url) {
    IsPrefix(base.path, target.path)
  }

  function Rest(base: Url, target: Url): string
    requires Below(base, target)
  {
    target.path[|base.path|..]
  }

  lemma TrimLeftKeeps(s: string)
    ensures TrimLeft(IsSlash, s) == s <==> !IsPrefix("/", s)
    ensures TrimLeft(IsSlash, "/" + s) == TrimLeft(IsSlash, s)
  {
    assert ("/" + s)[1..] == s;
    if s != "" && s[0] == '/' {
      assert |TrimLeft(IsSlash, s[1..])| <= |s| - 1;
    }
  }

  /** Joining the path within the base to the base again gives the target's path exactly
      when the target is below the base and does not go on with another slash. */
  lemma JoinsBackExactly(root: string, target: string)
    requires root == "" || root[|root| - 1] != '/'
    requires PathWithinBase(root + "/", target).Some?
    ensures var relative := PathWithinBase(root + "/", target).value;
            && relative != "" && relative[0] == '/'
            && (root + "/" + TrimLeft(IsSlash, relative) == target <==>
                IsPrefix(root + "/", target) && !IsPrefix("/", target[|root| + 1..]))
            && (IsPrefix(root + "/", target) && !IsPrefix("/", target[|root| + 1..]) ==>
               relative == "/" + target[|root| + 1..])
  {
    var base := root + "/";
    assert TrimSuffix(base, "/") == root;
    if IsPrefix(base, target) {
      var rest := target[|base|..];
      assert target == base + rest;
      TrimLeftKeeps(rest);
      TrimLeftKeeps("");
      if rest == "" {
        assert base + "" == base;
      }
    } else {
      TrimLeftKeeps("");
      assert "/" + "" == "/";
    }
  }

  // ---------------------------------------------------------------- links lead back

  /** The request's host selects repository `r`, or no repository if `r` is found by path. */
  predicate Addresses(repositories: seq<Repository>, host: string, r: Repository) {
    var named := ByHost(repositories, ToLower(Trim(IsBracket, host)));
    if IsHostMode(r) then named == Some(r) else named.None? || !named.value.enabled
  }

  /** Routing a mapped link finds the repository and the rest of the link. */
  lemma LinkIsRouted(repositories: seq<Repository>, system: System, basePath: string, host: string, i: nat,
      relative: string)
    requires NoConflicts(repositories, system) && AllNormal(repositories) && i < |repositories| &&
             repositories[i].enabled
    requires Addresses(repositories, host, repositories[i]) && relative != "" && relative[0] == '/'
    ensures Route(repositories, basePath, host, PublicResourcePath(repositories[i], relative)) ==
            Found(repositories[i], StripPart(repositories[i]) + relative)
  {
    hide NoConflicts, AllNormal, Normal, ByHost, Longest, ToLower, Trim, Root, PathOf, StripPart, PublicResourcePath;
    var r := repositories[i];
    NormalAt(repositories, i);
    LinkPath(r, relative);
    var below := StripPart(r) + relative;
    StripPartStarts(r, relative);
    var path := Place(r) + StripPart(r) + relative;
    assert path == Place(r) + below;
    if IsHostMode(r) {
      assert path == below;
    } else {
      PlaceServes(r, below);
      ServingIsSelected(repositories, system, path, i);
      PrefixOfSum(Root(r), below);
    }
  }

  lemma NormalAt(repositories: seq<Repository>, i: nat)
    requires AllNormal(repositories) && i < |repositories|
    ensures Normal(repositories[i])
  {
  }

  lemma StripPartStarts(r: Repository, relative: string)
    requires relative != "" && relative[0] == '/'
    ensures StripPart(r) + relative != "" && (StripPart(r) + relative)[0] == '/'
  {
  }

  lemma PlaceServes(r: Repository, below: string)
    requires Normal(r) && r.enabled && !IsHostMode(r) && below != "" && below[0] == '/'
    ensures Serves(r, Root(r) + below)
  {
    NormalDirectory(PathOf(r));
    assert (Root(r) + below)[..|Root(r)| + 1] == Root(r) + "/";
  }

  lemma NotTokenId(path: string)
    requires path != "" && path[0] == '/' && !IsPrefix(TOKEN, path)
    ensures !IsTokenRoute(path)
  {
    assert path == "" + "/" + path[1..];
    SplitAppend("", '/', path[1..]);
  }

  /** The conflict check keeps the links of path-mode repositories off the system's own
      routes; only a base path can bring such a route into a link. */
  lemma PathLinksAvoidSystemRoutes(repositories: seq<Repository>, system: System, basePath: string, i: nat,
      relative: string)
    requires NoConflicts(repositories, system) && AllNormal(repositories) && i < |repositories| &&
             !IsHostMode(repositories[i])
    requires relative != "" && relative[0] == '/'
    ensures var link := PublicResourcePath(repositories[i], relative);
            !IsSystemRoute(link) && (basePath == "" || !IsPrefix(basePath + "/", link) ==>
                !IsSystemRoute(RequestPath(basePath, link)))
  {
    hide NormalPath, PublicResourcePath, IsTokenRoute, StripPart, Root, PathOf, Directory;
    var r := repositories[i];
    NormalAt(repositories, i);
    LinkPath(r, relative);
    StripPartStarts(r, relative);
    var link := PublicResourcePath(r, relative);
    assert link == Root(r) + (StripPart(r) + relative);
    StartsAtPath(r, StripPart(r) + relative);
    ReservedPlaces(r, system);
    if IsPrefix(TOKEN, link) {
      PrefixesCompare(PathOf(r), TOKEN, link);
    }
    if IsPrefix(AUXILIARY, link) {
      PrefixesCompare(PathOf(r), AUXILIARY, link);
    }
    assert AUXILIARY_UPSTREAM[..|AUXILIARY|] == AUXILIARY;
    NotTokenId(link);
  }

  lemma StartsAtPath(r: Repository, below: string)
    requires Normal(r) && !IsHostMode(r) && below != "" && below[0] == '/'
    ensures IsPrefix(PathOf(r), Root(r) + below) && (Root(r) + below)[0] == '/'
  {
    NormalDirectory(PathOf(r));
    assert (Root(r) + below)[..|Root(r)| + 1] == Root(r) + "/";
  }

  lemma ReservedPlaces(r: Repository, system: System)
    requires PlacedApart(r, system) && !IsHostMode(r) && Normal(r)
    ensures !IsPrefix(PathOf(r), TOKEN) && !IsPrefix(TOKEN, PathOf(r))
    ensures !IsPrefix(PathOf(r), AUXILIARY) && !IsPrefix(AUXILIARY, PathOf(r))
  {
    NormalDirectory(PathOf(r));
    NormalDirectory(TOKEN);
    NormalDirectory(AUXILIARY);
    assert TOKEN in system.Reserved() && AUXILIARY in system.Reserved();
    assert !RoutePathsOverlap(PathOf(r), TOKEN) && !RoutePathsOverlap(PathOf(r), AUXILIARY);
  }

  /** A target whose link leads back: below the base without a doubled slash, not unsafe, not
      an adapter address, and not mistaken for one of the system's own routes. */
  predicate IsFaithful(r: Repository, basePath: string, base: Url, target: Url) {
    && Below(base, target)
    && !IsPrefix("/", Rest(base, target))
    && !UnsafePath("/" + Rest(base, target))
    && !IsAdapterPath("/" + Rest(base, target))
    && (IsSlashRun(r.stripPrefix) ==> Rest(base, target) == "")
    && !IsSystemRoute(RequestPath(basePath, PublicResourcePath(r, "/" + Rest(base, target))))
  }

  /** The URL that is requested for the link is the target: same origin, path and query. */
  predicate LeadsBack(url: Option<Url>, target: Url) {
    url.Some? && OriginOf(url.value) == OriginOf(target) && url.value.path == target.path &&
        url.value.query == target.query
  }

  lemma RootEnds(path: string)
    ensures TrimRight(IsSlash, path) == "" || TrimRight(IsSlash, path)[|TrimRight(IsSlash, path)| - 1] != '/'
  {
    TrimRightSpec(IsSlash, path);
  }

  lemma UrlOrigin(r: Repository, u: Upstream, relative: string, query: string)
    requires EffectiveBase(r, u).Some?
    ensures OriginOf(RepositoryUrl(r, u, relative, query)) == OriginOf(EffectiveBase(r, u).value)
  {
    hide JoinPath, PrefixedPath;
  }

  /** Rewriting preserves meaning: for an accepted list of repositories, a link inside the
      repository, mapped and then sent back through the router, requests the URL that it
      replaced, exactly when the target is faithful. */
  lemma LinkLeadsBackExactly(repositories: seq<Repository>, system: System, basePath: string, host: string, i: nat,
      u: Upstream, target: Url, encodedSeparator: Url -> bool)
    requires NoConflicts(repositories, system) && AllNormal(repositories) && i < |repositories| &&
             repositories[i].enabled
    requires Addresses(repositories, host, repositories[i])
    requires EffectiveBase(repositories[i], u).Some?
    requires MapLink(repositories[i], EffectiveBase(repositories[i], u).value, target, encodedSeparator).Inside?
    ensures var r, base := repositories[i], EffectiveBase(repositories[i], u).value;
            var link := MapLink(r, base, target, encodedSeparator);
            LeadsBack(Followed(repositories, basePath, host, link.path, link.query, u), target) <==>
                IsFaithful(r, basePath, base, target)
  {
    hide NoConflicts, AllNormal, Addresses, Route, PublicResourcePath, UnsafePath, IsAdapterPath, IsSystemRoute,
      RequestPath, ApplyStripPrefix, OriginOf, IsSlashRun, TrimLeft, TrimRight, LogicalBase, PrefixedPath, SameOrigin,
      PathWithinBase, StripPart;
    var r, base := repositories[i], EffectiveBase(repositories[i], u).value;
    var root := TrimRight(IsSlash, PrefixedPath(r, LogicalBase(r, u).path));
    RootEnds(PrefixedPath(r, LogicalBase(r, u).path));
    JoinsBackExactly(root, target.path);
    var relative := PathWithinBase(base.path, target.path).value;
    LinkIsRouted(repositories, system, basePath, host, i, relative);
    StripsBack(r, relative);
    SameOriginExactly(base, target);
    var below := ApplyStripPrefix(StripPart(r) + relative, r.stripPrefix);
    if below.Some? {
      UrlOrigin(r, u, below.value, target.query);
      if below.value != relative {
        TrimLeftKeeps(below.value);
        assert relative == "/" + below.value;
      }
    }
  }

  /** The condition is needed: of a link with a doubled slash below the base one slash is lost. */
  lemma DoubledSlashIsLost(u: Upstream)
    requires u.url == Url("https", "deb.example", "", "/", "") && u.authority == None
    ensures var r := Repository(1, "deb", true, "path", "", "/deb/", "", "", None, [u]);
            var target := Url("https", "deb.example", "", "//x", "");
            && NoConflicts([r], System("", "", "")) && AllNormal([r]) && Addresses([r], "mirror", r)
            && EffectiveBase(r, u).Some?
            && var link := MapLink(r, EffectiveBase(r, u).value, target, _ => false);
               link.Inside? && !LeadsBack(Followed([r], "", "mirror", link.path, link.query, u), target)
  {
    hide NoConflicts, AllNormal, Addresses, EffectiveBase, MapLink, IsFaithful, Followed, LeadsBack;
    var r := Repository(1, "deb", true, "path", "", "/deb/", "", "", None, [u]);
    var target := Url("https", "deb.example", "", "//x", "");
    DebIsApart(r);
    DebIsAddressed(r);
    BaseOfRoot(r, u);
    DoubledSlashIsMapped(r, u.url, target);
    LinkLeadsBackExactly([r], System("", "", ""), "", "mirror", 0, u, target, _ => false);
  }

  lemma BaseOfRoot(r: Repository, u: Upstream)
    requires r.addPrefix == "" && r.hostRewrite == None
    requires u.url == Url("https", "deb.example", "", "/", "") && u.authority == None
    ensures EffectiveBase(r, u) == Some(u.url)
  {
    TrimRightSlash("");
    assert "" + "/" == "/";
  }

  lemma DoubledSlashIsMapped(r: Repository, base: Url, target: Url)
    requires r.id > 0 && base == Url("https", "deb.example", "", "/", "") && target == base.(path := "//x")
    ensures MapLink(r, base, target, _ => false).Inside? && !IsFaithful(r, "", base, target)
  {
    hide UnsafePath, IsSystemRoute, IsAdapterPath, PublicResourcePath;
    assert TrimPrefix("//x", "/") == "/x";
  }

  lemma DebIsAddressed(r: Repository)
    requires r.slug == "deb" && r.publicPath == "/deb/" && r.publicMode == "path"
    ensures AllNormal([r]) && Addresses([r], "mirror", r)
  {
    hide Trim, ToLower;
    assert "path"[0] != "host"[0];
    assert [r][..0] == [] && ByHost([r], ToLower(Trim(IsBracket, "mirror"))) == None;
  }

  lemma DebIsApart(r: Repository)
    requires r.publicPath == "/deb/" && r.publicMode == "path"
    ensures NoConflicts([r], System("", "", ""))
  {
    assert "path"[0] != "host"[0];
    assert Directory("/deb/") == "/deb/";
    assert HEALTH[1] == 'h' && METRICS[1] == 'm' && TOKEN[1] == '_' && AUXILIARY[1] == '_' && "/deb/"[1] == 'd';
  }

  // ---------------------------------------------------------------- what is let through

  /** `segment` stands in the path between slashes, or between a slash and an end. */
  predicate Divides(path: string, before: string, segment: string, after: string) {
    && path == before + (segment + after) && '/' !in segment
    && (before == "" || before[|before| - 1] == '/') && (after == "" || after[0] == '/')
  }

  ghost predicate HasSegment(path: string, segment: string) {
    exists before, after :: Divides(path, before, segment, after)
  }

  lemma {:induction false} FirstSlash(path: string, k: nat)
    requires k < |path| && path[k] == '/'
    ensures '/' in path && IndexOf(path, '/') <= k
  {
    if path[0] != '/' {
      FirstSlash(path[1..], k - 1);
    }
  }

  lemma {:induction false} SegmentsStand(path: string, segment: string)
    ensures segment in Split(path, '/') <==> HasSegment(path, segment)
    decreases |path|
  {
    hide HasSegment;
    if '/' in path {
      SegmentsStand(path[IndexOf(path, '/') + 1..], segment);
      SegmentsUnfold(path, segment);
    } else {
      OneSegment(path, segment);
    }
  }

  lemma SegmentsUnfold(path: string, segment: string)
    requires '/' in path
    ensures var n := IndexOf(path, '/');
            HasSegment(path, segment) <==> segment == path[..n] || HasSegment(path[n + 1..], segment)
  {
    hide HasSegment, IndexOf;
    var n := IndexOf(path, '/');
    FirstHolds(path, n);
    if HasSegment(path[n + 1..], segment) {
      RestHolds(path, n, segment);
    }
    if HasSegment(path, segment) {
      SplitsAtFirst(path, segment);
    }
  }

  lemma FirstHolds(path: string, n: nat)
    requires n < |path| && path[n] == '/' && '/' !in path[..n]
    ensures HasSegment(path, path[..n])
  {
    FirstSegment(path, n);
  }

  lemma RestHolds(path: string, n: nat, segment: string)
    requires n < |path| && path[n] == '/' && HasSegment(path[n + 1..], segment)
    ensures HasSegment(path, segment)
  {
    hide Divides;
    var rest := path[n + 1..];
    var before, after :| Divides(rest, before, segment, after);
    LaterSegment(path, n, before, segment, after);
  }

  lemma SplitsAtFirst(path: string, segment: string)
    requires '/' in path && HasSegment(path, segment)
    ensures var n := IndexOf(path, '/'); segment == path[..n] || HasSegment(path[n + 1..], segment)
  {
    hide IndexOf, Divides;
    var before, after :| Divides(path, before, segment, after);
    if before == "" {
      FirstIs(path, segment, after);
    } else {
      SegmentAfter(path, IndexOf(path, '/'), before, segment, after);
    }
  }

  lemma SlashBeside(path: string, before: string, segment: string, after: string)
    requires Divides(path, before, segment, after) && (before != "" || after != "")
    ensures '/' in path
  {
    assert before != "" ==> path[|before| - 1] == '/';
    assert after != "" ==> path[|before| + |segment|] == '/';
  }

  lemma OneSegment(path: string, segment: string)
    requires '/' !in path
    ensures HasSegment(path, segment) <==> segment == path
  {
    if segment == path {
      assert "" + (path + "") == path;
      assert Divides(path, "", path, "");
    }
    if before, after :| Divides(path, before, segment, after) {
      if before != "" || after != "" { SlashBeside(path, before, segment, after); }
    }
  }

  lemma FirstSegment(path: string, n: nat)
    requires n < |path| && path[n] == '/' && '/' !in path[..n]
    ensures Divides(path, "", path[..n], path[n..])
  {
  }

  lemma LaterSegment(path: string, n: nat, before: string, segment: string, after: string)
    requires n < |path| && path[n] == '/' && Divides(path[n + 1..], before, segment, after)
    ensures Divides(path, path[..n + 1] + before, segment, after)
  {
    assert path == path[..n + 1] + path[n + 1..];
    assert path[..n + 1] + before + (segment + after) == path[..n + 1] + (before + (segment + after));
  }

  lemma FirstIs(path: string, segment: string, after: string)
    requires Divides(path, "", segment, after) && '/' in path
    ensures path[..IndexOf(path, '/')] == segment
  {
    hide IndexOf;
    assert path[..|segment|] == segment;
    FirstSlash(path, |segment|);
    assert forall k | 0 <= k < |segment| :: path[k] == segment[k];
  }

  lemma SegmentAfter(path: string, n: nat, before: string, segment: string, after: string)
    requires '/' in path && n == IndexOf(path, '/') && Divides(path, before, segment, after) && before != ""
    ensures n < |before| && Divides(path[n + 1..], before[n + 1..], segment, after)
  {
    FirstSlash(path, |before| - 1);
    assert path[n + 1..] == before[n + 1..] + (segment + after);
  }

  lemma FirstOfSplit(path: string, name: string)
    requires '/' !in name
    ensures Split(path, '/')[0] == name <==> path == name || name + "/" <= path
  {
    if name + "/" <= path {
      var rest := path[|name| + 1..];
      assert path == name + ['/'] + rest;
      SplitAppend(name, '/', rest);
    }
    if '/' in path {
      assert path[..IndexOf(path, '/') + 1] == path[..IndexOf(path, '/')] + "/";
    }
  }

  lemma SafeSegmentsExactly(path: string)
    ensures SafeSegments(Split(path, '/')) <==>
            !HasSegment(path, "") && !HasSegment(path, ".") && !HasSegment(path, "..")
  {
    hide HasSegment, Split;
    SegmentsStand(path, "");
    SegmentsStand(path, ".");
    SegmentsStand(path, "..");
  }

  predicate IsOwn(path: string, name: string) {
    path == name || name + "/" <= path
  }

  lemma SystemPrefixExactly(path: string)
    ensures IsSystemPrefix(Split(path, '/')[0]) <==>
            || IsOwn(path, "metrics") || IsOwn(path, "healthz")
            || IsOwn(path, "_mirror_auth") || IsOwn(path, "_mirrorrelay")
  {
    hide Split;
    FirstOfSplit(path, "metrics");
    FirstOfSplit(path, "healthz");
    FirstOfSplit(path, "_mirror_auth");
    FirstOfSplit(path, "_mirrorrelay");
  }

  /** Which public paths are accepted, and as what: slashes around them do not count, no segment
      is empty or a dot or two, no character needs escaping, and the first segment is none of the
      gateway's own. */
  lemma PublicPathExactly(before: string, core: string, after: string, slug: string)
    requires core != "" && core[0] != '/' && core[|core| - 1] != '/'
    requires (forall c | c in before :: c == '/') && forall c | c in after :: c == '/'
    ensures NormalizePublicPath(before + (core + after), slug) ==
            if (forall c | c in core :: c !in {'\\', '%', '\0', '\r', '\n', '\t', ' ', '?', '#'})
               && !HasSegment(core, "") && !HasSegment(core, ".") && !HasSegment(core, "..")
               && !IsOwn(core, "metrics") && !IsOwn(core, "healthz")
               && !IsOwn(core, "_mirror_auth") && !IsOwn(core, "_mirrorrelay")
            then Some("/" + core + "/") else None
  {
    hide HasSegment, Split, Trim, IsOwn, SafeSegments, IsSystemPrefix;
    assert Trimmed(IsSlash, core);
    TrimAround(IsSlash, before, core, after);
    assert before + (core + after) != "";
    SafeSegmentsExactly(core);
    SystemPrefixExactly(core);
    assert Trim(IsSlash, before + (core + after)) == core;
    assert NormalizePublicPath(before + (core + after), slug) ==
           if !SafeSegments(Split(core, '/')) || (exists c | c in core :: c in "\\%\0\r\n\t ?#")
              || IsSystemPrefix(Split(core, '/')[0]) then None else Some("/" + core + "/");
    assert forall c :: c in "\\%\0\r\n\t ?#" <==> c in {'\\', '%', '\0', '\r', '\n', '\t', ' ', '?', '#'};
  }

  /** No control character or backslash, and no segment that is a dot or two. */
  ghost predicate IsSafe(path: string) {
    && '\0' !in path && '\r' !in path && '\n' !in path && '\\' !in path
    && !HasSegment(path, ".") && !HasSegment(path, "..")
  }

  lemma SafeExactly(path: string)
    ensures UnsafePath(path) <==> !IsSafe(path)
  {
    hide HasSegment;
    SegmentsStand(path, ".");
    SegmentsStand(path, "..");
  }

  /** A request is sent upstream exactly when it is no system route, a repository is found, its
      prefix can be stripped, and what is left is safe and no adapter address. */
  lemma DirectExactly(repositories: seq<Repository>, basePath: string, host: string, path: string, r: Repository,
      relative: string)
    ensures Resolve(repositories, basePath, host, path) == Direct(r, relative) <==>
            && !IsSystemRoute(RequestPath(basePath, path))
            && Route(repositories, basePath, host, path).Found?
            && Route(repositories, basePath, host, path).repository == r
            && ApplyStripPrefix(Route(repositories, basePath, host, path).relative, r.stripPrefix) == Some(relative)
            && IsSafe(relative) && !("/__fetch/" <= relative) && !("/__fetch_template/" <= relative)
  {
    hide Route, ApplyStripPrefix, UnsafePath, IsSafe, IsSystemRoute, RequestPath;
    SafeExactly(relative);
  }

  /** An unsafe path is refused with 400 and an unknown one with 404; nothing else is refused. */
  lemma RefusedExactly(repositories: seq<Repository>, basePath: string, host: string, path: string)
    ensures Resolve(repositories, basePath, host, path) == Rejected(404) <==>
            && !IsSystemRoute(RequestPath(basePath, path))
            && var routed := Route(repositories, basePath, host, path);
               routed.NotFound? || ApplyStripPrefix(routed.relative, routed.repository.stripPrefix).None?
    ensures Resolve(repositories, basePath, host, path) == Rejected(400) <==>
            && !IsSystemRoute(RequestPath(basePath, path))
            && var routed := Route(repositories, basePath, host, path);
               && routed.Found? && ApplyStripPrefix(routed.relative, routed.repository.stripPrefix).Some?
               && !IsSafe(ApplyStripPrefix(routed.relative, routed.repository.stripPrefix).value)
    ensures Resolve(repositories, basePath, host, path).Rejected? ==>
              Resolve(repositories, basePath, host, path).status in {400, 404}
  {
    hide Route, ApplyStripPrefix, UnsafePath, IsSafe, IsSystemRoute, RequestPath;
    var routed := Route(repositories, basePath, host, path);
    if routed.Found? && ApplyStripPrefix(routed.relative, routed.repository.stripPrefix).Some? {
      SafeExactly(ApplyStripPrefix(routed.relative, routed.repository.stripPrefix).value);
    }
  }

  /** Stripping takes exactly the prefix off, between slashes. */
  lemma StripExactly(relative: string, prefix: string, rest: string)
    requires Trim(IsSlash, prefix) != "" && rest != "" && rest[0] == '/'
    ensures ApplyStripPrefix(relative, prefix) == Some(rest) <==>
            relative == "/" + Trim(IsSlash, prefix) + rest || (rest == "/" && relative == "/" + Trim(IsSlash, prefix))
    ensures ApplyStripPrefix(relative, prefix).Some? ==>
              var r := ApplyStripPrefix(relative, prefix).value; r != "" && r[0] == '/'
  {
    hide Trim;
    SingleCharacter(prefix);
    var p := "/" + Trim(IsSlash, prefix);
    assert (p + rest)[..|p| + 1] == p + "/";
    if IsPrefix(p + "/", relative) {
      assert relative == p + relative[|p|..] && relative[|p|] == '/';
    }
  }

  lemma {:induction false} DecimalIsSmall(digits: string)
    requires digits != "" && |digits| <= 18 && digits[0] != '0' && forall i | 0 <= i < |digits| :: IsDigit(digits[i])
    ensures 0 < DecimalValue(digits) < Power10(|digits|)
  {
    if |digits| > 1 {
      DecimalIsSmall(digits[..|digits| - 1]);
    } else {
      assert digits[..0] == "" && DecimalValue("") == 0;
    }
  }

  function Power10(n: nat): nat {
    if n == 0 then 1 else 10 * Power10(n - 1)
  }

  lemma {:induction false} Power10Grows(n: nat, m: nat)
    requires n <= m
    ensures Power10(n) <= Power10(m)
    decreases m
  {
    if n < m {
      Power10Grows(n, m - 1);
    }
  }

  /** The token endpoint of a repository, named by its number, is a system route wherever the
      gateway is mounted; with anything but digits in that place it is none. */
  lemma TokenRouteExactly(id: string, rest: string)
    requires '/' !in id && id != ""
    ensures id[0] != '0' && |id| <= 18 && (forall i | 0 <= i < |id| :: IsDigit(id[i])) ==>
              IsSystemRoute("/_mirror_auth/" + id + "/" + rest)
    ensures id[0] != '+' && (exists c :: c in id && !IsDigit(c)) ==> !IsSystemRoute("/_mirror_auth/" + id + "/" + rest)
  {
    hide Split;
    var path := "/_mirror_auth/" + id + "/" + rest;
    assert TrimPrefix(path, TOKEN) == id + "/" + rest;
    SplitAppend(id, '/', rest);
    assert Split(id + ['/'] + rest, '/')[0] == id;
    assert TrimPrefix(id, "+") == if id[0] == '+' then id[1..] else id;
    if id[0] != '0' && |id| <= 18 && forall i | 0 <= i < |id| :: IsDigit(id[i]) {
      DecimalIsSmall(id);
      Power10Grows(|id|, 18);
      assert Power10(18) == 1_000_000_000_000_000_000 by { PowerOf18(); }
      assert id[0] != '+';
    }
    assert path[2] == AUXILIARY_UPSTREAM[2] && path[8] != AUXILIARY_UPSTREAM[8];
  }

  lemma PowerOf18()
    ensures Power10(18) == 1_000_000_000_000_000_000
  {
    assert Power10(6) == 1_000_000;
    assert Power10(12) == 1_000_000_000_000;
  }

  /** A link is mapped into the repository exactly when it has the base's origin, no encoded
      slash, and lies in the base's directory; with the origin alone it is an outside resource. */
  lemma MappedExactly(r: Repository, base: Url, target: Url, encodedSeparator: Url -> bool, root: string)
    requires r.id > 0 && base.path == root + "/" && target.path != ""
    ensures var same := OriginOf(base) == OriginOf(target) && !encodedSeparator(target);
            var within := target.path == root || root + "/" <= target.path;
            && (MapLink(r, base, target, encodedSeparator).Inside? <==> same && within)
            && (MapLink(r, base, target, encodedSeparator).Outside? <==> same && !within)
  {
    hide OriginOf, SameOrigin, PublicResourcePath;
    SameOriginExactly(base, target);
    assert TrimSuffix(base.path, "/") == root;
  }
}
