/** The canonical form of a configuration and its fingerprint: what the fingerprint depends
    on, and what it forgets. An edge and its coordinator compare fingerprints only, so equal
    fingerprints have to mean equal content, however the two databases number their rows. */
module Fingerprint {
  import opened Text
  import opened Sorting

  /** `Local` is what a database adds to a record (timestamps, health, and the like). */
  datatype Upstream<+Local> = Upstream(url: string, host: string, priority: int, weight: int, enabled: bool,
      local: Local)

  /** `Rest` holds the settings that are copied as they are. */
  datatype Mirror<+Rest, +Local> = Mirror(
    id: int,
    slug: string,
    kind: string,
    publicMode: string,
    publicHost: string,
    publicPath: string,
    rewriteHosts: seq<string>,
    headerAdd: map<string, string>,
    headerRemove: seq<string>,
    blockedPackages: seq<string>,
    allowedPackages: seq<string>,
    upstreams: seq<Upstream<Local>>,
    rest: Rest,
    local: Local)

  datatype CustomConfig<+Local> = CustomConfig(
    name: string, context: string, repositoryId: int, enabled: bool, content: string, local: Local)

  datatype CanonicalUpstream = CanonicalUpstream(url: string, host: string, priority: int, weight: int, enabled: bool)

  datatype CanonicalMirror<+Rest> = CanonicalMirror(
    slug: string,
    kind: string,
    publicMode: string,
    publicHost: string,
    publicPath: string,
    rewriteHosts: seq<string>,
    headerAdd: map<string, string>,
    headerRemove: seq<string>,
    blockedPackages: seq<string>,
    allowedPackages: seq<string>,
    upstreams: seq<CanonicalUpstream>,
    rest: Rest)

  datatype CanonicalCustom = CanonicalCustom(name: string, context: string, repositorySlug: string, enabled: bool,
      content: string)

  datatype CanonicalConfig<+Rest> = CanonicalConfig(repositories: seq<CanonicalMirror<Rest>>,
      custom: seq<CanonicalCustom>)

  // ---------------------------------------------------------------- orders

  predicate UpstreamLess(a: CanonicalUpstream, b: CanonicalUpstream) {
    if a.priority != b.priority then a.priority < b.priority
    else if a.url != b.url then Less(a.url, b.url)
    else if a.host != b.host then Less(a.host, b.host)
    else if a.weight != b.weight then a.weight < b.weight
    else !a.enabled && b.enabled
  }

  predicate SlugLess<Rest>(a: CanonicalMirror<Rest>, b: CanonicalMirror<Rest>) {
    Less(a.slug, b.slug)
  }

  predicate CustomLess(a: CanonicalCustom, b: CanonicalCustom) {
    if a.context != b.context then Less(a.context, b.context)
    else if a.repositorySlug != b.repositorySlug then Less(a.repositorySlug, b.repositorySlug)
    else if a.name != b.name then Less(a.name, b.name)
    else Less(a.content, b.content)
  }

  lemma StringOrder(a: string, b: string, c: string)
    ensures !Less(a, a) && (Less(a, b) && Less(b, c) ==> Less(a, c)) && (a == b || Less(a, b) || Less(b, a))
  {
    LessIrreflexive(a);
    if Less(a, b) && Less(b, c) { LessTransitive(a, b, c); }
    LessTotal(a, b);
  }

  lemma StringsTotal(domain: set<string>)
    ensures TotalOn(Less, domain)
  {
    hide Less;
    forall a, b, c | a in domain && b in domain && c in domain
      ensures !Less(a, a) && (Less(a, b) && Less(b, c) ==> Less(a, c)) && (a == b || Less(a, b) || Less(b, a))
    {
      StringOrder(a, b, c);
    }
  }

  lemma UpstreamOrder(a: CanonicalUpstream, b: CanonicalUpstream, c: CanonicalUpstream)
    ensures !UpstreamLess(a, a)
    ensures UpstreamLess(a, b) && UpstreamLess(b, c) ==> UpstreamLess(a, c)
    ensures a == b || UpstreamLess(a, b) || UpstreamLess(b, a)
  {
    hide Less;
    StringOrder(a.url, b.url, c.url);
    StringOrder(a.host, b.host, c.host);
    StringOrder(a.url, a.url, a.url);
    StringOrder(b.url, a.url, b.url);
    StringOrder(b.host, a.host, b.host);
  }

  lemma UpstreamsTotal(domain: set<CanonicalUpstream>)
    ensures TotalOn(UpstreamLess, domain)
  {
    hide UpstreamLess;
    forall a, b, c | a in domain && b in domain && c in domain
      ensures !UpstreamLess(a, a) && (UpstreamLess(a, b) && UpstreamLess(b, c) ==> UpstreamLess(a, c))
      ensures a == b || UpstreamLess(a, b) || UpstreamLess(b, a)
    {
      UpstreamOrder(a, b, c);
    }
  }

  /** No two elements have the same slug. */
  ghost predicate SlugsIdentify<Rest(!new)>(domain: set<CanonicalMirror<Rest>>) {
    forall a, b | a in domain && b in domain && a.slug == b.slug :: a == b
  }

  lemma SlugsTotal<Rest(!new)>(domain: set<CanonicalMirror<Rest>>)
    requires SlugsIdentify(domain)
    ensures TotalOn<CanonicalMirror<Rest>>(SlugLess, domain)
  {
    hide Less;
    forall a, b, c | a in domain && b in domain && c in domain
      ensures !Less(a.slug, a.slug) && (Less(a.slug, b.slug) && Less(b.slug, c.slug) ==> Less(a.slug, c.slug))
      ensures a == b || Less(a.slug, b.slug) || Less(b.slug, a.slug)
    {
      StringOrder(a.slug, b.slug, c.slug);
    }
  }

  /** No two elements differ in `enabled` only. */
  predicate KeysIdentify(domain: set<CanonicalCustom>) {
    forall a, b | a in domain && b in domain && a.(enabled := b.enabled) == b :: a == b
  }

  lemma CustomOrder(a: CanonicalCustom, b: CanonicalCustom, c: CanonicalCustom)
    ensures !CustomLess(a, a)
    ensures CustomLess(a, b) && CustomLess(b, c) ==> CustomLess(a, c)
    ensures a.(enabled := b.enabled) == b || CustomLess(a, b) || CustomLess(b, a)
  {
    hide Less;
    StringOrder(a.context, b.context, c.context);
    StringOrder(b.context, a.context, b.context);
    StringOrder(a.repositorySlug, b.repositorySlug, c.repositorySlug);
    StringOrder(b.repositorySlug, a.repositorySlug, b.repositorySlug);
    StringOrder(a.name, b.name, c.name);
    StringOrder(b.name, a.name, b.name);
    StringOrder(a.content, b.content, c.content);
  }

  lemma CustomTotal(domain: set<CanonicalCustom>)
    requires KeysIdentify(domain)
    ensures TotalOn(CustomLess, domain)
  {
    hide CustomLess;
    forall a, b, c | a in domain && b in domain && c in domain
      ensures !CustomLess(a, a) && (CustomLess(a, b) && CustomLess(b, c) ==> CustomLess(a, c))
      ensures a == b || CustomLess(a, b) || CustomLess(b, a)
    {
      CustomOrder(a, b, c);
    }
  }

  // ---------------------------------------------------------------- the canonical form

  function NormalUpstream<Local>(u: Upstream<Local>): CanonicalUpstream {
    CanonicalUpstream(TrimSpace(u.url), TrimSpace(u.host), u.priority, u.weight, u.enabled)
  }

  predicate IsHostMode(publicMode: string) {
    EqualFold(TrimSpace(publicMode), "host")
  }

  function NormalHost(publicMode: string, publicHost: string): string {
    if IsHostMode(publicMode) then ToLower(TrimSuffix(TrimSpace(publicHost), ".")) else ""
  }

  function CanonicalRepository<Rest, Local>(m: Mirror<Rest, Local>): CanonicalMirror<Rest> {
    CanonicalMirror(
      NormalSlug(m.slug), ToLower(TrimSpace(m.kind)), m.publicMode, NormalHost(m.publicMode, m.publicHost),
      Trim(IsSlash, m.publicPath), Sort(Less, m.rewriteHosts), m.headerAdd, Sort(Less, m.headerRemove),
      Sort(Less, m.blockedPackages), Sort(Less, m.allowedPackages),
      Sort(UpstreamLess, Map(NormalUpstream, m.upstreams)), m.rest)
  }

  function CanonicalRepositories<Rest, Local>(repositories: seq<Mirror<Rest, Local>>): seq<CanonicalMirror<Rest>> {
    Sort(SlugLess, Map(CanonicalRepository, repositories))
  }

  /** The slug of the repository with this id: the last one in the list wins. */
  function SlugOf<Rest, Local>(repositories: seq<Mirror<Rest, Local>>, id: int): string {
    if repositories == [] then ""
    else if repositories[|repositories| - 1].id == id then NormalSlug(repositories[|repositories| - 1].slug)
    else SlugOf(repositories[..|repositories| - 1], id)
  }

  predicate StartsWithCrLf(s: string) {
    |s| >= 2 && s[0] == '\r' && s[1] == '\n'
  }

  function HeadLength(s: string): nat {
    if StartsWithCrLf(s) then 2 else 1
  }

  function NormalHead(c: char): string {
    if c == '\r' then "\n" else [c]
  }

  /** Carriage returns, alone or before a line feed, become line feeds. */
  function NormalContent(s: string): string {
    if s == "" then "" else NormalHead(s[0]) + NormalContent(s[HeadLength(s)..])
  }

  function CanonicalValue<Local>(slug: string, c: CustomConfig<Local>): CanonicalCustom {
    CanonicalCustom(TrimSpace(c.name), ToLower(TrimSpace(c.context)), slug, c.enabled, NormalContent(c.content))
  }

  function CanonicalCustoms<Rest, Local>(repositories: seq<Mirror<Rest, Local>>,
      custom: seq<CustomConfig<Local>>): seq<CanonicalCustom> {
    if custom == [] then []
    else
      [CanonicalValue(SlugOf(repositories, custom[0].repositoryId), custom[0])] +
      CanonicalCustoms(repositories, custom[1..])
  }

  function Canonical<Rest, Local>(repositories: seq<Mirror<Rest, Local>>,
      custom: seq<CustomConfig<Local>>): CanonicalConfig<Rest> {
    CanonicalConfig(CanonicalRepositories(repositories), Sort(CustomLess, CanonicalCustoms(repositories, custom)))
  }

  /** `digest` encodes and hashes a canonical configuration. */
  function ConfigFingerprint<Rest, Local>(digest: CanonicalConfig<Rest> -> string,
                                          repositories: seq<Mirror<Rest, Local>>,
                                          custom: seq<CustomConfig<Local>>): string {
    "sha256:" + digest(Canonical(repositories, custom))
  }

  ghost predicate Injective<Rest(!new)>(digest: CanonicalConfig<Rest> -> string) {
    forall a, b | digest(a) == digest(b) :: a == b
  }

  // ---------------------------------------------------------------- the loops

  method CanonicalizeRepositories<Rest, Local>(repositories: seq<Mirror<Rest, Local>>)
      returns (canonical: seq<CanonicalMirror<Rest>>)
    ensures canonical == CanonicalRepositories(repositories)
  {
    hide NormalSlug, NormalHost, Sort;
    canonical := [];
    for i := 0 to |repositories|
      invariant canonical == Map(CanonicalRepository, repositories[..i])
    {
      var m := repositories[i];
      var upstreams: seq<CanonicalUpstream> := [];
      for j := 0 to |m.upstreams|
        invariant upstreams == Map(NormalUpstream, m.upstreams[..j])
      {
        var u := m.upstreams[j];
        upstreams := upstreams + [CanonicalUpstream(TrimSpace(u.url), TrimSpace(u.host), u.priority, u.weight,
            u.enabled)];
        MapSnoc(NormalUpstream<Local>, m.upstreams, j);
      }
      assert m.upstreams[..|m.upstreams|] == m.upstreams;
      canonical := canonical + [CanonicalMirror(
        NormalSlug(m.slug), ToLower(TrimSpace(m.kind)), m.publicMode, NormalHost(m.publicMode, m.publicHost),
        Trim(IsSlash, m.publicPath), Sort(Less, m.rewriteHosts), m.headerAdd, Sort(Less, m.headerRemove),
        Sort(Less, m.blockedPackages), Sort(Less, m.allowedPackages), Sort(UpstreamLess, upstreams), m.rest)];
      MapSnoc(CanonicalRepository<Rest, Local>, repositories, i);
    }
    assert repositories[..|repositories|] == repositories;
    canonical := Sort(SlugLess, canonical);
  }

  lemma MapSnoc<S, T>(f: S -> T, s: seq<S>, i: nat)
    requires i < |s|
    ensures Map(f, s[..i + 1]) == Map(f, s[..i]) + [f(s[i])]
  {
    assert s[..i + 1] == s[..i] + [s[i]];
    MapAppend(f, s[..i], [s[i]]);
    assert [s[i]][1..] == [];
  }

  /** The slugs are collected in a map first, so a later repository replaces an earlier one
      with the same id. */
  method ClusterConfigFingerprint<Rest, Local>(digest: CanonicalConfig<Rest> -> string,
                                               repositories: seq<Mirror<Rest, Local>>,
                                               customConfigs: seq<CustomConfig<Local>>)
    returns (fingerprint: string)
    ensures fingerprint == ConfigFingerprint(digest, repositories, customConfigs)
  {
    hide NormalSlug, Sort, CanonicalRepositories, CanonicalValue;
    var repositorySlugs: map<int, string> := map[];
    for i := 0 to |repositories|
      invariant forall id :: SlugOf(repositories[..i], id) == if id in repositorySlugs then repositorySlugs[id] else ""
    {
      assert repositories[..i + 1][..i] == repositories[..i];
      repositorySlugs := repositorySlugs[repositories[i].id := NormalSlug(repositories[i].slug)];
    }
    assert repositories[..|repositories|] == repositories;
    var custom: seq<CanonicalCustom> := [];
    for i := 0 to |customConfigs|
      invariant custom + CanonicalCustoms(repositories, customConfigs[i..]) ==
                CanonicalCustoms(repositories, customConfigs)
    {
      var value := customConfigs[i];
      var slug := if value.repositoryId in repositorySlugs then repositorySlugs[value.repositoryId] else "";
      assert customConfigs[i..][1..] == customConfigs[i + 1..];
      custom := custom + [CanonicalValue(slug, value)];
    }
    assert customConfigs[|customConfigs|..] == [];
    assert custom == CanonicalCustoms(repositories, customConfigs);
    var canonical := CanonicalizeRepositories(repositories);
    fingerprint := "sha256:" + digest(CanonicalConfig(canonical, Sort(CustomLess, custom)));
  }

  // ---------------------------------------------------------------- one repository

  /** Two repositories that say the same, whatever their ids, local data and list orders. */
  ghost predicate SameContent<Rest, Local>(a: Mirror<Rest, Local>, b: Mirror<Rest, Local>) {
    && NormalSlug(a.slug) == NormalSlug(b.slug) && ToLower(TrimSpace(a.kind)) == ToLower(TrimSpace(b.kind))
    && a.publicMode == b.publicMode && NormalHost(a.publicMode, a.publicHost) == NormalHost(b.publicMode, b.publicHost)
    && Trim(IsSlash, a.publicPath) == Trim(IsSlash, b.publicPath)
    && multiset(a.rewriteHosts) == multiset(b.rewriteHosts)
    && a.headerAdd == b.headerAdd && multiset(a.headerRemove) == multiset(b.headerRemove)
    && multiset(a.blockedPackages) == multiset(b.blockedPackages)
    && multiset(a.allowedPackages) == multiset(b.allowedPackages)
    && multiset(Map(NormalUpstream, a.upstreams)) == multiset(Map(NormalUpstream, b.upstreams))
    && a.rest == b.rest
  }

  lemma StringListsAgree(a: seq<string>, b: seq<string>)
    ensures Sort(Less, a) == Sort(Less, b) <==> multiset(a) == multiset(b)
  {
    hide Sort, Less;
    var domain := Elements(a);
    StringsTotal(domain);
    SortsAgreeExactly(Less, a, b, domain);
  }

  lemma UpstreamListsAgree(a: seq<CanonicalUpstream>, b: seq<CanonicalUpstream>)
    ensures Sort(UpstreamLess, a) == Sort(UpstreamLess, b) <==> multiset(a) == multiset(b)
  {
    hide Sort, UpstreamLess;
    var domain := Elements(a);
    UpstreamsTotal(domain);
    SortsAgreeExactly(UpstreamLess, a, b, domain);
  }

  /** The canonical form of a repository is its content: reordered lists, stray white space,
      letter case, ids and local data are forgotten, and nothing else. */
  lemma RepositoryContentExactly<Rest, Local>(a: Mirror<Rest, Local>, b: Mirror<Rest, Local>)
    ensures CanonicalRepository(a) == CanonicalRepository(b) <==> SameContent(a, b)
  {
    hide Sort, Less, UpstreamLess, Map, NormalSlug, NormalHost, Trim, TrimSpace, ToLower;
    StringListsAgree(a.rewriteHosts, b.rewriteHosts);
    StringListsAgree(a.headerRemove, b.headerRemove);
    StringListsAgree(a.blockedPackages, b.blockedPackages);
    StringListsAgree(a.allowedPackages, b.allowedPackages);
    UpstreamListsAgree(Map(NormalUpstream, a.upstreams), Map(NormalUpstream, b.upstreams));
  }

  // ---------------------------------------------------------------- the whole configuration

  predicate DistinctSlugs<Rest, Local>(repositories: seq<Mirror<Rest, Local>>) {
    forall i, j | 0 <= i < j < |repositories| :: NormalSlug(repositories[i].slug) != NormalSlug(repositories[j].slug)
  }

  ghost predicate DistinctKeys<Rest, Local>(repositories: seq<Mirror<Rest, Local>>, custom: seq<CustomConfig<Local>>) {
    KeysIdentify(Elements(CanonicalCustoms(repositories, custom)))
  }

  lemma DistinctSlugsIdentify<Rest(!new), Local>(repositories: seq<Mirror<Rest, Local>>)
    requires DistinctSlugs(repositories)
    ensures SlugsIdentify(Elements(Map(CanonicalRepository, repositories)))
  {
    hide NormalSlug, Sort, NormalHost;
    MapIndex(CanonicalRepository<Rest, Local>, repositories);
  }

  lemma RepositoriesAgree<Rest(!new), Local>(a: seq<Mirror<Rest, Local>>, b: seq<Mirror<Rest, Local>>)
    requires DistinctSlugs(a)
    ensures CanonicalRepositories(a) == CanonicalRepositories(b) <==>
            multiset(Map(CanonicalRepository, a)) == multiset(Map(CanonicalRepository, b))
  {
    hide Sort, SlugLess, CanonicalRepository, DistinctSlugs;
    var domain := Elements(Map(CanonicalRepository, a));
    DistinctSlugsIdentify(a);
    SlugsTotal(domain);
    SortsAgreeExactly(SlugLess, Map(CanonicalRepository, a), Map(CanonicalRepository, b), domain);
  }

  lemma CustomsAgree(a: seq<CanonicalCustom>, b: seq<CanonicalCustom>)
    requires KeysIdentify(Elements(a))
    ensures Sort(CustomLess, a) == Sort(CustomLess, b) <==> multiset(a) == multiset(b)
  {
    hide Sort, CustomLess, KeysIdentify;
    CustomTotal(Elements(a));
    SortsAgreeExactly(CustomLess, a, b, Elements(a));
  }

  /** The fingerprint is the content: for distinct slugs and distinct sort keys, two
      configurations have the same fingerprint exactly when they hold the same repositories
      and custom configurations, each as content, in any order. */
  lemma FingerprintIsContent<Rest(!new), Local>(digest: CanonicalConfig<Rest> -> string,
                                                a: seq<Mirror<Rest, Local>>, c: seq<CustomConfig<Local>>,
                                                b: seq<Mirror<Rest, Local>>, d: seq<CustomConfig<Local>>)
    requires Injective(digest) && DistinctSlugs(a) && DistinctKeys(a, c)
    ensures ConfigFingerprint(digest, a, c) == ConfigFingerprint(digest, b, d) <==>
            && multiset(Map(CanonicalRepository, a)) == multiset(Map(CanonicalRepository, b))
            && multiset(CanonicalCustoms(a, c)) == multiset(CanonicalCustoms(b, d))
  {
    hide Sort, CustomLess, CanonicalRepository, CanonicalRepositories, DistinctSlugs, CanonicalCustoms, KeysIdentify;
    RepositoriesAgree(a, b);
    CustomsAgree(CanonicalCustoms(a, c), CanonicalCustoms(b, d));
    AfterPrefix("sha256:", digest(Canonical(a, c)), digest(Canonical(b, d)));
  }

  lemma AfterPrefix(prefix: string, a: string, b: string)
    ensures prefix + a == prefix + b <==> a == b
  {
    assert (prefix + a)[|prefix|..] == a && (prefix + b)[|prefix|..] == b;
  }

  // ---------------------------------------------------------------- what a fingerprint shows

  predicate SameUpstream<Local>(u: Upstream<Local>, v: Upstream<Local>) {
    && TrimSpace(u.url) == TrimSpace(v.url) && TrimSpace(u.host) == TrimSpace(v.host)
    && u.priority == v.priority && u.weight == v.weight && u.enabled == v.enabled
  }

  /** Every upstream of `a` is one of `b`. */
  predicate UpstreamsIn<Local>(a: seq<Upstream<Local>>, b: seq<Upstream<Local>>) {
    forall k | 0 <= k < |a| :: exists l :: 0 <= l < |b| && SameUpstream(a[k], b[l])
  }

  predicate InHostMode(publicMode: string) {
    Fold(TrimSpace(publicMode)) == "host"
  }

  /** What two repositories with one fingerprint have in common, setting by setting. */
  ghost predicate SaysTheSame<Rest, Local>(a: Mirror<Rest, Local>, b: Mirror<Rest, Local>) {
    && ToLower(TrimSpace(a.slug)) == ToLower(TrimSpace(b.slug)) &&
       ToLower(TrimSpace(a.kind)) == ToLower(TrimSpace(b.kind))
    && a.publicMode == b.publicMode && a.headerAdd == b.headerAdd && a.rest == b.rest
    && Trim(IsSlash, a.publicPath) == Trim(IsSlash, b.publicPath)
    && (InHostMode(a.publicMode) ==>
          ToLower(TrimSuffix(TrimSpace(a.publicHost), ".")) == ToLower(TrimSuffix(TrimSpace(b.publicHost), ".")))
    && multiset(a.rewriteHosts) == multiset(b.rewriteHosts) && multiset(a.headerRemove) == multiset(b.headerRemove)
    && multiset(a.blockedPackages) == multiset(b.blockedPackages)
    && multiset(a.allowedPackages) == multiset(b.allowedPackages)
    && |a.upstreams| == |b.upstreams| && UpstreamsIn(a.upstreams, b.upstreams) && UpstreamsIn(b.upstreams, a.upstreams)
  }

  lemma SameUpstreamExactly<Local>(u: Upstream<Local>, v: Upstream<Local>)
    ensures NormalUpstream(u) == NormalUpstream(v) <==> SameUpstream(u, v)
  {
  }

  lemma UpstreamsAreFound<Local>(a: seq<Upstream<Local>>, b: seq<Upstream<Local>>)
    requires multiset(Map(NormalUpstream, a)) == multiset(Map(NormalUpstream, b))
    ensures |a| == |b| && UpstreamsIn(a, b)
  {
    hide SameUpstream, NormalUpstream, Map;
    MapIndex(NormalUpstream<Local>, a);
    MapIndex(NormalUpstream<Local>, b);
    assert |multiset(Map(NormalUpstream, a))| == |Map(NormalUpstream, a)|;
    assert |multiset(Map(NormalUpstream, b))| == |Map(NormalUpstream, b)|;
    forall k | 0 <= k < |a| ensures exists l :: 0 <= l < |b| && SameUpstream(a[k], b[l]) {
      assert Map(NormalUpstream, a)[k] in multiset(Map(NormalUpstream, b));
      var l :| 0 <= l < |b| && Map(NormalUpstream, b)[l] == Map(NormalUpstream, a)[k];
      SameUpstreamExactly(a[k], b[l]);
    }
  }

  lemma ContentSaysTheSame<Rest, Local>(a: Mirror<Rest, Local>, b: Mirror<Rest, Local>)
    requires SameContent(a, b)
    ensures SaysTheSame(a, b)
  {
    hide UpstreamsIn, Map, Trim, TrimSpace, ToLower, TrimSuffix;
    UpstreamsAreFound(a.upstreams, b.upstreams);
    UpstreamsAreFound(b.upstreams, a.upstreams);
    HostIsFolded();
  }

  lemma HostIsFolded()
    ensures Fold("host") == "host"
  {
  }

  /** Equal fingerprints show every setting of every repository: another upstream address, another
      path or host, another header, and the fingerprint is another. */
  lemma FingerprintShowsRepositories<Rest(!new), Local>(digest: CanonicalConfig<Rest> -> string,
      a: seq<Mirror<Rest, Local>>, c: seq<CustomConfig<Local>>, b: seq<Mirror<Rest, Local>>,
      d: seq<CustomConfig<Local>>,
      i: nat)
    requires Injective(digest) && DistinctSlugs(a) && DistinctKeys(a, c) && i < |a|
    requires ConfigFingerprint(digest, a, c) == ConfigFingerprint(digest, b, d)
    ensures |a| == |b| && exists j :: 0 <= j < |b| && SaysTheSame(a[i], b[j])
  {
    hide SaysTheSame, SameContent, Map, ConfigFingerprint, CanonicalRepository, DistinctSlugs, DistinctKeys;
    FingerprintIsContent(digest, a, c, b, d);
    MapIndex(CanonicalRepository<Rest, Local>, a);
    MapIndex(CanonicalRepository<Rest, Local>, b);
    assert |multiset(Map(CanonicalRepository, a))| == |Map(CanonicalRepository, a)|;
    assert |multiset(Map(CanonicalRepository, b))| == |Map(CanonicalRepository, b)|;
    assert Map(CanonicalRepository, a)[i] in multiset(Map(CanonicalRepository, b));
    var j :| 0 <= j < |b| && Map(CanonicalRepository, b)[j] == Map(CanonicalRepository, a)[i];
    RepositoryContentExactly(a[i], b[j]);
    ContentSaysTheSame(a[i], b[j]);
  }

  lemma {:induction false} CustomsByIndex<Rest, Local>(repositories: seq<Mirror<Rest, Local>>,
      custom: seq<CustomConfig<Local>>)
    ensures |CanonicalCustoms(repositories, custom)| == |custom|
    ensures forall k | 0 <= k < |custom| ::
              CanonicalCustoms(repositories, custom)[k] ==
              CanonicalValue(SlugOf(repositories, custom[k].repositoryId), custom[k])
  {
    hide CanonicalValue, SlugOf;
    if custom != [] {
      CustomsByIndex(repositories, custom[1..]);
      assert forall k | 0 < k < |custom| :: custom[k] == custom[1..][k - 1];
    }
  }

  predicate SameCustom<Local>(slug: string, c: CustomConfig<Local>, otherSlug: string, d: CustomConfig<Local>) {
    && slug == otherSlug && TrimSpace(c.name) == TrimSpace(d.name) && c.enabled == d.enabled
    && ToLower(TrimSpace(c.context)) == ToLower(TrimSpace(d.context))
    && NormalContent(c.content) == NormalContent(d.content)
  }

  /** And of every custom configuration: its name, its place, its content up to line endings. */
  lemma FingerprintShowsCustoms<Rest(!new), Local>(digest: CanonicalConfig<Rest> -> string,
      a: seq<Mirror<Rest, Local>>, c: seq<CustomConfig<Local>>, b: seq<Mirror<Rest, Local>>,
      d: seq<CustomConfig<Local>>,
      k: nat)
    requires Injective(digest) && DistinctSlugs(a) && DistinctKeys(a, c) && k < |c|
    requires ConfigFingerprint(digest, a, c) == ConfigFingerprint(digest, b, d)
    ensures |c| == |d|
    ensures exists l :: 0 <= l < |d| &&
              SameCustom(SlugOf(a, c[k].repositoryId), c[k], SlugOf(b, d[l].repositoryId), d[l])
  {
    hide ConfigFingerprint, CanonicalCustoms, DistinctSlugs, DistinctKeys, SlugOf, NormalContent, TrimSpace, ToLower;
    FingerprintIsContent(digest, a, c, b, d);
    CustomsByIndex(a, c);
    CustomsByIndex(b, d);
    assert |multiset(CanonicalCustoms(a, c))| == |CanonicalCustoms(a, c)|;
    assert |multiset(CanonicalCustoms(b, d))| == |CanonicalCustoms(b, d)|;
    assert CanonicalCustoms(a, c)[k] in multiset(CanonicalCustoms(b, d));
    var l :| 0 <= l < |d| && CanonicalCustoms(b, d)[l] == CanonicalCustoms(a, c)[k];
  }

  /** Content without carriage returns is fingerprinted as it is. */
  lemma {:induction false} PlainContentIsKept(content: string)
    requires '\r' !in content
    ensures NormalContent(content) == content
  {
    if content != "" {
      PlainContentIsKept(content[1..]);
    }
  }

  /** The slug a custom configuration is filed under: that of the last repository with its id. */
  lemma {:induction false} SlugOfLast<Rest, Local>(before: seq<Mirror<Rest, Local>>, m: Mirror<Rest, Local>,
      after: seq<Mirror<Rest, Local>>)
    requires forall i | 0 <= i < |after| :: after[i].id != m.id
    ensures SlugOf(before + [m] + after, m.id) == ToLower(TrimSpace(m.slug))
    decreases |after|
  {
    hide ToLower, TrimSpace;
    var all := before + [m] + after;
    if after == [] {
      assert all[|all| - 1] == m;
    } else {
      SlugOfLast(before, m, after[..|after| - 1]);
      assert all[..|all| - 1] == before + [m] + after[..|after| - 1];
      assert all[|all| - 1] == after[|after| - 1];
    }
  }

  // ---------------------------------------------------------------- orders and ids

  /** The repositories a custom configuration may refer to have one slug. */
  predicate Resolvable<Rest, Local>(repositories: seq<Mirror<Rest, Local>>, custom: seq<CustomConfig<Local>>) {
    forall i, j, k | 0 <= i < |repositories| && 0 <= j < |repositories| && 0 <= k < |custom| &&
                     repositories[i].id == custom[k].repositoryId && repositories[j].id == custom[k].repositoryId ::
      NormalSlug(repositories[i].slug) == NormalSlug(repositories[j].slug)
  }

  lemma {:induction false} SlugOfFound<Rest, Local>(repositories: seq<Mirror<Rest, Local>>, id: int)
    ensures (exists i | 0 <= i < |repositories| ::
            repositories[i].id == id && SlugOf(repositories, id) == NormalSlug(repositories[i].slug))
            || (SlugOf(repositories, id) == "" && forall i | 0 <= i < |repositories| :: repositories[i].id != id)
  {
    hide NormalSlug;
    if repositories != [] && repositories[|repositories| - 1].id != id {
      var before := repositories[..|repositories| - 1];
      SlugOfFound(before, id);
      if i :| 0 <= i < |before| && before[i].id == id && SlugOf(before, id) == NormalSlug(before[i].slug) {
        assert repositories[i] == before[i];
      }
      assert forall i | 0 <= i < |before| :: repositories[i] == before[i];
    }
  }

  lemma SlugOfPermuted<Rest, Local>(a: seq<Mirror<Rest, Local>>, b: seq<Mirror<Rest, Local>>, id: int)
    requires multiset(a) == multiset(b)
    requires forall i, j | 0 <= i < |a| && 0 <= j < |a| && a[i].id == id && a[j].id == id ::
             NormalSlug(a[i].slug) == NormalSlug(a[j].slug)
    ensures SlugOf(a, id) == SlugOf(b, id)
  {
    hide NormalSlug, SlugOf;
    SlugOfFound(a, id);
    SlugOfFound(b, id);
    if i :| 0 <= i < |a| && a[i].id == id && SlugOf(a, id) == NormalSlug(a[i].slug) {
      assert a[i] in multiset(b);
    }
    if j :| 0 <= j < |b| && b[j].id == id && SlugOf(b, id) == NormalSlug(b[j].slug) {
      assert b[j] in multiset(a);
    }
  }

  lemma {:induction false} CustomsPermutedRepositories<Rest, Local>(a: seq<Mirror<Rest, Local>>,
      b: seq<Mirror<Rest, Local>>, custom: seq<CustomConfig<Local>>)
    requires multiset(a) == multiset(b) && Resolvable(a, custom)
    ensures CanonicalCustoms(a, custom) == CanonicalCustoms(b, custom)
  {
    hide NormalSlug, CanonicalValue;
    if custom != [] {
      SlugOfPermuted(a, b, custom[0].repositoryId);
      assert forall k | 0 <= k < |custom| - 1 :: custom[1..][k] == custom[k + 1];
      CustomsPermutedRepositories(a, b, custom[1..]);
    }
  }

  /** The order of the repositories never matters when every id that is referred to has one slug. */
  lemma RepositoryOrderIsForgotten<Rest(!new), Local>(digest: CanonicalConfig<Rest> -> string,
                                                      a: seq<Mirror<Rest, Local>>, b: seq<Mirror<Rest, Local>>,
                                                      custom: seq<CustomConfig<Local>>)
    requires DistinctSlugs(a) && multiset(a) == multiset(b) && Resolvable(a, custom)
    ensures ConfigFingerprint(digest, a, custom) == ConfigFingerprint(digest, b, custom)
  {
    hide Sort, CustomLess, CanonicalRepository, CanonicalRepositories, DistinctSlugs, CanonicalCustoms, Resolvable;
    MapPermutes(CanonicalRepository<Rest, Local>, a, b);
    RepositoriesAgree(a, b);
    CustomsPermutedRepositories(a, b, custom);
  }

  lemma CustomOf<Rest, Local>(repositories: seq<Mirror<Rest, Local>>, custom: seq<CustomConfig<Local>>, k: nat)
    requires k < |custom|
    ensures |CanonicalCustoms(repositories, custom)| == |custom|
    ensures CanonicalCustoms(repositories, custom)[k] ==
            CanonicalValue(SlugOf(repositories, custom[k].repositoryId), custom[k])
  {
    hide SlugOf, CanonicalValue;
    CustomsAreMapped(repositories, custom);
    MapIndex((c: CustomConfig<Local>) => CanonicalValue(SlugOf(repositories, c.repositoryId), c), custom);
  }

  lemma {:induction false} CustomsAreMapped<Rest, Local>(repositories: seq<Mirror<Rest, Local>>,
      custom: seq<CustomConfig<Local>>)
    ensures CanonicalCustoms(repositories, custom) ==
            Map((c: CustomConfig<Local>) => CanonicalValue(SlugOf(repositories, c.repositoryId), c), custom)
  {
    hide SlugOf, CanonicalValue;
    if custom != [] {
      CustomsAreMapped(repositories, custom[1..]);
    }
  }

  /** The order of the custom configurations never matters when their sort keys differ. */
  lemma CustomOrderIsForgotten<Rest, Local>(digest: CanonicalConfig<Rest> -> string,
                                            repositories: seq<Mirror<Rest, Local>>, c: seq<CustomConfig<Local>>,
                                            d: seq<CustomConfig<Local>>)
    requires DistinctKeys(repositories, c) && multiset(c) == multiset(d)
    ensures ConfigFingerprint(digest, repositories, c) == ConfigFingerprint(digest, repositories, d)
  {
    hide Sort, CustomLess, CanonicalRepositories, SlugOf, CanonicalValue, KeysIdentify;
    CustomsAreMapped(repositories, c);
    CustomsAreMapped(repositories, d);
    MapPermutes((c: CustomConfig<Local>) => CanonicalValue(SlugOf(repositories, c.repositoryId), c), c, d);
    CustomsAgree(CanonicalCustoms(repositories, c), CanonicalCustoms(repositories, d));
  }

  function WithoutTwo<T>(s: seq<T>, low: nat, high: nat): seq<T>
    requires low < high < |s|
  {
    s[..low] + s[low + 1..high] + s[high + 1..]
  }

  /** The list with the repositories `i` and `j` moved to its end, in that order. */
  function LastTwo<T>(s: seq<T>, i: nat, j: nat): seq<T>
    requires i < |s| && j < |s| && i != j
  {
    (if i < j then WithoutTwo(s, i, j) else WithoutTwo(s, j, i)) + [s[i], s[j]]
  }

  lemma WithoutTwoPieces<T>(s: seq<T>, low: nat, high: nat)
    requires low < high < |s|
    ensures var rest := s[..high] + s[high + 1..];
            rest[low] == s[low] && rest[..low] + rest[low + 1..] == WithoutTwo(s, low, high)
  {
  }

  lemma TakeTwo<T>(s: seq<T>, low: nat, high: nat)
    requires low < high < |s|
    ensures multiset(s) == multiset{s[high]} + multiset{s[low]} + multiset(WithoutTwo(s, low, high))
  {
    hide WithoutTwo;
    var rest := s[..high] + s[high + 1..];
    TakeOut(s, high);
    TakeOut(rest, low);
    WithoutTwoPieces(s, low, high);
  }

  lemma LastTwoPermutes<T>(s: seq<T>, i: nat, j: nat)
    requires i < |s| && j < |s| && i != j
    ensures multiset(LastTwo(s, i, j)) == multiset(s)
  {
    hide WithoutTwo;
    if i < j {
      TakeTwo(s, i, j);
    } else {
      TakeTwo(s, j, i);
      assert multiset{s[j]} + multiset{s[i]} == multiset{s[i]} + multiset{s[j]};
    }
  }

  /** When a custom configuration refers to an id with two slugs, the two orders of its
      repositories give two fingerprints. */
  lemma TwoOrdersTwoFingerprints<Rest(!new), Local>(digest: CanonicalConfig<Rest> -> string,
                                                    repositories: seq<Mirror<Rest, Local>>,
                                                    custom: seq<CustomConfig<Local>>,
                                                    i: nat, j: nat, k: nat)
    requires Injective(digest) && DistinctSlugs(repositories) &&
             (forall r | r in repositories :: NormalSlug(r.slug) != "")
    requires i < |repositories| && j < |repositories| && i != j && k < |custom|
    requires repositories[i].id == custom[k].repositoryId && repositories[j].id == custom[k].repositoryId
    ensures ConfigFingerprint(digest, LastTwo(repositories, i, j), custom) != ConfigFingerprint(digest,
            LastTwo(repositories, j, i), custom)
  {
    hide Sort, CustomLess, CanonicalRepository, CanonicalRepositories, CanonicalCustoms, NormalSlug, SlugOf,
        CanonicalValue, DistinctSlugs, LastTwo, Injective;
    var a, b := LastTwo(repositories, i, j), LastTwo(repositories, j, i);
    if ConfigFingerprint(digest, a, custom) == ConfigFingerprint(digest, b, custom) {
      SameFingerprintSameCustoms(digest, a, b, custom);
      CustomOf(a, custom, k);
      LastSlug(repositories, i, j);
      assert CanonicalCustoms(a, custom)[k] in multiset(CanonicalCustoms(b, custom));
      var m :| 0 <= m < |CanonicalCustoms(b, custom)| &&
          CanonicalCustoms(b, custom)[m] == CanonicalCustoms(a, custom)[k];
      CustomOf(b, custom, m);
      CustomSlug(SlugOf(a, custom[k].repositoryId), custom[k]);
      CustomSlug(SlugOf(b, custom[m].repositoryId), custom[m]);
      OtherSlug(repositories, i, j, custom[m].repositoryId);
      assert false;
    }
  }

  lemma CustomSlug<Local>(slug: string, c: CustomConfig<Local>)
    ensures CanonicalValue(slug, c).repositorySlug == slug
  {
  }

  lemma SameFingerprintSameCustoms<Rest(!new), Local>(digest: CanonicalConfig<Rest> -> string,
                                                      a: seq<Mirror<Rest, Local>>, b: seq<Mirror<Rest, Local>>,
                                                      custom: seq<CustomConfig<Local>>)
    requires Injective(digest) && ConfigFingerprint(digest, a, custom) == ConfigFingerprint(digest, b, custom)
    ensures multiset(CanonicalCustoms(a, custom)) == multiset(CanonicalCustoms(b, custom))
  {
    hide Sort, CustomLess, CanonicalRepositories, CanonicalCustoms;
    AfterPrefix("sha256:", digest(Canonical(a, custom)), digest(Canonical(b, custom)));
    SortPermutes(CustomLess, CanonicalCustoms(a, custom));
    SortPermutes(CustomLess, CanonicalCustoms(b, custom));
  }

  lemma LastSlug<Rest, Local>(repositories: seq<Mirror<Rest, Local>>, i: nat, j: nat)
    requires i < |repositories| && j < |repositories| && i != j
    ensures SlugOf(LastTwo(repositories, i, j), repositories[j].id) == NormalSlug(repositories[j].slug)
  {
    hide NormalSlug;
  }

  /** With `j` before `i` at the end of the list, no id at all has the slug of `j`. */
  lemma OtherSlug<Rest, Local>(repositories: seq<Mirror<Rest, Local>>, i: nat, j: nat, id: int)
    requires DistinctSlugs(repositories) && (forall r | r in repositories :: NormalSlug(r.slug) != "")
    requires i < |repositories| && j < |repositories| && i != j && repositories[i].id == repositories[j].id
    ensures SlugOf(LastTwo(repositories, j, i), id) != NormalSlug(repositories[j].slug)
  {
    hide NormalSlug, LastTwo, SlugOf;
    var b := LastTwo(repositories, j, i);
    LastTwoPermutes(repositories, j, i);
    LastSlug(repositories, j, i);
    assert repositories[j] in repositories;
    SlugOfFound(b, id);
    if id != repositories[i].id {
      if n :| 0 <= n < |b| && b[n].id == id && SlugOf(b, id) == NormalSlug(b[n].slug) {
        assert b[n] in multiset(repositories);
        var o :| 0 <= o < |repositories| && repositories[o] == b[n];
        assert o != j;
      }
    }
  }

  /** Exactly when: for distinct non-empty slugs, every order of the repositories gives the
      same fingerprint if and only if every id that is referred to has one slug. */
  lemma OrderForgottenExactly<Rest(!new), Local(!new)>(digest: CanonicalConfig<Rest> -> string,
                                                       repositories: seq<Mirror<Rest, Local>>,
                                                       custom: seq<CustomConfig<Local>>)
    requires Injective(digest) && DistinctSlugs(repositories) &&
             (forall r | r in repositories :: NormalSlug(r.slug) != "")
    ensures Resolvable(repositories, custom) <==>
            forall other: seq<Mirror<Rest, Local>> | multiset(other) == multiset(repositories) ::
              ConfigFingerprint(digest, other, custom) == ConfigFingerprint(digest, repositories, custom)
  {
    hide ConfigFingerprint, DistinctSlugs, NormalSlug, LastTwo, Injective;
    if Resolvable(repositories, custom) {
      forall other: seq<Mirror<Rest, Local>> | multiset(other) == multiset(repositories)
        ensures ConfigFingerprint(digest, other, custom) == ConfigFingerprint(digest, repositories, custom)
      {
        RepositoryOrderIsForgotten(digest, repositories, other, custom);
      }
    } else {
      var i, j, k :| 0 <= i < |repositories| && 0 <= j < |repositories| && 0 <= k < |custom| &&
                     repositories[i].id == custom[k].repositoryId && repositories[j].id == custom[k].repositoryId &&
                     NormalSlug(repositories[i].slug) != NormalSlug(repositories[j].slug);
      TwoOrdersTwoFingerprints(digest, repositories, custom, i, j, k);
      LastTwoPermutes(repositories, i, j);
      LastTwoPermutes(repositories, j, i);
    }
  }

  function RenumberRepository<Rest, Local>(f: int -> int, m: Mirror<Rest, Local>): Mirror<Rest, Local> {
    m.(id := f(m.id))
  }

  function RenumberCustom<Local>(f: int -> int, c: CustomConfig<Local>): CustomConfig<Local> {
    c.(repositoryId := f(c.repositoryId))
  }

  function RenumberRepositories<Rest, Local>(f: int -> int, s: seq<Mirror<Rest, Local>>): seq<Mirror<Rest, Local>> {
    if s == [] then [] else RenumberRepositories(f, s[..|s| - 1]) + [RenumberRepository(f, s[|s| - 1])]
  }

  function RenumberCustoms<Local>(f: int -> int, s: seq<CustomConfig<Local>>): seq<CustomConfig<Local>> {
    if s == [] then [] else [RenumberCustom(f, s[0])] + RenumberCustoms(f, s[1..])
  }

  /** Different ids in the configuration stay different. */
  predicate KeepsApart<Rest, Local>(f: int -> int, repositories: seq<Mirror<Rest, Local>>,
      custom: seq<CustomConfig<Local>>) {
    forall i, k | 0 <= i < |repositories| && 0 <= k < |custom| && f(repositories[i].id) == f(custom[k].repositoryId) ::
      repositories[i].id == custom[k].repositoryId
  }

  lemma {:induction false} SlugOfRenumbered<Rest, Local>(f: int -> int, repositories: seq<Mirror<Rest, Local>>, id: int)
    requires forall i | 0 <= i < |repositories| && f(repositories[i].id) == f(id) :: repositories[i].id == id
    ensures SlugOf(RenumberRepositories(f, repositories), f(id)) == SlugOf(repositories, id)
  {
    hide NormalSlug;
    if repositories != [] {
      var n := |repositories| - 1;
      SlugOfRenumbered(f, repositories[..n], id);
      var renumbered := RenumberRepositories(f, repositories);
      assert renumbered[..|renumbered| - 1] == RenumberRepositories(f, repositories[..n]);
      assert renumbered[|renumbered| - 1] == RenumberRepository(f, repositories[n]);
    }
  }

  lemma {:induction false} CustomsRenumbered<Rest, Local>(f: int -> int, repositories: seq<Mirror<Rest, Local>>,
      custom: seq<CustomConfig<Local>>)
    requires KeepsApart(f, repositories, custom)
    ensures CanonicalCustoms(RenumberRepositories(f, repositories), RenumberCustoms(f, custom)) ==
            CanonicalCustoms(repositories, custom)
  {
    hide SlugOf, NormalContent, TrimSpace, ToLower;
    if custom != [] {
      SlugOfRenumbered(f, repositories, custom[0].repositoryId);
      assert forall k | 0 <= k < |custom| - 1 :: custom[1..][k] == custom[k + 1];
      CustomsRenumbered(f, repositories, custom[1..]);
      assert RenumberCustoms(f, custom)[1..] == RenumberCustoms(f, custom[1..]);
    }
  }

  lemma {:induction false} RepositoriesRenumbered<Rest, Local>(f: int -> int, repositories: seq<Mirror<Rest, Local>>)
    ensures Map(CanonicalRepository, RenumberRepositories(f, repositories)) == Map(CanonicalRepository, repositories)
  {
    hide NormalSlug, NormalHost, Sort, Trim, TrimSpace, ToLower;
    if repositories != [] {
      var n := |repositories| - 1;
      var before, last := RenumberRepositories(f, repositories[..n]), RenumberRepository(f, repositories[n]);
      RepositoriesRenumbered(f, repositories[..n]);
      MapAppend(CanonicalRepository<Rest, Local>, before, [last]);
      MapSnoc(CanonicalRepository<Rest, Local>, repositories, n);
      assert repositories[..n + 1] == repositories && [last][1..] == [];
      assert CanonicalRepository(last) == CanonicalRepository(repositories[n]);
    }
  }

  /** Renumbering the repositories, and the references to them, changes no fingerprint. */
  lemma IdsAreForgotten<Rest, Local>(digest: CanonicalConfig<Rest> -> string, f: int -> int,
                                     repositories: seq<Mirror<Rest, Local>>, custom: seq<CustomConfig<Local>>)
    requires KeepsApart(f, repositories, custom)
    ensures ConfigFingerprint(digest, RenumberRepositories(f, repositories), RenumberCustoms(f, custom)) ==
            ConfigFingerprint(digest, repositories, custom)
  {
    hide Sort, CanonicalRepository, CanonicalCustoms;
    RepositoriesRenumbered(f, repositories);
    CustomsRenumbered(f, repositories, custom);
  }

  // ---------------------------------------------------------------- line endings

  predicate EndsInReturn(s: string) {
    s != "" && s[|s| - 1] == '\r'
  }

  lemma HeadOfSum(a: string, b: string)
    requires a != "" && (!EndsInReturn(a) || b == "" || b[0] != '\n')
    ensures HeadLength(a + b) == HeadLength(a) <= |a| && (a + b)[0] == a[0]
    ensures (a + b)[HeadLength(a)..] == a[HeadLength(a)..] + b
    ensures !EndsInReturn(a[HeadLength(a)..]) || b == "" || b[0] != '\n'
  {
  }

  lemma {:induction false} NormalAppend(a: string, b: string)
    requires !EndsInReturn(a) || b == "" || b[0] != '\n'
    ensures NormalContent(a + b) == NormalContent(a) + NormalContent(b)
  {
    hide HeadLength, NormalHead, EndsInReturn;
    if a == "" {
      assert a + b == b;
    } else {
      HeadOfSum(a, b);
      HeadIsPositive(a);
      NormalAppend(a[HeadLength(a)..], b);
    }
  }

  lemma HeadIsPositive(s: string)
    ensures HeadLength(s) > 0
  {
  }

  lemma NormalLineEnd(b: string)
    ensures NormalContent("\r\n" + b) == "\n" + NormalContent(b) && NormalContent("\n" + b) == "\n" + NormalContent(b)
    ensures NormalContent("\r") == "\n"
  {
    assert ("\r\n" + b)[2..] == b && ("\n" + b)[1..] == b && "\r"[1..] == "";
  }

  /** A line may end in either way without changing the content, exactly unless a carriage
      return comes before the ending. */
  lemma LineEndingsAreForgotten(a: string, b: string)
    ensures NormalContent(a + "\r\n" + b) == NormalContent(a + "\n" + b) <==> !EndsInReturn(a)
  {
    hide NormalContent;
    NormalLineEnd(b);
    assert a + "\r\n" + b == a + ("\r\n" + b) && a + "\n" + b == a + ("\n" + b);
    NormalAppend(a, "\r\n" + b);
    if EndsInReturn(a) {
      var before := a[..|a| - 1];
      assert a == before + "\r" && a + ("\n" + b) == before + ("\r\n" + b);
      NormalAppend(before, "\r");
      NormalAppend(before, "\r\n" + b);
    } else {
      NormalAppend(a, "\n" + b);
    }
  }

  // ---------------------------------------------------------------- capabilities

  function Kinds<Rest, Local>(repositories: seq<Mirror<Rest, Local>>): set<string> {
    set i | 0 <= i < |repositories| && ToLower(TrimSpace(repositories[i].kind)) != "" ::
        ToLower(TrimSpace(repositories[i].kind))
  }

  predicate Increasing(s: seq<string>) {
    forall i, j | 0 <= i < j < |s| :: Less(s[i], s[j])
  }

  lemma {:induction false} OnceEach(s: seq<string>, t: seq<string>)
    requires (forall i, j | 0 <= i < j < |s| :: s[i] != s[j]) && (forall i, j | 0 <= i < j < |t| :: t[i] != t[j])
    requires Elements(s) == Elements(t)
    ensures multiset(s) == multiset(t)
  {
    forall x ensures multiset(s)[x] == multiset(t)[x] {
      AtMostOnce(s, x);
      AtMostOnce(t, x);
      assert x in Elements(s) <==> x in Elements(t);
    }
  }

  lemma {:induction false} AtMostOnce(s: seq<string>, x: string)
    requires forall i, j | 0 <= i < j < |s| :: s[i] != s[j]
    ensures multiset(s)[x] == if x in s then 1 else 0
  {
    if s != [] {
      assert s == [s[0]] + s[1..];
      AtMostOnce(s[1..], x);
    }
  }

  lemma {:induction false} IncreasingSorted(s: seq<string>)
    requires Increasing(s)
    ensures Sorted(Less, s) && forall i, j | 0 <= i < j < |s| :: s[i] != s[j]
  {
    hide Less;
    forall i, j | 0 <= i < j < |s| ensures s[i] != s[j] && !Less(s[j], s[i]) {
      StringOrder(s[i], s[j], s[i]);
      StringOrder(s[j], s[i], s[j]);
      assert Less(s[i], s[j]);
    }
    if s != [] {
      assert forall i, j | 0 <= i < j < |s| - 1 :: s[1..][i] == s[i + 1] && s[1..][j] == s[j + 1];
      IncreasingSorted(s[1..]);
    }
  }

  /** The capabilities are the kinds in increasing order: the order in which a map is walked
      leaves no trace, and neither does the order of the repositories. */
  lemma CapabilitiesAreDetermined(a: seq<string>, b: seq<string>)
    requires Increasing(a) && Increasing(b) && Elements(a) == Elements(b)
    ensures a == b
  {
    hide Less;
    IncreasingSorted(a);
    IncreasingSorted(b);
    OnceEach(a, b);
    StringsTotal(Elements(a));
    SortedUnique(Less, a, b, Elements(a));
  }

  lemma SortIsIncreasing(keys: seq<string>)
    requires forall i, j | 0 <= i < j < |keys| :: keys[i] != keys[j]
    ensures Increasing(Sort(Less, keys)) && Elements(Sort(Less, keys)) == Elements(keys)
  {
    hide Less, Sort;
    var sorted := Sort(Less, keys);
    StringsTotal(Elements(keys));
    SortSorts(Less, keys, Elements(keys));
    SortPermutes(Less, keys);
    assert forall x :: x in keys <==> x in multiset(keys);
    assert forall x :: x in sorted <==> x in multiset(sorted);
    forall i, j | 0 <= i < j < |sorted| ensures Less(sorted[i], sorted[j]) {
      SortedPairs(Less, sorted, i, j);
      StringOrder(sorted[i], sorted[j], sorted[i]);
      if sorted[i] == sorted[j] {
        TwiceCounts(sorted, i, j);
        AtMostOnce(keys, sorted[i]);
      }
    }
  }

  lemma TwiceCounts(s: seq<string>, i: nat, j: nat)
    requires i < j < |s| && s[i] == s[j]
    ensures multiset(s)[s[i]] >= 2
  {
    assert s == s[..j] + s[j..];
    assert s[i] in s[..j] && s[j] in s[j..];
  }

  method ExtractCapabilities<Rest, Local>(repositories: seq<Mirror<Rest, Local>>) returns (caps: seq<string>)
    ensures Increasing(caps) && Elements(caps) == Kinds(repositories)
    ensures forall kind :: kind in caps <==>
                kind != "" && exists i :: 0 <= i < |repositories| && ToLower(TrimSpace(repositories[i].kind)) == kind
  {
    hide Less, Sort, TrimSpace, ToLower;
    var capMap: set<string> := {};
    for i := 0 to |repositories|
      invariant capMap == Kinds(repositories[..i])
    {
      var kind := ToLower(TrimSpace(repositories[i].kind));
      assert repositories[..i + 1] == repositories[..i] + [repositories[i]];
      if kind != "" {
        capMap := capMap + {kind};
      }
    }
    assert repositories[..|repositories|] == repositories;
    caps := [];
    var rest := capMap;
    while rest != {}
      invariant (forall i, j | 0 <= i < j < |caps| :: caps[i] != caps[j])
      invariant Elements(caps) + rest == capMap && forall x | x in rest :: x !in caps
      decreases rest
    {
      var key :| key in rest;
      rest := rest - {key};
      assert Elements(caps + [key]) == Elements(caps) + {key};
      caps := caps + [key];
    }
    SortIsIncreasing(caps);
    caps := Sort(Less, caps);
    assert forall kind :: kind in caps <==> kind in Elements(caps);
  }
}
