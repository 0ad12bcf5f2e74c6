/** The per-kind "less than" relations the sorter hands to a stable sort, and
    the proof that each one is a strict weak ordering. Each relation is also
    shown equal to ordering by an explicit key under a composition of simple
    orders; the strict weak ordering follows from that key. */
module Comparators {
  import opened Envoy
  import opened Ordering
  import LexOrder

  // Resources ordered by name alone.

  predicate RouteConfigurationLess(a: RouteConfiguration, b: RouteConfiguration)
  {
    LexOrder.Less(a.name, b.name)
  }

  predicate VirtualHostLess(a: VirtualHost, b: VirtualHost)
  {
    LexOrder.Less(a.name, b.name)
  }

  predicate SecretLess(a: Secret, b: Secret)
  {
    LexOrder.Less(a.name, b.name)
  }

  predicate ClusterLess(a: Cluster, b: Cluster)
  {
    LexOrder.Less(a.name, b.name)
  }

  predicate ClusterLoadAssignmentLess(a: ClusterLoadAssignment, b: ClusterLoadAssignment)
  {
    LexOrder.Less(a.clusterName, b.clusterName)
  }

  predicate ListenerLess(a: Listener, b: Listener)
  {
    LexOrder.Less(a.name, b.name)
  }

  // Header matchers.

  /** Fixed priority of matcher kinds: exact, then present, then any other. */
  function MatchKindRank(s: HeaderMatchSpecifier): int
  {
    match s
    case ExactMatch(_) => 0
    case PresentMatch(_) => 1
    case OtherMatch(_) => 2
  }

  /** Compares the values of two matchers of the same kind: strings
      lexicographically, the present flag with false before true. */
  predicate MatchValueLess(a: HeaderMatchSpecifier, b: HeaderMatchSpecifier)
  {
    match (a, b)
    case (ExactMatch(x), ExactMatch(y)) => LexOrder.Less(x, y)
    case (PresentMatch(x), PresentMatch(y)) => !x && y
    case (OtherMatch(x), OtherMatch(y)) => LexOrder.Less(x, y)
    case _ => false
  }

  predicate HeaderMatcherLess(a: HeaderMatcher, b: HeaderMatcher)
  {
    if a.name != b.name then LexOrder.Less(a.name, b.name)
    else if MatchKindRank(a.headerMatchSpecifier) != MatchKindRank(b.headerMatchSpecifier) then
      MatchKindRank(a.headerMatchSpecifier) < MatchKindRank(b.headerMatchSpecifier)
    else MatchValueLess(a.headerMatchSpecifier, b.headerMatchSpecifier)
  }

  // Routes.

  /** Regular-expression paths rank before prefix paths. */
  function PathKindRank(p: PathSpecifier): int
  {
    match p
    case SafeRegex(_) => 0
    case Prefix(_) => 1
  }

  function PathText(p: PathSpecifier): string
  {
    match p
    case SafeRegex(regex) => regex
    case Prefix(prefix) => prefix
  }

  /** Path kind first, then the longer path text, then the header matchers
      element by element. */
  predicate RouteLess(a: Route, b: Route)
  {
    var pa, pb := a.routeMatch.pathSpecifier, b.routeMatch.pathSpecifier;
    if PathKindRank(pa) != PathKindRank(pb) then PathKindRank(pa) < PathKindRank(pb)
    else if |PathText(pa)| != |PathText(pb)| then |PathText(pa)| > |PathText(pb)|
    else SeqLess(HeaderMatcherLess, a.routeMatch.headers, b.routeMatch.headers)
  }

  // Weighted clusters.

  predicate ClusterWeightLess(a: ClusterWeight, b: ClusterWeight)
  {
    if a.name != b.name then LexOrder.Less(a.name, b.name) else a.weight < b.weight
  }

  predicate TcpClusterWeightLess(a: TcpClusterWeight, b: TcpClusterWeight)
  {
    if a.name != b.name then LexOrder.Less(a.name, b.name) else a.weight < b.weight
  }

  // Filter chains.

  /** Only the first server name takes part; a chain without server names
      ranks after every chain that has one. */
  predicate FilterChainLess(a: FilterChain, b: FilterChain)
  {
    var x, y := a.filterChainMatch.serverNames, b.filterChainMatch.serverNames;
    if |x| == 0 then false
    else if |y| == 0 then true
    else LexOrder.Less(x[0], y[0])
  }

  // Keys: each comparator is the order of an explicit key.

  function HeaderMatcherKey(h: HeaderMatcher): (string, (int, (string, int)))
  {
    var value := match h.headerMatchSpecifier
      case ExactMatch(v) => (v, 0)
      case PresentMatch(p) => ("", if p then 1 else 0)
      case OtherMatch(v) => (v, 0);
    (h.name, (MatchKindRank(h.headerMatchSpecifier), value))
  }

  function HeaderMatcherKeyLess(): ((string, (int, (string, int))), (string, (int, (string, int)))) -> bool
  {
    ThenBy(LexOrder.Less, ThenBy(IntLess, ThenBy(LexOrder.Less, IntLess)))
  }

  function RouteKey(r: Route): (int, (int, seq<HeaderMatcher>))
  {
    var p := r.routeMatch.pathSpecifier;
    (PathKindRank(p), (-|PathText(p)|, r.routeMatch.headers))
  }

  function RouteKeyLess(): ((int, (int, seq<HeaderMatcher>)), (int, (int, seq<HeaderMatcher>))) -> bool
  {
    ThenBy(IntLess, ThenBy(IntLess, (x, y) => SeqLess(HeaderMatcherLess, x, y)))
  }

  /** A chain without server names keys as (1, ""); one with names as
      (0, first name). */
  function FilterChainKey(c: FilterChain): (int, string)
  {
    var names := c.filterChainMatch.serverNames;
    if |names| == 0 then (1, "") else (0, names[0])
  }

  /** Equal names are the only names that rank equal. */
  lemma NameEquivalence(a: string, b: string)
    ensures Equivalent(LexOrder.Less, a, b) <==> a == b
  {
    LexOrder.LessTrichotomous(a, b);
    LexOrder.LessIrreflexive(a);
  }

  lemma NameOrderIsStrictWeakOrder<T(!new)>(less: (T, T) -> bool, name: T -> string)
    requires forall a, b :: less(a, b) == LexOrder.Less(name(a), name(b))
    ensures StrictWeakOrder(less)
  {
    LexOrder.LessIsStrictWeakOrder();
    PullBack(less, LexOrder.Less, name);
  }

  lemma RouteConfigurationLessIsStrictWeakOrder()
    ensures StrictWeakOrder(RouteConfigurationLess)
  {
    NameOrderIsStrictWeakOrder(RouteConfigurationLess, (r: RouteConfiguration) => r.name);
  }

  lemma VirtualHostLessIsStrictWeakOrder()
    ensures StrictWeakOrder(VirtualHostLess)
  {
    NameOrderIsStrictWeakOrder(VirtualHostLess, (v: VirtualHost) => v.name);
  }

  lemma SecretLessIsStrictWeakOrder()
    ensures StrictWeakOrder(SecretLess)
  {
    NameOrderIsStrictWeakOrder(SecretLess, (s: Secret) => s.name);
  }

  lemma ClusterLessIsStrictWeakOrder()
    ensures StrictWeakOrder(ClusterLess)
  {
    NameOrderIsStrictWeakOrder(ClusterLess, (c: Cluster) => c.name);
  }

  lemma ClusterLoadAssignmentLessIsStrictWeakOrder()
    ensures StrictWeakOrder(ClusterLoadAssignmentLess)
  {
    NameOrderIsStrictWeakOrder(ClusterLoadAssignmentLess, (c: ClusterLoadAssignment) => c.clusterName);
  }

  lemma ListenerLessIsStrictWeakOrder()
    ensures StrictWeakOrder(ListenerLess)
  {
    NameOrderIsStrictWeakOrder(ListenerLess, (l: Listener) => l.name);
  }

  lemma HeaderMatcherLessByKey(a: HeaderMatcher, b: HeaderMatcher)
    ensures HeaderMatcherLess(a, b) == HeaderMatcherKeyLess()(HeaderMatcherKey(a), HeaderMatcherKey(b))
  {
    var ka, kb := HeaderMatcherKey(a), HeaderMatcherKey(b);
    NameEquivalence(a.name, b.name);
    NameEquivalence(ka.1.1.0, kb.1.1.0);
    assert Equivalent(IntLess, ka.1.0, kb.1.0) == (ka.1.0 == kb.1.0);
    assert IntLess(ka.1.1.1, kb.1.1.1) == (ka.1.1.1 < kb.1.1.1);
    match (a.headerMatchSpecifier, b.headerMatchSpecifier)
    case (PresentMatch(x), PresentMatch(y)) =>
      LexOrder.LessIrreflexive("");
    case _ =>
  }

  lemma HeaderMatcherLessIsStrictWeakOrder()
    ensures StrictWeakOrder(HeaderMatcherLess)
  {
    LexOrder.LessIsStrictWeakOrder();
    IntLessIsStrictWeakOrder();
    ThenByIsStrictWeakOrder(LexOrder.Less, IntLess);
    ThenByIsStrictWeakOrder(IntLess, ThenBy(LexOrder.Less, IntLess));
    ThenByIsStrictWeakOrder(LexOrder.Less, ThenBy(IntLess, ThenBy(LexOrder.Less, IntLess)));
    forall a, b
      ensures HeaderMatcherLess(a, b) == HeaderMatcherKeyLess()(HeaderMatcherKey(a), HeaderMatcherKey(b))
    {
      HeaderMatcherLessByKey(a, b);
    }
    PullBack(HeaderMatcherLess, HeaderMatcherKeyLess(), HeaderMatcherKey);
  }

  lemma RouteLessIsStrictWeakOrder()
    ensures StrictWeakOrder(RouteLess)
  {
    HeaderMatcherLessIsStrictWeakOrder();
    SeqLessIsStrictWeakOrder(HeaderMatcherLess);
    IntLessIsStrictWeakOrder();
    var headersLess := (x, y) => SeqLess(HeaderMatcherLess, x, y);
    ThenByIsStrictWeakOrder(IntLess, headersLess);
    ThenByIsStrictWeakOrder(IntLess, ThenBy(IntLess, headersLess));
    PullBack(RouteLess, RouteKeyLess(), RouteKey);
  }

  lemma ClusterWeightLessIsStrictWeakOrder()
    ensures StrictWeakOrder(ClusterWeightLess)
  {
    LexOrder.LessIsStrictWeakOrder();
    IntLessIsStrictWeakOrder();
    ThenByIsStrictWeakOrder(LexOrder.Less, IntLess);
    forall a, b
      ensures ClusterWeightLess(a, b) == ThenBy(LexOrder.Less, IntLess)((a.name, a.weight as int), (b.name, b.weight as int))
    {
      NameEquivalence(a.name, b.name);
    }
    PullBack(ClusterWeightLess, ThenBy(LexOrder.Less, IntLess), (c: ClusterWeight) => (c.name, c.weight as int));
  }

  lemma TcpClusterWeightLessIsStrictWeakOrder()
    ensures StrictWeakOrder(TcpClusterWeightLess)
  {
    LexOrder.LessIsStrictWeakOrder();
    IntLessIsStrictWeakOrder();
    ThenByIsStrictWeakOrder(LexOrder.Less, IntLess);
    forall a, b
      ensures TcpClusterWeightLess(a, b) == ThenBy(LexOrder.Less, IntLess)((a.name, a.weight as int), (b.name, b.weight as int))
    {
      NameEquivalence(a.name, b.name);
    }
    PullBack(TcpClusterWeightLess, ThenBy(LexOrder.Less, IntLess), (c: TcpClusterWeight) => (c.name, c.weight as int));
  }

  lemma FilterChainLessIsStrictWeakOrder()
    ensures StrictWeakOrder(FilterChainLess)
  {
    LexOrder.LessIsStrictWeakOrder();
    IntLessIsStrictWeakOrder();
    ThenByIsStrictWeakOrder(IntLess, LexOrder.Less);
    forall a, b
      ensures FilterChainLess(a, b) == ThenBy(IntLess, LexOrder.Less)(FilterChainKey(a), FilterChainKey(b))
    {
      var ka, kb := FilterChainKey(a), FilterChainKey(b);
      LexOrder.LessIrreflexive("");
      assert IntLess(ka.0, kb.0) == (ka.0 < kb.0);
      assert Equivalent(IntLess, ka.0, kb.0) == (ka.0 == kb.0);
    }
    PullBack(FilterChainLess, ThenBy(IntLess, LexOrder.Less), FilterChainKey);
  }

  // The precedence rules, each stated for all inputs.

  /** Route configurations tie exactly when their names are equal, so the
      stable sort decides the order of same-named ones alone. */
  lemma RouteConfigurationTies(a: RouteConfiguration, b: RouteConfiguration)
    ensures Equivalent(RouteConfigurationLess, a, b) <==> a.name == b.name
  {
    NameEquivalence(a.name, b.name);
  }

  lemma VirtualHostTies(a: VirtualHost, b: VirtualHost)
    ensures Equivalent(VirtualHostLess, a, b) <==> a.name == b.name
  {
    NameEquivalence(a.name, b.name);
  }

  /** A regular-expression route ranks before every prefix route, whatever
      the lengths of their texts. */
  lemma RegexBeforePrefix(a: Route, b: Route)
    requires a.routeMatch.pathSpecifier.SafeRegex? && b.routeMatch.pathSpecifier.Prefix?
    ensures RouteLess(a, b) && !RouteLess(b, a)
  {
  }

  /** Within one kind, the longer path text ranks first. */
  lemma LongerPathFirst(a: Route, b: Route)
    requires PathKindRank(a.routeMatch.pathSpecifier) == PathKindRank(b.routeMatch.pathSpecifier)
    requires |PathText(a.routeMatch.pathSpecifier)| > |PathText(b.routeMatch.pathSpecifier)|
    ensures RouteLess(a, b) && !RouteLess(b, a)
  {
  }

  /** Routes of the same kind and path length are ordered by their first
      differing header matcher. */
  lemma RouteHeadersDecide(a: Route, b: Route, k: nat)
    requires PathKindRank(a.routeMatch.pathSpecifier) == PathKindRank(b.routeMatch.pathSpecifier)
    requires |PathText(a.routeMatch.pathSpecifier)| == |PathText(b.routeMatch.pathSpecifier)|
    requires k < |a.routeMatch.headers| && k < |b.routeMatch.headers|
    requires forall i :: 0 <= i < k ==> a.routeMatch.headers[i] == b.routeMatch.headers[i]
    requires HeaderMatcherLess(a.routeMatch.headers[k], b.routeMatch.headers[k])
    ensures RouteLess(a, b)
  {
    HeaderMatcherLessIsStrictWeakOrder();
    SeqLessAt(a.routeMatch.headers, b.routeMatch.headers, k);
  }

  lemma {:induction false} SeqLessAt(x: seq<HeaderMatcher>, y: seq<HeaderMatcher>, k: nat)
    requires StrictWeakOrder(HeaderMatcherLess)
    requires k < |x| && k < |y|
    requires forall i :: 0 <= i < k ==> x[i] == y[i]
    requires HeaderMatcherLess(x[k], y[k])
    ensures SeqLess(HeaderMatcherLess, x, y)
    decreases k
  {
    if k > 0 {
      assert !HeaderMatcherLess(x[0], y[0]) && !HeaderMatcherLess(y[0], x[0]) by {
        assert x[0] == y[0];
      }
      assert forall i :: 0 <= i < k - 1 ==> x[1..][i] == x[i + 1];
      assert forall i :: 0 <= i < k - 1 ==> y[1..][i] == y[i + 1];
      SeqLessAt(x[1..], y[1..], k - 1);
    }
  }

  /** Header matchers with the same name: an exact match before a presence
      match. */
  lemma ExactBeforePresent(a: HeaderMatcher, b: HeaderMatcher)
    requires a.name == b.name
    requires a.headerMatchSpecifier.ExactMatch? && b.headerMatchSpecifier.PresentMatch?
    ensures HeaderMatcherLess(a, b) && !HeaderMatcherLess(b, a)
  {
  }

  /** Weighted clusters tie only when they are the same record. */
  lemma ClusterWeightTies(a: ClusterWeight, b: ClusterWeight)
    ensures Equivalent(ClusterWeightLess, a, b) <==> a == b
  {
    NameEquivalence(a.name, b.name);
  }

  lemma TcpClusterWeightTies(a: TcpClusterWeight, b: TcpClusterWeight)
    ensures Equivalent(TcpClusterWeightLess, a, b) <==> a == b
  {
    NameEquivalence(a.name, b.name);
  }

  /** A chain without server names ranks after every chain with one. */
  lemma FilterChainsWithoutNamesLast(a: FilterChain, b: FilterChain)
    requires |a.filterChainMatch.serverNames| == 0 && |b.filterChainMatch.serverNames| > 0
    ensures FilterChainLess(b, a) && !FilterChainLess(a, b)
  {
  }

  /** Chains with server names tie exactly when their first names are equal:
      the later names play no part. */
  lemma FilterChainTies(a: FilterChain, b: FilterChain)
    requires |a.filterChainMatch.serverNames| > 0 && |b.filterChainMatch.serverNames| > 0
    ensures Equivalent(FilterChainLess, a, b) <==>
      a.filterChainMatch.serverNames[0] == b.filterChainMatch.serverNames[0]
  {
    NameEquivalence(a.filterChainMatch.serverNames[0], b.filterChainMatch.serverNames[0]);
  }
}
