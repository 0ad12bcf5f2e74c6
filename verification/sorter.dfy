/** The resource sorter. `For` picks the ordering for one collection of one
    resource kind and `Stable` applies it with a stable sort, the pair standing
    for the Go idiom `sort.Stable(For(collection))`. The set of kinds is
    closed: a collection of any other kind has no sorter. */
module ResourceSorter {
  import opened Wrappers
  import opened Envoy
  import opened Comparators
  import StableSort

  /** A homogeneous collection of one resource kind. `Unsupported` stands for
      a collection of any kind the sorter does not know, such as plain strings. */
  datatype Collection =
    | RouteConfigurations(routeConfigurations: seq<RouteConfiguration>)
    | VirtualHosts(virtualHosts: seq<VirtualHost>)
    | Routes(routes: seq<Route>)
    | HeaderMatchers(headerMatchers: seq<HeaderMatcher>)
    | Secrets(secrets: seq<Secret>)
    | Clusters(clusters: seq<Cluster>)
    | ClusterLoadAssignments(clusterLoadAssignments: seq<ClusterLoadAssignment>)
    | ClusterWeights(clusterWeights: seq<ClusterWeight>)
    | TcpClusterWeights(tcpClusterWeights: seq<TcpClusterWeight>)
    | Listeners(listeners: seq<Listener>)
    | FilterChains(filterChains: seq<FilterChain>)
    | Unsupported(values: seq<string>)

  /** One ordering per supported kind. */
  datatype Sorter =
    | RouteConfigurationSorter
    | VirtualHostSorter
    | RouteSorter
    | HeaderMatcherSorter
    | SecretSorter
    | ClusterSorter
    | ClusterLoadAssignmentSorter
    | ClusterWeightSorter
    | TcpClusterWeightSorter
    | ListenerSorter
    | FilterChainSorter

  /** True when `s` orders elements of the kind `c` holds. */
  predicate Orders(s: Sorter, c: Collection)
  {
    match s
    case RouteConfigurationSorter => c.RouteConfigurations?
    case VirtualHostSorter => c.VirtualHosts?
    case RouteSorter => c.Routes?
    case HeaderMatcherSorter => c.HeaderMatchers?
    case SecretSorter => c.Secrets?
    case ClusterSorter => c.Clusters?
    case ClusterLoadAssignmentSorter => c.ClusterLoadAssignments?
    case ClusterWeightSorter => c.ClusterWeights?
    case TcpClusterWeightSorter => c.TcpClusterWeights?
    case ListenerSorter => c.Listeners?
    case FilterChainSorter => c.FilterChains?
  }

  /** The sorter for the collection's kind; none for an unsupported kind. */
  function For(c: Collection): (r: Option<Sorter>)
    ensures r.None? <==> c.Unsupported?
    ensures r.Some? ==> Orders(r.value, c)
    ensures forall s :: Orders(s, c) ==> r == Some(s)
  {
    match c
    case RouteConfigurations(_) => Some(RouteConfigurationSorter)
    case VirtualHosts(_) => Some(VirtualHostSorter)
    case Routes(_) => Some(RouteSorter)
    case HeaderMatchers(_) => Some(HeaderMatcherSorter)
    case Secrets(_) => Some(SecretSorter)
    case Clusters(_) => Some(ClusterSorter)
    case ClusterLoadAssignments(_) => Some(ClusterLoadAssignmentSorter)
    case ClusterWeights(_) => Some(ClusterWeightSorter)
    case TcpClusterWeights(_) => Some(TcpClusterWeightSorter)
    case Listeners(_) => Some(ListenerSorter)
    case FilterChains(_) => Some(FilterChainSorter)
    case Unsupported(_) => None
  }

  function SortBy<T(!new)>(s: seq<T>, less: (T, T) -> bool): (r: seq<T>)
    requires Ordering.StrictWeakOrder(less)
    ensures StableSort.IsStableSortOf(s, r, less)
  {
    StableSort.InsertionSortProperties(s, less);
    StableSort.InsertionSort(s, less)
  }

  /** `r` is `c` sorted stably under the ordering of `c`'s kind; a collection
      of an unsupported kind is left as it is. */
  ghost predicate SortsCollection(c: Collection, r: Collection)
  {
    match c
    case RouteConfigurations(xs) =>
      r.RouteConfigurations? && StableSort.IsStableSortOf(xs, r.routeConfigurations, RouteConfigurationLess)
    case VirtualHosts(xs) =>
      r.VirtualHosts? && StableSort.IsStableSortOf(xs, r.virtualHosts, VirtualHostLess)
    case Routes(xs) =>
      r.Routes? && StableSort.IsStableSortOf(xs, r.routes, RouteLess)
    case HeaderMatchers(xs) =>
      r.HeaderMatchers? && StableSort.IsStableSortOf(xs, r.headerMatchers, HeaderMatcherLess)
    case Secrets(xs) =>
      r.Secrets? && StableSort.IsStableSortOf(xs, r.secrets, SecretLess)
    case Clusters(xs) =>
      r.Clusters? && StableSort.IsStableSortOf(xs, r.clusters, ClusterLess)
    case ClusterLoadAssignments(xs) =>
      r.ClusterLoadAssignments? && StableSort.IsStableSortOf(xs, r.clusterLoadAssignments, ClusterLoadAssignmentLess)
    case ClusterWeights(xs) =>
      r.ClusterWeights? && StableSort.IsStableSortOf(xs, r.clusterWeights, ClusterWeightLess)
    case TcpClusterWeights(xs) =>
      r.TcpClusterWeights? && StableSort.IsStableSortOf(xs, r.tcpClusterWeights, TcpClusterWeightLess)
    case Listeners(xs) =>
      r.Listeners? && StableSort.IsStableSortOf(xs, r.listeners, ListenerLess)
    case FilterChains(xs) =>
      r.FilterChains? && StableSort.IsStableSortOf(xs, r.filterChains, FilterChainLess)
    case Unsupported(_) => r == c
  }

  /** Sorts `c` with the ordering the sorter `s` stands for. */
  function SortWith(s: Sorter, c: Collection): (r: Collection)
    requires Orders(s, c)
    ensures SortsCollection(c, r)
  {
    match s
    case RouteConfigurationSorter =>
      RouteConfigurationLessIsStrictWeakOrder();
      RouteConfigurations(SortBy(c.routeConfigurations, RouteConfigurationLess))
    case VirtualHostSorter =>
      VirtualHostLessIsStrictWeakOrder();
      VirtualHosts(SortBy(c.virtualHosts, VirtualHostLess))
    case RouteSorter =>
      RouteLessIsStrictWeakOrder();
      Routes(SortBy(c.routes, RouteLess))
    case HeaderMatcherSorter =>
      HeaderMatcherLessIsStrictWeakOrder();
      HeaderMatchers(SortBy(c.headerMatchers, HeaderMatcherLess))
    case SecretSorter =>
      SecretLessIsStrictWeakOrder();
      Secrets(SortBy(c.secrets, SecretLess))
    case ClusterSorter =>
      ClusterLessIsStrictWeakOrder();
      Clusters(SortBy(c.clusters, ClusterLess))
    case ClusterLoadAssignmentSorter =>
      ClusterLoadAssignmentLessIsStrictWeakOrder();
      ClusterLoadAssignments(SortBy(c.clusterLoadAssignments, ClusterLoadAssignmentLess))
    case ClusterWeightSorter =>
      ClusterWeightLessIsStrictWeakOrder();
      ClusterWeights(SortBy(c.clusterWeights, ClusterWeightLess))
    case TcpClusterWeightSorter =>
      TcpClusterWeightLessIsStrictWeakOrder();
      TcpClusterWeights(SortBy(c.tcpClusterWeights, TcpClusterWeightLess))
    case ListenerSorter =>
      ListenerLessIsStrictWeakOrder();
      Listeners(SortBy(c.listeners, ListenerLess))
    case FilterChainSorter =>
      FilterChainLessIsStrictWeakOrder();
      FilterChains(SortBy(c.filterChains, FilterChainLess))
  }

  /** `sort.Stable(For(c))`: sorts the collection stably with the sorter `For`
      picks. The result holds the same kind; a collection without a sorter
      comes back unchanged. */
  function Stable(c: Collection): (r: Collection)
    ensures For(r) == For(c)
    ensures SortsCollection(c, r)
  {
    match For(c)
    case None => c
    case Some(s) => SortWith(s, c)
  }

  /** Sorting a sorted collection again changes nothing. */
  lemma StableIdempotent(c: Collection)
    ensures Stable(Stable(c)) == Stable(c)
  {
    var r := Stable(c);
    match r
    case RouteConfigurations(xs) => StableSort.InsertionSortIdempotent(xs, RouteConfigurationLess);
    case VirtualHosts(xs) => StableSort.InsertionSortIdempotent(xs, VirtualHostLess);
    case Routes(xs) => StableSort.InsertionSortIdempotent(xs, RouteLess);
    case HeaderMatchers(xs) => StableSort.InsertionSortIdempotent(xs, HeaderMatcherLess);
    case Secrets(xs) => StableSort.InsertionSortIdempotent(xs, SecretLess);
    case Clusters(xs) => StableSort.InsertionSortIdempotent(xs, ClusterLess);
    case ClusterLoadAssignments(xs) => StableSort.InsertionSortIdempotent(xs, ClusterLoadAssignmentLess);
    case ClusterWeights(xs) => StableSort.InsertionSortIdempotent(xs, ClusterWeightLess);
    case TcpClusterWeights(xs) => StableSort.InsertionSortIdempotent(xs, TcpClusterWeightLess);
    case Listeners(xs) => StableSort.InsertionSortIdempotent(xs, ListenerLess);
    case FilterChains(xs) => StableSort.InsertionSortIdempotent(xs, FilterChainLess);
    case Unsupported(_) =>
  }
}
