/** The sorter's test cases: each input collection sorts to exactly the
    expected sequence, and a collection of an unsupported kind has no sorter.
    Each `...Steps` lemma replays the insertion sort one element at a time. */
module SorterCases {
  import opened Wrappers
  import opened Envoy
  import opened Comparators
  import opened ResourceSorter
  import StableSort

  // Replaying an insertion sort: given each insertion's result, the sort of
  // the whole input is the last one.

  lemma SortTwo<T>(a: T, b: T, less: (T, T) -> bool, s2: seq<T>)
    requires StableSort.Insert([a], b, less) == s2
    ensures StableSort.InsertionSort([a, b], less) == s2
  {
    StableSort.InsertionSortSnoc([], a, less);
    StableSort.InsertionSortSnoc([a], b, less);
    assert [a] + [b] == [a, b];
  }

  lemma SortThree<T>(a: T, b: T, c: T, less: (T, T) -> bool, s2: seq<T>, s3: seq<T>)
    requires StableSort.Insert([a], b, less) == s2
    requires StableSort.Insert(s2, c, less) == s3
    ensures StableSort.InsertionSort([a, b, c], less) == s3
  {
    SortTwo(a, b, less, s2);
    StableSort.InsertionSortSnoc([a, b], c, less);
    assert [a, b] + [c] == [a, b, c];
  }

  lemma SortFour<T>(a: T, b: T, c: T, d: T, less: (T, T) -> bool, s2: seq<T>, s3: seq<T>, s4: seq<T>)
    requires StableSort.Insert([a], b, less) == s2
    requires StableSort.Insert(s2, c, less) == s3
    requires StableSort.Insert(s3, d, less) == s4
    ensures StableSort.InsertionSort([a, b, c, d], less) == s4
  {
    SortThree(a, b, c, less, s2, s3);
    StableSort.InsertionSortSnoc([a, b, c], d, less);
    assert [a, b, c] + [d] == [a, b, c, d];
  }

  lemma SortFive<T>(a: T, b: T, c: T, d: T, e: T, less: (T, T) -> bool,
                    s2: seq<T>, s3: seq<T>, s4: seq<T>, s5: seq<T>)
    requires StableSort.Insert([a], b, less) == s2
    requires StableSort.Insert(s2, c, less) == s3
    requires StableSort.Insert(s3, d, less) == s4
    requires StableSort.Insert(s4, e, less) == s5
    ensures StableSort.InsertionSort([a, b, c, d, e], less) == s5
  {
    SortFour(a, b, c, d, less, s2, s3, s4);
    StableSort.InsertionSortSnoc([a, b, c, d], e, less);
    assert [a, b, c, d] + [e] == [a, b, c, d, e];
  }

  lemma InvalidSorter()
    ensures For(Unsupported(["invalid"])) == None
  {
  }

  /** Route configurations by name; the two named "same" keep their input order. */
  lemma SortRouteConfiguration()
    ensures Stable(RouteConfigurations(SortRouteConfigurationHave())) == RouteConfigurations(SortRouteConfigurationWant())
  {
    SortRouteConfigurationSteps();
  }

  lemma SortRouteConfigurationSteps()
    ensures StableSort.InsertionSort(SortRouteConfigurationHave(), RouteConfigurationLess) == SortRouteConfigurationWant()
  {
    var w := SortRouteConfigurationWant();
    SortRouteConfigurationInsert1();
    SortRouteConfigurationInsert2();
    SortRouteConfigurationInsert3();
    SortRouteConfigurationInsert4();
    SortFive(w[3], w[4], w[2], w[1], w[0], RouteConfigurationLess, [w[3], w[4]], [w[2], w[3], w[4]], [w[1], w[2], w[3], w[4]], [w[0], w[1], w[2], w[3], w[4]]);
  }

  lemma SortRouteConfigurationInsert1()
    ensures var w := SortRouteConfigurationWant();
      StableSort.Insert([w[3]], w[4], RouteConfigurationLess) == [w[3], w[4]]
  {
    var w := SortRouteConfigurationWant();
    var less := RouteConfigurationLess;
    assert !less(w[4], w[3]);
    assert StableSort.Insert([], w[4], less) == [w[4]];
  }

  lemma SortRouteConfigurationInsert2()
    ensures var w := SortRouteConfigurationWant();
      StableSort.Insert([w[3], w[4]], w[2], RouteConfigurationLess) == [w[2], w[3], w[4]]
  {
    var w := SortRouteConfigurationWant();
    var less := RouteConfigurationLess;
    assert less(w[2], w[3]);
  }

  lemma SortRouteConfigurationInsert3()
    ensures var w := SortRouteConfigurationWant();
      StableSort.Insert([w[2], w[3], w[4]], w[1], RouteConfigurationLess) == [w[1], w[2], w[3], w[4]]
  {
    var w := SortRouteConfigurationWant();
    var less := RouteConfigurationLess;
    assert less(w[1], w[2]);
  }

  lemma SortRouteConfigurationInsert4()
    ensures var w := SortRouteConfigurationWant();
      StableSort.Insert([w[1], w[2], w[3], w[4]], w[0], RouteConfigurationLess) == [w[0], w[1], w[2], w[3], w[4]]
  {
    var w := SortRouteConfigurationWant();
    var less := RouteConfigurationLess;
    assert less(w[0], w[1]);
  }

  function SortRouteConfigurationWant(): seq<RouteConfiguration>
  {
    [ RouteConfiguration("bar", []),
      RouteConfiguration("baz", []),
      RouteConfiguration("foo", []),
      RouteConfiguration("same", ["z", "y"]),
      RouteConfiguration("same", ["a", "b"])
    ]
  }

  /** The input order of the test: want[3], want[4], want[2], want[1], want[0]. */
  function SortRouteConfigurationHave(): seq<RouteConfiguration>
  {
    var want := SortRouteConfigurationWant();
    [want[3], want[4], want[2], want[1], want[0]]
  }

  /** Virtual hosts by name; the two named "same" keep their input order. */
  lemma SortVirtualHosts()
    ensures Stable(VirtualHosts(SortVirtualHostsHave())) == VirtualHosts(SortVirtualHostsWant())
  {
    SortVirtualHostsSteps();
  }

  lemma SortVirtualHostsSteps()
    ensures StableSort.InsertionSort(SortVirtualHostsHave(), VirtualHostLess) == SortVirtualHostsWant()
  {
    var w := SortVirtualHostsWant();
    SortVirtualHostsInsert1();
    SortVirtualHostsInsert2();
    SortVirtualHostsInsert3();
    SortVirtualHostsInsert4();
    SortFive(w[3], w[4], w[2], w[1], w[0], VirtualHostLess, [w[3], w[4]], [w[2], w[3], w[4]], [w[1], w[2], w[3], w[4]], [w[0], w[1], w[2], w[3], w[4]]);
  }

  lemma SortVirtualHostsInsert1()
    ensures var w := SortVirtualHostsWant();
      StableSort.Insert([w[3]], w[4], VirtualHostLess) == [w[3], w[4]]
  {
    var w := SortVirtualHostsWant();
    var less := VirtualHostLess;
    assert !less(w[4], w[3]);
    assert StableSort.Insert([], w[4], less) == [w[4]];
  }

  lemma SortVirtualHostsInsert2()
    ensures var w := SortVirtualHostsWant();
      StableSort.Insert([w[3], w[4]], w[2], VirtualHostLess) == [w[2], w[3], w[4]]
  {
    var w := SortVirtualHostsWant();
    var less := VirtualHostLess;
    assert less(w[2], w[3]);
  }

  lemma SortVirtualHostsInsert3()
    ensures var w := SortVirtualHostsWant();
      StableSort.Insert([w[2], w[3], w[4]], w[1], VirtualHostLess) == [w[1], w[2], w[3], w[4]]
  {
    var w := SortVirtualHostsWant();
    var less := VirtualHostLess;
    assert less(w[1], w[2]);
  }

  lemma SortVirtualHostsInsert4()
    ensures var w := SortVirtualHostsWant();
      StableSort.Insert([w[1], w[2], w[3], w[4]], w[0], VirtualHostLess) == [w[0], w[1], w[2], w[3], w[4]]
  {
    var w := SortVirtualHostsWant();
    var less := VirtualHostLess;
    assert less(w[0], w[1]);
  }

  function SortVirtualHostsWant(): seq<VirtualHost>
  {
    [ VirtualHost("bar", []),
      VirtualHost("baz", []),
      VirtualHost("foo", []),
      VirtualHost("same", ["z", "y"]),
      VirtualHost("same", ["a", "b"])
    ]
  }

  /** The input order of the test: want[3], want[4], want[2], want[1], want[0]. */
  function SortVirtualHostsHave(): seq<VirtualHost>
  {
    var want := SortVirtualHostsWant();
    [want[3], want[4], want[2], want[1], want[0]]
  }

  /** Regular-expression routes before prefix routes, whatever their length; the longer path first within a kind. */
  lemma SortRoutesLongestPath()
    ensures Stable(Routes(SortRoutesLongestPathHave())) == Routes(SortRoutesLongestPathWant())
  {
    SortRoutesLongestPathSteps();
  }

  lemma SortRoutesLongestPathSteps()
    ensures StableSort.InsertionSort(SortRoutesLongestPathHave(), RouteLess) == SortRoutesLongestPathWant()
  {
    var w := SortRoutesLongestPathWant();
    SortRoutesLongestPathInsert1();
    SortRoutesLongestPathInsert2();
    SortRoutesLongestPathInsert3();
    SortFour(w[1], w[3], w[0], w[2], RouteLess, [w[1], w[3]], [w[0], w[1], w[3]], [w[0], w[1], w[2], w[3]]);
  }

  lemma SortRoutesLongestPathInsert1()
    ensures var w := SortRoutesLongestPathWant();
      StableSort.Insert([w[1]], w[3], RouteLess) == [w[1], w[3]]
  {
    var w := SortRoutesLongestPathWant();
    var less := RouteLess;
    assert !less(w[3], w[1]);
    assert StableSort.Insert([], w[3], less) == [w[3]];
  }

  lemma SortRoutesLongestPathInsert2()
    ensures var w := SortRoutesLongestPathWant();
      StableSort.Insert([w[1], w[3]], w[0], RouteLess) == [w[0], w[1], w[3]]
  {
    var w := SortRoutesLongestPathWant();
    var less := RouteLess;
    assert less(w[0], w[1]);
  }

  lemma SortRoutesLongestPathInsert3()
    ensures var w := SortRoutesLongestPathWant();
      StableSort.Insert([w[0], w[1], w[3]], w[2], RouteLess) == [w[0], w[1], w[2], w[3]]
  {
    var w := SortRoutesLongestPathWant();
    var less := RouteLess;
    assert !less(w[2], w[0]);
    assert !less(w[2], w[1]);
    assert less(w[2], w[3]);
    assert StableSort.Insert([w[3]], w[2], less) == [w[2], w[3]];
    assert StableSort.Insert([w[1], w[3]], w[2], less) == [w[1], w[2], w[3]];
  }

  function SortRoutesLongestPathWant(): seq<Route>
  {
    [ Route(RouteMatch(SafeRegex("/this/is/the/longest"), [])),
      Route(RouteMatch(SafeRegex("."), [])),
      Route(RouteMatch(Prefix("/path/prefix2"), [])),
      Route(RouteMatch(Prefix("/path/prefix"), []))
    ]
  }

  /** The input order of the test: want[1], want[3], want[0], want[2]. */
  function SortRoutesLongestPathHave(): seq<Route>
  {
    var want := SortRoutesLongestPathWant();
    [want[1], want[3], want[0], want[2]]
  }

  /** Routes with the same prefix, ordered by their header matchers. */
  lemma SortRoutesLongestHeaders()
    ensures Stable(Routes(SortRoutesLongestHeadersHave())) == Routes(SortRoutesLongestHeadersWant())
  {
    SortRoutesLongestHeadersSteps();
  }

  lemma SortRoutesLongestHeadersSteps()
    ensures StableSort.InsertionSort(SortRoutesLongestHeadersHave(), RouteLess) == SortRoutesLongestHeadersWant()
  {
    var w := SortRoutesLongestHeadersWant();
    SortRoutesLongestHeadersInsert1();
    SortRoutesLongestHeadersInsert2();
    SortThree(w[1], w[0], w[2], RouteLess, [w[0], w[1]], [w[0], w[1], w[2]]);
  }

  lemma SortRoutesLongestHeadersInsert1()
    ensures var w := SortRoutesLongestHeadersWant();
      StableSort.Insert([w[1]], w[0], RouteLess) == [w[0], w[1]]
  {
    var w := SortRoutesLongestHeadersWant();
    var less := RouteLess;
    assert less(w[0], w[1]);
  }

  lemma SortRoutesLongestHeadersInsert2()
    ensures var w := SortRoutesLongestHeadersWant();
      StableSort.Insert([w[0], w[1]], w[2], RouteLess) == [w[0], w[1], w[2]]
  {
    var w := SortRoutesLongestHeadersWant();
    var less := RouteLess;
    assert !less(w[2], w[0]);
    assert !less(w[2], w[1]);
    assert StableSort.Insert([], w[2], less) == [w[2]];
    assert StableSort.Insert([w[1]], w[2], less) == [w[1], w[2]];
  }

  function SortRoutesLongestHeadersWant(): seq<Route>
  {
    [ Route(RouteMatch(Prefix("/path"), [HeaderMatcher("header-name", ExactMatch("header-value"))])),
      Route(RouteMatch(Prefix("/path"), [HeaderMatcher("header-name", PresentMatch(true))])),
      Route(RouteMatch(Prefix("/path"), [HeaderMatcher("long-header-name", ExactMatch("long-header-value"))]))
    ]
  }

  /** The input order of the test: want[1], want[0], want[2]. */
  function SortRoutesLongestHeadersHave(): seq<Route>
  {
    var want := SortRoutesLongestHeadersWant();
    [want[1], want[0], want[2]]
  }

  /** Secrets by name. */
  lemma SortSecrets()
    ensures Stable(Secrets(SortSecretsHave())) == Secrets(SortSecretsWant())
  {
    SortSecretsSteps();
  }

  lemma SortSecretsSteps()
    ensures StableSort.InsertionSort(SortSecretsHave(), SecretLess) == SortSecretsWant()
  {
    var w := SortSecretsWant();
    SortSecretsInsert1();
    SortTwo(w[1], w[0], SecretLess, [w[0], w[1]]);
  }

  lemma SortSecretsInsert1()
    ensures var w := SortSecretsWant();
      StableSort.Insert([w[1]], w[0], SecretLess) == [w[0], w[1]]
  {
    var w := SortSecretsWant();
    var less := SecretLess;
    assert less(w[0], w[1]);
  }

  function SortSecretsWant(): seq<Secret>
  {
    [ Secret("first"),
      Secret("second")
    ]
  }

  /** The input order of the test: want[1], want[0]. */
  function SortSecretsHave(): seq<Secret>
  {
    var want := SortSecretsWant();
    [want[1], want[0]]
  }

  /** Header matchers by name; for equal names the exact match before the present match. */
  lemma SortHeaderMatchers()
    ensures Stable(HeaderMatchers(SortHeaderMatchersHave())) == HeaderMatchers(SortHeaderMatchersWant())
  {
    SortHeaderMatchersSteps();
  }

  lemma SortHeaderMatchersSteps()
    ensures StableSort.InsertionSort(SortHeaderMatchersHave(), HeaderMatcherLess) == SortHeaderMatchersWant()
  {
    var w := SortHeaderMatchersWant();
    SortHeaderMatchersInsert1();
    SortHeaderMatchersInsert2();
    SortThree(w[2], w[1], w[0], HeaderMatcherLess, [w[1], w[2]], [w[0], w[1], w[2]]);
  }

  lemma SortHeaderMatchersInsert1()
    ensures var w := SortHeaderMatchersWant();
      StableSort.Insert([w[2]], w[1], HeaderMatcherLess) == [w[1], w[2]]
  {
    var w := SortHeaderMatchersWant();
    var less := HeaderMatcherLess;
    assert less(w[1], w[2]);
  }

  lemma SortHeaderMatchersInsert2()
    ensures var w := SortHeaderMatchersWant();
      StableSort.Insert([w[1], w[2]], w[0], HeaderMatcherLess) == [w[0], w[1], w[2]]
  {
    var w := SortHeaderMatchersWant();
    var less := HeaderMatcherLess;
    assert less(w[0], w[1]);
  }

  function SortHeaderMatchersWant(): seq<HeaderMatcher>
  {
    [ HeaderMatcher("header-name", ExactMatch("anything")),
      HeaderMatcher("header-name", PresentMatch(true)),
      HeaderMatcher("long-header-name", ExactMatch("long-header-value"))
    ]
  }

  /** The input order of the test: want[2], want[1], want[0]. */
  function SortHeaderMatchersHave(): seq<HeaderMatcher>
  {
    var want := SortHeaderMatchersWant();
    [want[2], want[1], want[0]]
  }

  /** Clusters by name. */
  lemma SortClusters()
    ensures Stable(Clusters(SortClustersHave())) == Clusters(SortClustersWant())
  {
    SortClustersSteps();
  }

  lemma SortClustersSteps()
    ensures StableSort.InsertionSort(SortClustersHave(), ClusterLess) == SortClustersWant()
  {
    var w := SortClustersWant();
    SortClustersInsert1();
    SortTwo(w[1], w[0], ClusterLess, [w[0], w[1]]);
  }

  lemma SortClustersInsert1()
    ensures var w := SortClustersWant();
      StableSort.Insert([w[1]], w[0], ClusterLess) == [w[0], w[1]]
  {
    var w := SortClustersWant();
    var less := ClusterLess;
    assert less(w[0], w[1]);
  }

  function SortClustersWant(): seq<Cluster>
  {
    [ Cluster("first"),
      Cluster("second")
    ]
  }

  /** The input order of the test: want[1], want[0]. */
  function SortClustersHave(): seq<Cluster>
  {
    var want := SortClustersWant();
    [want[1], want[0]]
  }

  /** Cluster load assignments by cluster name. */
  lemma SortClusterLoadAssignments()
    ensures Stable(ClusterLoadAssignments(SortClusterLoadAssignmentsHave())) == ClusterLoadAssignments(SortClusterLoadAssignmentsWant())
  {
    SortClusterLoadAssignmentsSteps();
  }

  lemma SortClusterLoadAssignmentsSteps()
    ensures StableSort.InsertionSort(SortClusterLoadAssignmentsHave(), ClusterLoadAssignmentLess) == SortClusterLoadAssignmentsWant()
  {
    var w := SortClusterLoadAssignmentsWant();
    SortClusterLoadAssignmentsInsert1();
    SortTwo(w[1], w[0], ClusterLoadAssignmentLess, [w[0], w[1]]);
  }

  lemma SortClusterLoadAssignmentsInsert1()
    ensures var w := SortClusterLoadAssignmentsWant();
      StableSort.Insert([w[1]], w[0], ClusterLoadAssignmentLess) == [w[0], w[1]]
  {
    var w := SortClusterLoadAssignmentsWant();
    var less := ClusterLoadAssignmentLess;
    assert less(w[0], w[1]);
  }

  function SortClusterLoadAssignmentsWant(): seq<ClusterLoadAssignment>
  {
    [ ClusterLoadAssignment("first"),
      ClusterLoadAssignment("second")
    ]
  }

  /** The input order of the test: want[1], want[0]. */
  function SortClusterLoadAssignmentsHave(): seq<ClusterLoadAssignment>
  {
    var want := SortClusterLoadAssignmentsWant();
    [want[1], want[0]]
  }

  /** HTTP weighted clusters by name, then by weight. */
  lemma SortHTTPWeightedClusters()
    ensures Stable(ClusterWeights(SortHTTPWeightedClustersHave())) == ClusterWeights(SortHTTPWeightedClustersWant())
  {
    SortHTTPWeightedClustersSteps();
  }

  lemma SortHTTPWeightedClustersSteps()
    ensures StableSort.InsertionSort(SortHTTPWeightedClustersHave(), ClusterWeightLess) == SortHTTPWeightedClustersWant()
  {
    var w := SortHTTPWeightedClustersWant();
    SortHTTPWeightedClustersInsert1();
    SortHTTPWeightedClustersInsert2();
    SortThree(w[2], w[1], w[0], ClusterWeightLess, [w[1], w[2]], [w[0], w[1], w[2]]);
  }

  lemma SortHTTPWeightedClustersInsert1()
    ensures var w := SortHTTPWeightedClustersWant();
      StableSort.Insert([w[2]], w[1], ClusterWeightLess) == [w[1], w[2]]
  {
    var w := SortHTTPWeightedClustersWant();
    var less := ClusterWeightLess;
    assert less(w[1], w[2]);
  }

  lemma SortHTTPWeightedClustersInsert2()
    ensures var w := SortHTTPWeightedClustersWant();
      StableSort.Insert([w[1], w[2]], w[0], ClusterWeightLess) == [w[0], w[1], w[2]]
  {
    var w := SortHTTPWeightedClustersWant();
    var less := ClusterWeightLess;
    assert less(w[0], w[1]);
  }

  function SortHTTPWeightedClustersWant(): seq<ClusterWeight>
  {
    [ ClusterWeight("first", 10),
      ClusterWeight("second", 10),
      ClusterWeight("second", 20)
    ]
  }

  /** The input order of the test: want[2], want[1], want[0]. */
  function SortHTTPWeightedClustersHave(): seq<ClusterWeight>
  {
    var want := SortHTTPWeightedClustersWant();
    [want[2], want[1], want[0]]
  }

  /** TCP weighted clusters by name, then by weight. */
  lemma SortTCPWeightedClusters()
    ensures Stable(TcpClusterWeights(SortTCPWeightedClustersHave())) == TcpClusterWeights(SortTCPWeightedClustersWant())
  {
    SortTCPWeightedClustersSteps();
  }

  lemma SortTCPWeightedClustersSteps()
    ensures StableSort.InsertionSort(SortTCPWeightedClustersHave(), TcpClusterWeightLess) == SortTCPWeightedClustersWant()
  {
    var w := SortTCPWeightedClustersWant();
    SortTCPWeightedClustersInsert1();
    SortTCPWeightedClustersInsert2();
    SortThree(w[2], w[1], w[0], TcpClusterWeightLess, [w[1], w[2]], [w[0], w[1], w[2]]);
  }

  lemma SortTCPWeightedClustersInsert1()
    ensures var w := SortTCPWeightedClustersWant();
      StableSort.Insert([w[2]], w[1], TcpClusterWeightLess) == [w[1], w[2]]
  {
    var w := SortTCPWeightedClustersWant();
    var less := TcpClusterWeightLess;
    assert less(w[1], w[2]);
  }

  lemma SortTCPWeightedClustersInsert2()
    ensures var w := SortTCPWeightedClustersWant();
      StableSort.Insert([w[1], w[2]], w[0], TcpClusterWeightLess) == [w[0], w[1], w[2]]
  {
    var w := SortTCPWeightedClustersWant();
    var less := TcpClusterWeightLess;
    assert less(w[0], w[1]);
  }

  function SortTCPWeightedClustersWant(): seq<TcpClusterWeight>
  {
    [ TcpClusterWeight("first", 10),
      TcpClusterWeight("second", 10),
      TcpClusterWeight("second", 20)
    ]
  }

  /** The input order of the test: want[2], want[1], want[0]. */
  function SortTCPWeightedClustersHave(): seq<TcpClusterWeight>
  {
    var want := SortTCPWeightedClustersWant();
    [want[2], want[1], want[0]]
  }

  /** Listeners by name. */
  lemma SortListeners()
    ensures Stable(Listeners(SortListenersHave())) == Listeners(SortListenersWant())
  {
    SortListenersSteps();
  }

  lemma SortListenersSteps()
    ensures StableSort.InsertionSort(SortListenersHave(), ListenerLess) == SortListenersWant()
  {
    var w := SortListenersWant();
    SortListenersInsert1();
    SortTwo(w[1], w[0], ListenerLess, [w[0], w[1]]);
  }

  lemma SortListenersInsert1()
    ensures var w := SortListenersWant();
      StableSort.Insert([w[1]], w[0], ListenerLess) == [w[0], w[1]]
  {
    var w := SortListenersWant();
    var less := ListenerLess;
    assert less(w[0], w[1]);
  }

  function SortListenersWant(): seq<Listener>
  {
    [ Listener("first"),
      Listener("second")
    ]
  }

  /** The input order of the test: want[1], want[0]. */
  function SortListenersHave(): seq<Listener>
  {
    var want := SortListenersWant();
    [want[1], want[0]]
  }

  /** Filter chains by their first server name only: the chain without names goes last, and the two chains tied on "second" keep their input order. */
  lemma SortFilterChains()
    ensures Stable(FilterChains(SortFilterChainsHave())) == FilterChains(SortFilterChainsWant())
  {
    SortFilterChainsSteps();
  }

  lemma SortFilterChainsSteps()
    ensures StableSort.InsertionSort(SortFilterChainsHave(), FilterChainLess) == SortFilterChainsWant()
  {
    var w := SortFilterChainsWant();
    SortFilterChainsInsert1();
    SortFilterChainsInsert2();
    SortFilterChainsInsert3();
    SortFour(w[1], w[3], w[2], w[0], FilterChainLess, [w[1], w[3]], [w[1], w[2], w[3]], [w[0], w[1], w[2], w[3]]);
  }

  lemma SortFilterChainsInsert1()
    ensures var w := SortFilterChainsWant();
      StableSort.Insert([w[1]], w[3], FilterChainLess) == [w[1], w[3]]
  {
    var w := SortFilterChainsWant();
    var less := FilterChainLess;
    assert !less(w[3], w[1]);
    assert StableSort.Insert([], w[3], less) == [w[3]];
  }

  lemma SortFilterChainsInsert2()
    ensures var w := SortFilterChainsWant();
      StableSort.Insert([w[1], w[3]], w[2], FilterChainLess) == [w[1], w[2], w[3]]
  {
    var w := SortFilterChainsWant();
    var less := FilterChainLess;
    assert !less(w[2], w[1]);
    assert less(w[2], w[3]);
    assert StableSort.Insert([w[3]], w[2], less) == [w[2], w[3]];
  }

  lemma SortFilterChainsInsert3()
    ensures var w := SortFilterChainsWant();
      StableSort.Insert([w[1], w[2], w[3]], w[0], FilterChainLess) == [w[0], w[1], w[2], w[3]]
  {
    var w := SortFilterChainsWant();
    var less := FilterChainLess;
    assert less(w[0], w[1]);
  }

  function SortFilterChainsWant(): seq<FilterChain>
  {
    [ FilterChain(FilterChainMatch(["first"])),
      FilterChain(FilterChainMatch(["second", "zzzzz"])),
      FilterChain(FilterChainMatch(["second", "aaaaa"])),
      FilterChain(FilterChainMatch([]))
    ]
  }

  /** The input order of the test: want[1], want[3], want[2], want[0]. */
  function SortFilterChainsHave(): seq<FilterChain>
  {
    var want := SortFilterChainsWant();
    [want[1], want[3], want[2], want[0]]
  }
}
