# Contour: resource sorter and CORS policy translation

This project models two pure parts of Contour, the Kubernetes ingress
controller that configures Envoy.

- **The resource sorter.** `For` picks the ordering for one homogeneous
  collection of Envoy resources. It covers route configurations, virtual
  hosts, routes, header matchers, secrets, clusters, cluster load
  assignments, HTTP and TCP weighted clusters, listeners and filter chains.
  The caller applies the ordering with Go's `sort.Stable`. Here
  `ResourceSorter.For` returns a tag naming the ordering, and
  `ResourceSorter.Stable` sorts with the ordering that tag stands for. The ordering of each kind is a
  predicate in `Comparators`. Each one is proved a strict weak order, and
  the precedence rules the tests rely on are proved for all inputs.
  `sort.Stable` is modelled by `StableSort`, an insertion sort over
  sequences. It is proved to give a sorted, stable permutation, and any two
  such results are proved equal. Every test case of the sorter is proved to
  sort its input to exactly the expected sequence (`SorterCases`).
- **The CORS policy translation.** An HTTPProxy's CORS policy becomes the
  CORS policy of its Envoy virtual host:
  - origins become case-insensitive exact matchers;
  - the credentials flag is always set;
  - the three list fields are joined with `,`;
  - the max age, a duration literal, becomes whole seconds in decimal.

  A max age that does not parse, or is negative, fails the translation.
  The HTTPProxy's virtual host is then left out of the `ingress_http` route
  configuration, and the proxy is marked invalid. The configuration's
  virtual hosts are stably sorted by name, as the sorter sorts Envoy's. Every state of the CORS
  feature test is proved to give exactly the expected route configuration
  (`CorsCases`).

Supporting modules:
- `Ordering`: strict weak orders, lexicographic order of sequences, and
  orders taken by key.
- `LexOrder`: string order by code point, equal to Go's byte order on valid
  UTF-8.
- `Decimal`: decimal numerals.
- `Duration`: the duration-literal grammar.
- `Text`: join and split.
- `Envoy`: the resource records.
- `Wrappers`: `Option` and `Result`.

The model specifies the behaviour asserted by internal/sorter/sorter_test.go
and internal/featuretests/corspolicy_test.go.

`For` returns `None` for an unsupported kind
(internal/sorter/sorter_test.go:30-32).

## Model

| member | source | states |
|---|---|---|
| ResourceSorter.For | internal/sorter/sorter_test.go:30-32 | There is no sorter exactly when the kind is unsupported. Otherwise the sorter returned is the unique one for the collection's kind. |
| ResourceSorter.SortWith | internal/sorter/sorter_test.go:51 | Sorting with a sorter that orders the collection's kind gives a sorted, stable permutation under that kind's ordering, of the same kind. |
| ResourceSorter.Stable | internal/sorter/sorter_test.go:51-52 | Sorting with the sorter `For` picks keeps the kind and gives a sorted, stable permutation under that kind's ordering. An unsupported collection comes back unchanged. |
| ResourceSorter.StableIdempotent | internal/sorter/sorter_test.go:51-52 | Sorting a collection a second time changes nothing. |
| SorterCases.InvalidSorter | internal/sorter/sorter_test.go:30-32 | A collection of strings gets no sorter. |
| SorterCases.SortRouteConfiguration | internal/sorter/sorter_test.go:34-53 | Route configurations sort by name. The two named "same" keep their input order. |
| SorterCases.SortVirtualHosts | internal/sorter/sorter_test.go:55-74 | Virtual hosts sort by name. The two named "same" keep their input order. |
| SorterCases.SortRoutesLongestPath | internal/sorter/sorter_test.go:108-141 | The shuffled routes sort to the expected order: regex routes first, longer paths first within a kind. |
| SorterCases.SortRoutesLongestHeaders | internal/sorter/sorter_test.go:143-179 | Routes with the same prefix sort by their header matchers: exact `header-name`, then present `header-name`, then exact `long-header-name`. |
| SorterCases.SortSecrets | internal/sorter/sorter_test.go:181-194 | Secrets sort by name. |
| SorterCases.SortHeaderMatchers | internal/sorter/sorter_test.go:196-214 | Header matchers sort by name. For one name, the exact match comes before the present match. |
| SorterCases.SortClusters | internal/sorter/sorter_test.go:216-229 | Clusters sort by name. |
| SorterCases.SortClusterLoadAssignments | internal/sorter/sorter_test.go:231-244 | Cluster load assignments sort by cluster name. |
| SorterCases.SortHTTPWeightedClusters | internal/sorter/sorter_test.go:246-270 | Weighted clusters sort by name, then by weight. |
| SorterCases.SortTCPWeightedClusters | internal/sorter/sorter_test.go:272-296 | TCP weighted clusters sort by name, then by weight. |
| SorterCases.SortListeners | internal/sorter/sorter_test.go:298-311 | Listeners sort by name. |
| SorterCases.SortFilterChains | internal/sorter/sorter_test.go:313-349 | Filter chains sort by first server name. Chains tied on that name keep their input order. A chain with no names goes last. |
| StableSort.InsertionSortProperties | internal/sorter/sorter_test.go:51 | For any strict weak order, the insertion sort yields a sorted permutation of its input. Elements the order ranks equal keep their input order. |
| StableSort.StableSortUnique | internal/sorter/sorter_test.go:51-52 | Any two sorted, stable permutations of one input are equal. So any stable sort, Go's included, produces the model's result. |
| StableSort.InsertionSortIdempotent | internal/sorter/sorter_test.go:51 | Sorting an already sorted sequence leaves it unchanged. |
| StableSort.InsertPosition | internal/sorter/sorter_test.go:51 | Finds the index at which one insertion step places the new element: after every element it does not rank before. |
| StableSort.Sort | internal/sorter/sorter_test.go:51 | The executable loop returns a sorted, stable permutation of its input. |
| LexOrder.LessIsLexicographic | internal/sorter/sorter_test.go:35-41 | The recursive name comparison holds exactly when one name is a proper prefix of the other or the first difference is a smaller character. |
| LexOrder.LessIsStrictWeakOrder | internal/sorter/sorter_test.go:35-41 | Name comparison is a strict weak order. |
| LexOrder.LessTrichotomous | internal/sorter/sorter_test.go:35-41 | Of two different names, one ranks before the other. |
| Ordering.SeqLessIsStrictWeakOrder | internal/sorter/sorter_test.go:143-179 | Comparing sequences element by element, with a longer sequence ranking before its prefix, is a strict weak order whenever the element order is one. |
| Ordering.ThenByIsStrictWeakOrder | internal/sorter/sorter_test.go:246-270 | Ordering by one key and breaking ties by a second gives a strict weak order. |
| Comparators.RouteConfigurationLess | internal/sorter/sorter_test.go:34-53 | Route configurations rank by name in code-point order. No other field is compared. |
| Comparators.VirtualHostLess | internal/sorter/sorter_test.go:55-74 | Virtual hosts rank by name in code-point order. Their domains are not compared. |
| Comparators.SecretLess | internal/sorter/sorter_test.go:181-194 | Secrets rank by name in code-point order. |
| Comparators.ClusterLess | internal/sorter/sorter_test.go:216-229 | Clusters rank by name in code-point order. |
| Comparators.ClusterLoadAssignmentLess | internal/sorter/sorter_test.go:231-244 | Cluster load assignments rank by cluster name in code-point order. |
| Comparators.ListenerLess | internal/sorter/sorter_test.go:298-311 | Listeners rank by name in code-point order. |
| Comparators.HeaderMatcherLess | internal/sorter/sorter_test.go:196-214 | Header matchers rank by name first. For one name, an exact match comes before a presence match, which comes before any other kind. Two matchers of one kind then rank by value. |
| Comparators.RouteLess | internal/sorter/sorter_test.go:108-179 | A regex path ranks before a prefix path. Within one kind, the longer path text ranks first. Routes tied on both rank by their header matchers, compared one by one, with a longer list ranking before its own prefix. |
| Comparators.ClusterWeightLess | internal/sorter/sorter_test.go:246-270 | Weighted clusters rank by name, and clusters of one name by the smaller weight. |
| Comparators.TcpClusterWeightLess | internal/sorter/sorter_test.go:272-296 | TCP weighted clusters rank by name, and clusters of one name by the smaller weight. |
| Comparators.FilterChainLess | internal/sorter/sorter_test.go:313-349 | Filter chains rank by their first server name only. A chain without server names ranks after every chain with one, and two such chains rank equal. |
| Comparators.NameEquivalence | internal/sorter/sorter_test.go:39-40 | Two names rank equal exactly when they are the same string. |
| Comparators.RouteConfigurationLessIsStrictWeakOrder | internal/sorter/sorter_test.go:34-53 | The route-configuration order is a strict weak order. |
| Comparators.VirtualHostLessIsStrictWeakOrder | internal/sorter/sorter_test.go:55-74 | The virtual-host order is a strict weak order. |
| Comparators.RouteLessIsStrictWeakOrder | internal/sorter/sorter_test.go:108-179 | The route order is a strict weak order. |
| Comparators.SecretLessIsStrictWeakOrder | internal/sorter/sorter_test.go:181-194 | The secret order is a strict weak order. |
| Comparators.HeaderMatcherLessIsStrictWeakOrder | internal/sorter/sorter_test.go:196-214 | The header-matcher order is a strict weak order. |
| Comparators.HeaderMatcherLessByKey | internal/sorter/sorter_test.go:196-214 | The header-matcher order equals ordering by the key (name, kind rank, value). |
| Comparators.ClusterLessIsStrictWeakOrder | internal/sorter/sorter_test.go:216-229 | The cluster order is a strict weak order. |
| Comparators.ClusterLoadAssignmentLessIsStrictWeakOrder | internal/sorter/sorter_test.go:231-244 | The cluster-load-assignment order is a strict weak order. |
| Comparators.ClusterWeightLessIsStrictWeakOrder | internal/sorter/sorter_test.go:246-270 | The weighted-cluster order is a strict weak order. |
| Comparators.TcpClusterWeightLessIsStrictWeakOrder | internal/sorter/sorter_test.go:272-296 | The TCP weighted-cluster order is a strict weak order. |
| Comparators.ListenerLessIsStrictWeakOrder | internal/sorter/sorter_test.go:298-311 | The listener order is a strict weak order. |
| Comparators.FilterChainLessIsStrictWeakOrder | internal/sorter/sorter_test.go:313-349 | The filter-chain order is a strict weak order. |
| Comparators.RouteConfigurationTies | internal/sorter/sorter_test.go:39-40 | Two route configurations rank equal exactly when their names are equal. Their other fields do not matter. |
| Comparators.VirtualHostTies | internal/sorter/sorter_test.go:60-61 | Two virtual hosts rank equal exactly when their names are equal. |
| Comparators.RegexBeforePrefix | internal/sorter/sorter_test.go:108-141 | Every regex route ranks strictly before every prefix route, whatever their lengths. |
| Comparators.LongerPathFirst | internal/sorter/sorter_test.go:108-141 | Of two routes of the same kind, the one with the longer path text ranks strictly first. |
| Comparators.RouteHeadersDecide | internal/sorter/sorter_test.go:143-179 | Take two routes of the same kind and path length. The one whose first differing header matcher ranks first ranks first. |
| Comparators.ExactBeforePresent | internal/sorter/sorter_test.go:196-214 | For one header name, an exact match ranks strictly before a presence match. |
| Comparators.ClusterWeightTies | internal/sorter/sorter_test.go:246-270 | Two weighted clusters rank equal only when name and weight are both equal. |
| Comparators.TcpClusterWeightTies | internal/sorter/sorter_test.go:272-296 | Two TCP weighted clusters rank equal only when name and weight are both equal. |
| Comparators.FilterChainsWithoutNamesLast | internal/sorter/sorter_test.go:313-349 | A chain without server names ranks strictly after every chain with one. |
| Comparators.FilterChainTies | internal/sorter/sorter_test.go:313-349 | Two chains with names rank equal exactly when their first names are equal. |
| Cors.OriginMatchers | internal/featuretests/corspolicy_test.go:61-63 | There is one matcher per origin, and every matcher ignores case. |
| Cors.ExactPatternsOfOriginMatchers | internal/featuretests/corspolicy_test.go:60-66 | The matchers carry exactly the origins, in order. `*` stays literal. |
| Cors.TranslateMaxAge | internal/featuretests/corspolicy_test.go:245-357 | An empty max age stays absent. A malformed one fails as malformed, a negative one fails as negative. Every literal of zero or more seconds succeeds with the decimal of its seconds, so the result is a canonical decimal whose value is the literal's number of seconds. |
| Cors.TranslateCORSPolicy | internal/featuretests/corspolicy_test.go:39-116 | Fails exactly when the max age fails, and with its error. On success, credentials are always present with the input's value, the origins are kept in order and ignore case, and the max age is the translated one. |
| Cors.JoinListEmpty | internal/featuretests/corspolicy_test.go:44-68 | A joined list is empty exactly when the list is, so unset lists give absent fields. |
| Cors.JoinListRecoverable | internal/featuretests/corspolicy_test.go:118-158 | Splitting a joined list at `,` gives back its tokens in order, for tokens that are non-empty and hold no comma. |
| Cors.TranslatedListsRecoverable | internal/featuretests/corspolicy_test.go:118-243 | The methods, allowed headers and exposed headers of a translated policy split back into the input lists. Each is absent exactly when its list is empty. |
| Cors.TranslateMaxAgeOfSpans | internal/featuretests/corspolicy_test.go:245-327 | An unsigned literal made of spans translates to the decimal total of its seconds. |
| Cors.NegativeMaxAgeRejected | internal/featuretests/corspolicy_test.go:329-357 | A negative literal with a non-zero total fails as negative. |
| Cors.PlusSignIgnored | internal/featuretests/corspolicy_test.go:245-285 | A literal with an explicit `+` translates to the same decimal total of seconds as the literal without it. |
| Cors.LeadingZeroIgnored | internal/featuretests/corspolicy_test.go:245-285 | A count with a leading zero, such as `010m`, translates to the same seconds as the count without it. |
| Decimal.ValueLeadingZero | internal/featuretests/corspolicy_test.go:253-276 | A leading zero does not change the value of a numeral. |
| Cors.MinutesToSeconds | internal/featuretests/corspolicy_test.go:253-276 | `n` minutes translate to the decimal of `60 * n` seconds. |
| Cors.VirtualHostFor | internal/featuretests/corspolicy_test.go:329-357 | A proxy is turned away exactly when it has a policy whose max age is set and is malformed or negative, and then with a max-age error. Otherwise it yields its host with its domain and routes. The host has a CORS policy exactly when the proxy does, and it is the translated policy. |
| Cors.VirtualHostsMembers | internal/featuretests/corspolicy_test.go:329-357 | A virtual host appears in the configuration exactly when some proxy translates to it. |
| Cors.VirtualHosts | internal/featuretests/corspolicy_test.go:329-357 | Every host emitted is the translation of one of the proxies, and there are never more hosts than proxies. The hosts are sorted by name afterwards. |
| Cors.InvalidProxyDropped | internal/featuretests/corspolicy_test.go:329-357 | A proxy whose policy fails adds no virtual host, wherever it stands in the list. |
| Cors.HostLessIsStrictWeakOrder | internal/sorter/sorter_test.go:55-74 | Ordering the emitted hosts by name is a strict weak order. |
| Cors.IngressRouteConfiguration | internal/featuretests/corspolicy_test.go:56-60 | The `ingress_http` configuration holds the emitted hosts as a sorted, stable permutation by name. |
| Cors.IngressOrderIrrelevant | internal/sorter/sorter_test.go:55-74 | When no proxy of one list shares a domain with a proxy of the other, the configuration does not depend on which list is read first. |
| Cors.SingleProxy | internal/featuretests/corspolicy_test.go:351-354 | With one proxy, the configuration holds its virtual host, or no host when the proxy is invalid. |
| Cors.StatusFor | internal/featuretests/corspolicy_test.go:351-357 | A proxy is invalid exactly when it contributes no virtual host. The reason is then the error of its policy's max age. |
| Cors.InvalidIffDropped | internal/featuretests/corspolicy_test.go:329-357 | A proxy is invalid exactly when, in any list of proxies, the hosts emitted are those of the proxies around it alone. |
| Decimal.Format | internal/featuretests/corspolicy_test.go:268-318 | The decimal spelling of a number is canonical and denotes that number. |
| Decimal.FormatValue | internal/featuretests/corspolicy_test.go:268-318 | Every canonical numeral is the spelling of its value. |
| Text.SplitJoin | internal/featuretests/corspolicy_test.go:118-158 | Joining non-empty, separator-free tokens and splitting the result gives the tokens back. |
| Text.JoinSplit | internal/featuretests/corspolicy_test.go:118-158 | Splitting a string and joining the pieces gives the string back. |
| Duration.Parse | internal/featuretests/corspolicy_test.go:329-357 | The empty string is malformed, and only a literal starting with `-` parses to a negative number of seconds. |
| Duration.ParseInGrammar | internal/featuretests/corspolicy_test.go:245-357 | A literal parses exactly when it is an optional `+` or `-`, then either `0` or one or more spans, each a run of digits followed by `h`, `m` or `s`. So a bare number, a fraction or any other unit is malformed. |
| Duration.FractionRejected | internal/featuretests/corspolicy_test.go:245-357 | A literal holding a `.` is malformed. |
| Duration.ParseFormatSpans | internal/featuretests/corspolicy_test.go:253-295 | A non-empty span list, written out, parses to its total of seconds. |
| Duration.ParseFormat | internal/featuretests/corspolicy_test.go:253-338 | A signed, written-out span list parses to its signed total of seconds. |
| CorsCases.AllowOrigin | internal/featuretests/corspolicy_test.go:39-76 | With only the origin `*` set, the host's policy has one case-insensitive `*` matcher, credentials false, and no other field. |
| CorsCases.AllowCredentials | internal/featuretests/corspolicy_test.go:78-116 | Setting credentials gives credentials true. |
| CorsCases.AllowMethods | internal/featuretests/corspolicy_test.go:118-158 | The methods come out as `GET,POST,OPTIONS`. |
| CorsCases.AllowHeaders | internal/featuretests/corspolicy_test.go:160-200 | The allowed headers come out as `custom-header-1,custom-header-2`. |
| CorsCases.ExposeHeaders | internal/featuretests/corspolicy_test.go:202-243 | The exposed headers come out as `custom-header-1,custom-header-2`. |
| CorsCases.TenMinutes | internal/featuretests/corspolicy_test.go:253-276 | The max age `10m` translates to `600`. |
| CorsCases.MaxAge | internal/featuretests/corspolicy_test.go:245-285 | The max age `10m` is served as `600`. |
| CorsCases.DisablePreflightCaching | internal/featuretests/corspolicy_test.go:287-327 | The max age `0s` is served as the explicit `0`, not as an absent field. |
| CorsCases.InvalidMaxAge | internal/featuretests/corspolicy_test.go:329-357 | The max age `-10m` leaves the `ingress_http` configuration without virtual hosts. The proxy is marked invalid because the max age is negative. |

## Left out

- The sorter's own source file and the code that translates CORS policies are not part of this model. Each behaviour is stated as internal/sorter/sorter_test.go and internal/featuretests/corspolicy_test.go assert it.
- Go's `sort.Stable` algorithm is modelled as an insertion sort. `StableSort.StableSortUnique` shows that every stable sort produces the same result.
- Header matchers in Contour are ordered by their serialized text. The model uses an explicit kind rank instead: exact, then present, then one `OtherMatch` slot for every other kind.
- Comparators.RouteLess: does not model the precedence by number of headers, or exact-path specifiers. The tests do not exercise either.
- Comparators.RouteLess: two routes of one kind with equal-length, different path texts are ordered by their header matchers, not by their texts.
- Comparators.ClusterWeightLess: the weight of an HTTP weighted cluster is a wrapped value that may be absent. The model takes it as a plain 32-bit number.
- ResourceSorter.Stable: leaves a collection of an unsupported kind unchanged. In Go, `For` returns a nil interface there, and `sort.Stable` of nil would panic on its first call. The model does not model that panic.
- Duration.Parse: reads only whole hours, minutes and seconds. Go's parser also accepts fractions and the units `ns`, `us`, `µs` and `ms`, and it rejects totals beyond 64-bit nanoseconds. The model rejects fractions and other units (`Duration.ParseInGrammar`, `Duration.FractionRejected`), so sub-second rounding does not arise, and it has no overflow bound.
- The feature-test fixture is left out, being event handling and I/O. That covers adding objects, requesting discovery responses, writing status back and encoding resources as `Any`.
- Cors.VirtualHostFor: route and cluster names are passed through from the proxy, not computed from services.
- The check that an HTTPProxy's policy lists at least one origin happens during validation, before translation, and is not modelled.
- Protobuf wrappers and absent strings: an absent string field of the wire policy is written as the empty string, and the wrapped boolean is an `Option<bool>`.
