/** The proxy's wire resources that the sorter orders, reduced to the fields
    the comparators read (plus, for route configurations and virtual hosts, a
    field they ignore, so that stability is observable). */
module Envoy {

  newtype uint32 = x: int | 0 <= x < 0x1_0000_0000

  datatype RouteConfiguration = RouteConfiguration(name: string, internalOnlyHeaders: seq<string>)

  datatype VirtualHost = VirtualHost(name: string, domains: seq<string>)

  /** How a route matches the request path. */
  datatype PathSpecifier =
    | Prefix(prefix: string)
    | SafeRegex(regex: string)

  /** How a header matcher tests the header's value. `OtherMatch` is the one
      slot standing for every further matcher kind (regex, range, suffix, ...). */
  datatype HeaderMatchSpecifier =
    | ExactMatch(exactMatch: string)
    | PresentMatch(presentMatch: bool)
    | OtherMatch(pattern: string)

  datatype HeaderMatcher = HeaderMatcher(name: string, headerMatchSpecifier: HeaderMatchSpecifier)

  datatype RouteMatch = RouteMatch(pathSpecifier: PathSpecifier, headers: seq<HeaderMatcher>)

  datatype Route = Route(routeMatch: RouteMatch)

  datatype Secret = Secret(name: string)

  datatype Cluster = Cluster(name: string)

  datatype ClusterLoadAssignment = ClusterLoadAssignment(clusterName: string)

  /** A weighted cluster of an HTTP route. */
  datatype ClusterWeight = ClusterWeight(name: string, weight: uint32)

  /** A weighted cluster of a TCP proxy. */
  datatype TcpClusterWeight = TcpClusterWeight(name: string, weight: uint32)

  datatype Listener = Listener(name: string)

  datatype FilterChainMatch = FilterChainMatch(serverNames: seq<string>)

  datatype FilterChain = FilterChain(filterChainMatch: FilterChainMatch)
}
