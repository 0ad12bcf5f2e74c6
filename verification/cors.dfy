/** Translation of an HTTPProxy's cross-origin resource sharing policy into
    the CORS policy of its Envoy virtual host, and the rule that a virtual
    host whose policy cannot be translated is left out of the route
    configuration while its HTTPProxy is marked invalid. */
module Cors {
  import opened Wrappers
  import Ordering
  import LexOrder
  import StableSort
  import Comparators
  import Decimal
  import Duration
  import Text

  /** The policy as written on an HTTPProxy's virtual host. An empty list or
      an empty `maxAge` means the field was not set. */
  datatype CORSPolicy = CORSPolicy(
    allowOrigin: seq<string>,
    allowCredentials: bool,
    allowMethods: seq<string>,
    allowHeaders: seq<string>,
    exposeHeaders: seq<string>,
    maxAge: string)

  /** An exact string matcher, optionally ignoring case. */
  datatype StringMatcher = StringMatcher(exact: string, ignoreCase: bool)

  /** The CORS policy of an Envoy virtual host. Following the wire format's
      convention, an empty string field is an absent field; the credentials
      flag is a wrapped boolean that may be absent. */
  datatype RouteCorsPolicy = RouteCorsPolicy(
    allowOriginStringMatch: seq<StringMatcher>,
    allowCredentials: Option<bool>,
    allowMethods: string,
    allowHeaders: string,
    exposeHeaders: string,
    maxAge: string)

  datatype PolicyError =
    | MalformedMaxAge(maxAge: string)
    | NegativeMaxAge(maxAge: string)

  /** The separator of the joined list fields. */
  const ListSeparator: char := ','

  /** Each origin pattern becomes a case-insensitive exact matcher, in order;
      "*" is not special. */
  function OriginMatchers(origins: seq<string>): (r: seq<StringMatcher>)
    ensures |r| == |origins|
    ensures forall i :: 0 <= i < |r| ==> r[i].ignoreCase
  {
    if |origins| == 0 then []
    else [StringMatcher(origins[0], true)] + OriginMatchers(origins[1..])
  }

  /** The patterns the matchers compare against. */
  function ExactPatterns(matchers: seq<StringMatcher>): (r: seq<string>)
    ensures |r| == |matchers|
  {
    if |matchers| == 0 then []
    else [matchers[0].exact] + ExactPatterns(matchers[1..])
  }

  /** The matchers carry exactly the origins, in order. */
  lemma {:induction false} ExactPatternsOfOriginMatchers(origins: seq<string>)
    ensures ExactPatterns(OriginMatchers(origins)) == origins
    decreases |origins|
  {
    if |origins| > 0 {
      ExactPatternsOfOriginMatchers(origins[1..]);
      assert origins == [origins[0]] + origins[1..];
    }
  }

  /** A list field of the wire policy: the tokens joined with ','. */
  function JoinList(tokens: seq<string>): string
  {
    Text.Join(tokens, ListSeparator)
  }

  /** The max-age field: absent stays absent, a duration becomes its whole
      number of seconds in decimal, and a malformed or negative duration is
      an error. */
  function TranslateMaxAge(maxAge: string): (r: Result<string, PolicyError>)
    ensures maxAge == "" ==> r == Success("")
    ensures maxAge != "" && Duration.Parse(maxAge).None? ==> r == Failure(MalformedMaxAge(maxAge))
    ensures maxAge != "" && Duration.Parse(maxAge).Some? && Duration.Parse(maxAge).value < 0 ==>
      r == Failure(NegativeMaxAge(maxAge))
    ensures maxAge != "" && Duration.Parse(maxAge).Some? && Duration.Parse(maxAge).value >= 0 ==>
      r == Success(Decimal.Format(Duration.Parse(maxAge).value as nat))
    ensures r.Success? && maxAge != "" ==>
      Decimal.IsCanonical(r.value) && Duration.Parse(maxAge) == Some(Decimal.Value(r.value) as int)
  {
    if maxAge == "" then Success("")
    else
      match Duration.Parse(maxAge)
      case None => Failure(MalformedMaxAge(maxAge))
      case Some(seconds) =>
        if seconds < 0 then Failure(NegativeMaxAge(maxAge))
        else Success(Decimal.Format(seconds as nat))
  }

  /** The whole translation; it fails exactly when the max-age field does. */
  function TranslateCORSPolicy(p: CORSPolicy): (r: Result<RouteCorsPolicy, PolicyError>)
    ensures r.Success? <==> TranslateMaxAge(p.maxAge).Success?
    ensures r.Failure? ==> r.error == TranslateMaxAge(p.maxAge).error
    ensures r.Success? ==> r.value.maxAge == TranslateMaxAge(p.maxAge).value
    ensures r.Success? ==> r.value.allowCredentials == Some(p.allowCredentials)
    ensures r.Success? ==>
      ExactPatterns(r.value.allowOriginStringMatch) == p.allowOrigin &&
      forall i :: 0 <= i < |r.value.allowOriginStringMatch| ==> r.value.allowOriginStringMatch[i].ignoreCase
  {
    match TranslateMaxAge(p.maxAge)
    case Failure(e) => Failure(e)
    case Success(maxAge) =>
      ExactPatternsOfOriginMatchers(p.allowOrigin);
      Success(RouteCorsPolicy(
        OriginMatchers(p.allowOrigin),
        Some(p.allowCredentials),
        JoinList(p.allowMethods),
        JoinList(p.allowHeaders),
        JoinList(p.exposeHeaders),
        maxAge))
  }

  /** Tokens that survive joining: none is empty and none holds ','. */
  predicate PlainTokens(tokens: seq<string>)
  {
    forall i :: 0 <= i < |tokens| ==> tokens[i] != "" && ListSeparator !in tokens[i]
  }

  /** A joined list of plain tokens is empty exactly when the list is. */
  lemma JoinListEmpty(tokens: seq<string>)
    requires PlainTokens(tokens)
    ensures JoinList(tokens) == "" <==> tokens == []
  {
    if |tokens| > 0 {
      assert |JoinList(tokens)| >= |tokens[0]| > 0 by {
        if |tokens| > 1 {
          assert JoinList(tokens) == tokens[0] + [ListSeparator] + JoinList(tokens[1..]);
        }
      }
    }
  }

  /** A joined field gives back its list of plain tokens, in order, and an
      unset list gives an absent field. */
  lemma JoinListRecoverable(tokens: seq<string>)
    requires PlainTokens(tokens)
    ensures tokens == [] <==> JoinList(tokens) == ""
    ensures tokens != [] ==> Text.Split(JoinList(tokens), ListSeparator) == tokens
  {
    JoinListEmpty(tokens);
    if tokens != [] {
      Text.SplitJoin(tokens, ListSeparator);
    }
  }

  /** The three list fields of a translated policy give back the policy's
      lists. */
  lemma TranslatedListsRecoverable(p: CORSPolicy)
    requires TranslateCORSPolicy(p).Success?
    requires PlainTokens(p.allowMethods) && PlainTokens(p.allowHeaders) && PlainTokens(p.exposeHeaders)
    ensures var w := TranslateCORSPolicy(p).value;
      (p.allowMethods == [] <==> w.allowMethods == "") &&
      (p.allowHeaders == [] <==> w.allowHeaders == "") &&
      (p.exposeHeaders == [] <==> w.exposeHeaders == "") &&
      (p.allowMethods != [] ==> Text.Split(w.allowMethods, ListSeparator) == p.allowMethods) &&
      (p.allowHeaders != [] ==> Text.Split(w.allowHeaders, ListSeparator) == p.allowHeaders) &&
      (p.exposeHeaders != [] ==> Text.Split(w.exposeHeaders, ListSeparator) == p.exposeHeaders)
  {
    JoinListRecoverable(p.allowMethods);
    JoinListRecoverable(p.allowHeaders);
    JoinListRecoverable(p.exposeHeaders);
  }

  /** A literal built from spans, without a sign, becomes the total of the
      spans in seconds. */
  lemma TranslateMaxAgeOfSpans(spans: seq<Duration.Span>)
    requires |spans| > 0
    ensures TranslateMaxAge(Duration.Format(false, spans)) ==
      Success(Decimal.Format(Duration.TotalSeconds(spans)))
  {
    Duration.ParseFormat(false, spans);
    Duration.FormatSpansStart(spans);
  }

  /** A negative literal with a non-zero total is rejected as negative. */
  lemma NegativeMaxAgeRejected(spans: seq<Duration.Span>)
    requires |spans| > 0 && Duration.TotalSeconds(spans) > 0
    ensures TranslateMaxAge(Duration.Format(true, spans)) ==
      Failure(NegativeMaxAge(Duration.Format(true, spans)))
  {
    Duration.ParseFormat(true, spans);
  }

  /** An explicit '+' in front of a literal changes nothing. */
  lemma PlusSignIgnored(spans: seq<Duration.Span>)
    requires |spans| > 0
    ensures TranslateMaxAge("+" + Duration.FormatSpans(spans)) ==
      Success(Decimal.Format(Duration.TotalSeconds(spans)))
  {
    var body := Duration.FormatSpans(spans);
    var total := Duration.TotalSeconds(spans);
    Duration.ParseFormatSpans(spans);
    assert |body| >= 2 by {
      assert body == Decimal.Format(spans[0].count) + Duration.UnitSymbol(spans[0].unit) + Duration.FormatSpans(spans[1..]);
    }
    assert Duration.ParseUnsigned(body) == Some(total);
    var literal := "+" + body;
    assert literal[0] == '+' && literal[1..] == body;
    assert Duration.Parse(literal) == Some(total as int);
  }

  /** A count written with a leading zero reads as the same count. */
  lemma LeadingZeroIgnored(n: nat, u: Duration.Unit)
    ensures TranslateMaxAge("0" + Decimal.Format(n) + Duration.UnitSymbol(u)) ==
      Success(Decimal.Format(Duration.Seconds(n, u)))
  {
    var digits := "0" + Decimal.Format(n);
    Decimal.ValueLeadingZero(Decimal.Format(n));
    Duration.FirstSpanOf(digits, u, "");
    var literal := digits + Duration.UnitSymbol(u);
    assert digits + Duration.UnitSymbol(u) + "" == literal;
    Duration.ParseSpansAfterFirst(literal, Duration.Seconds(n, u), "");
    assert literal[0] == '0' && |literal| > 1;
    assert Duration.Parse(literal) == Some(Duration.Seconds(n, u) as int);
  }

  /** A count of minutes becomes sixty times as many seconds. */
  lemma MinutesToSeconds(n: nat)
    ensures TranslateMaxAge(Decimal.Format(n) + "m") == Success(Decimal.Format(60 * n))
  {
    var spans := [Duration.Span(n, Duration.Minute)];
    assert Duration.FormatSpans(spans[1..]) == "";
    assert Duration.Format(false, spans) == Decimal.Format(n) + "m";
    TranslateMaxAgeOfSpans(spans);
  }

  // The virtual hosts of the HTTP listener's route configuration.

  /** A route and the cluster it forwards to; routing itself is not modelled. */
  datatype ProxyRoute = ProxyRoute(prefix: string, cluster: string)

  /** An HTTPProxy with a virtual host, reduced to what this translation
      reads: its name, the host's domain, its optional CORS policy and its
      routes. */
  datatype HTTPProxy = HTTPProxy(
    name: string,
    fqdn: string,
    corsPolicy: Option<CORSPolicy>,
    routes: seq<ProxyRoute>)

  datatype CORSVirtualHost = CORSVirtualHost(name: string, cors: Option<RouteCorsPolicy>, routes: seq<ProxyRoute>)

  datatype ListenerRouteConfiguration = ListenerRouteConfiguration(name: string, virtualHosts: seq<CORSVirtualHost>)

  datatype Status = Valid | Invalid(reason: PolicyError)

  /** The name of the HTTP listener's route configuration. */
  const IngressHttp: string := "ingress_http"

  /** True when the max age of a policy is set and is not a duration of zero
      or more seconds. */
  predicate BadMaxAge(maxAge: string)
  {
    maxAge != "" && (Duration.Parse(maxAge).None? || Duration.Parse(maxAge).value < 0)
  }

  /** The virtual host a proxy contributes, or why it contributes none: a
      proxy is turned away exactly when its policy's max age is bad. */
  function VirtualHostFor(p: HTTPProxy): (r: Result<CORSVirtualHost, PolicyError>)
    ensures r.Failure? <==> p.corsPolicy.Some? && BadMaxAge(p.corsPolicy.value.maxAge)
    ensures r.Failure? ==>
      r.error == MalformedMaxAge(p.corsPolicy.value.maxAge) ||
      r.error == NegativeMaxAge(p.corsPolicy.value.maxAge)
    ensures r.Success? ==> r.value.name == p.fqdn && r.value.routes == p.routes
    ensures r.Success? ==> (r.value.cors.None? <==> p.corsPolicy.None?)
    ensures r.Success? && p.corsPolicy.Some? ==>
      r.value.cors == Some(TranslateCORSPolicy(p.corsPolicy.value).value)
  {
    match p.corsPolicy
    case None => Success(CORSVirtualHost(p.fqdn, None, p.routes))
    case Some(policy) =>
      match TranslateCORSPolicy(policy)
      case Failure(e) => Failure(e)
      case Success(cors) => Success(CORSVirtualHost(p.fqdn, Some(cors), p.routes))
  }

  /** The virtual hosts of the proxies that translate, in proxy order, before
      they are sorted. */
  function VirtualHosts(proxies: seq<HTTPProxy>): (r: seq<CORSVirtualHost>)
    ensures |r| <= |proxies|
    ensures forall v :: v in r ==> exists p :: p in proxies && VirtualHostFor(p) == Success(v)
  {
    if |proxies| == 0 then []
    else
      match VirtualHostFor(proxies[0])
      case Failure(_) => VirtualHosts(proxies[1..])
      case Success(v) => [v] + VirtualHosts(proxies[1..])
  }

  /** A virtual host is emitted exactly when some proxy translates to it. */
  lemma {:induction false} VirtualHostsMembers(proxies: seq<HTTPProxy>, v: CORSVirtualHost)
    ensures v in VirtualHosts(proxies) <==> exists p :: p in proxies && VirtualHostFor(p) == Success(v)
    decreases |proxies|
  {
    if |proxies| > 0 {
      VirtualHostsMembers(proxies[1..], v);
      assert forall p :: p in proxies <==> p == proxies[0] || p in proxies[1..];
    }
  }

  /** Dropping works per proxy: one proxy's virtual hosts do not depend on
      the others. */
  lemma {:induction false} VirtualHostsConcat(a: seq<HTTPProxy>, b: seq<HTTPProxy>)
    ensures VirtualHosts(a + b) == VirtualHosts(a) + VirtualHosts(b)
    decreases |a|
  {
    if |a| > 0 {
      assert (a + b)[0] == a[0];
      assert (a + b)[1..] == a[1..] + b;
      VirtualHostsConcat(a[1..], b);
      match VirtualHostFor(a[0])
      case Failure(_) =>
      case Success(v) =>
        assert [v] + (VirtualHosts(a[1..]) + VirtualHosts(b)) == ([v] + VirtualHosts(a[1..])) + VirtualHosts(b);
    } else {
      assert a + b == b;
    }
  }

  /** A proxy whose policy fails adds nothing, wherever it stands. */
  lemma {:induction false} InvalidProxyDropped(before: seq<HTTPProxy>, p: HTTPProxy, after: seq<HTTPProxy>)
    requires VirtualHostFor(p).Failure?
    ensures VirtualHosts(before + [p] + after) == VirtualHosts(before) + VirtualHosts(after)
  {
    var single := [p];
    assert single[0] == p && single[1..] == [];
    assert VirtualHosts(single) == [];
    VirtualHostsConcat(before + single, after);
    VirtualHostsConcat(before, single);
    assert VirtualHosts(before) + [] == VirtualHosts(before);
  }

  /** Virtual hosts rank by name. This is the order
      `Comparators.VirtualHostLess` gives Envoy's virtual hosts, over this
      module's host record. */
  predicate HostLess(a: CORSVirtualHost, b: CORSVirtualHost)
  {
    LexOrder.Less(a.name, b.name)
  }

  lemma HostLessIsStrictWeakOrder()
    ensures Ordering.StrictWeakOrder(HostLess)
  {
    Comparators.NameOrderIsStrictWeakOrder(HostLess, (v: CORSVirtualHost) => v.name);
  }

  /** The route configuration of the HTTP listener: the emitted virtual hosts,
      stably sorted by name. */
  function IngressRouteConfiguration(proxies: seq<HTTPProxy>): (r: ListenerRouteConfiguration)
    ensures r.name == IngressHttp
    ensures StableSort.IsStableSortOf(VirtualHosts(proxies), r.virtualHosts, HostLess)
  {
    HostLessIsStrictWeakOrder();
    StableSort.InsertionSortProperties(VirtualHosts(proxies), HostLess);
    ListenerRouteConfiguration(IngressHttp, StableSort.InsertionSort(VirtualHosts(proxies), HostLess))
  }

  /** With a single proxy the configuration holds its virtual host, or
      nothing when the proxy is invalid. */
  lemma SingleProxy(p: HTTPProxy)
    ensures VirtualHostFor(p).Success? ==>
      IngressRouteConfiguration([p]) == ListenerRouteConfiguration(IngressHttp, [VirtualHostFor(p).value])
    ensures VirtualHostFor(p).Failure? ==>
      IngressRouteConfiguration([p]) == ListenerRouteConfiguration(IngressHttp, [])
  {
    var single := [p];
    assert single[0] == p && single[1..] == [];
    var hosts := VirtualHosts(single);
    if VirtualHostFor(p).Success? {
      assert hosts == [VirtualHostFor(p).value];
      assert hosts[..0] == [];
    }
  }

  /** When no proxy of one list shares a domain with a proxy of the other,
      the order the two lists are read in does not change the configuration. */
  lemma IngressOrderIrrelevant(a: seq<HTTPProxy>, b: seq<HTTPProxy>)
    requires forall p, q :: p in a && q in b ==> p.fqdn != q.fqdn
    ensures IngressRouteConfiguration(a + b) == IngressRouteConfiguration(b + a)
  {
    var ha, hb := VirtualHosts(a), VirtualHosts(b);
    VirtualHostsConcat(a, b);
    VirtualHostsConcat(b, a);
    HostLessIsStrictWeakOrder();
    var r1 := IngressRouteConfiguration(a + b).virtualHosts;
    var r2 := IngressRouteConfiguration(b + a).virtualHosts;
    forall z
      ensures StableSort.Class(r1, z, HostLess) == StableSort.Class(r2, z, HostLess)
    {
      SwapClasses(ha, hb, z);
    }
    StableSort.SameClassesUnique(r1, r2, HostLess);
  }

  /** With no name shared between two host lists, at most one of them has
      hosts ranking equal to any given host, so their order does not matter. */
  lemma SwapClasses(ha: seq<CORSVirtualHost>, hb: seq<CORSVirtualHost>, z: CORSVirtualHost)
    requires forall v, w :: v in ha && w in hb ==> v.name != w.name
    ensures StableSort.Class(ha + hb, z, HostLess) == StableSort.Class(hb + ha, z, HostLess)
  {
    var ca, cb := StableSort.Class(ha, z, HostLess), StableSort.Class(hb, z, HostLess);
    StableSort.ClassConcat(ha, hb, z, HostLess);
    StableSort.ClassConcat(hb, ha, z, HostLess);
    if ca == [] {
      assert ca + cb == cb && cb + ca == cb;
    } else if cb == [] {
      assert ca + cb == ca && cb + ca == ca;
    } else {
      var v, w := ca[0], cb[0];
      StableSort.ClassMembers(ha, z, v, HostLess);
      StableSort.ClassMembers(hb, z, w, HostLess);
      Comparators.NameEquivalence(v.name, z.name);
      Comparators.NameEquivalence(w.name, z.name);
      assert false;
    }
  }

  /** The status each proxy is given: invalid exactly when it contributes no
      virtual host, with the max-age error as the reason. */
  function StatusFor(p: HTTPProxy): (r: Status)
    ensures r.Invalid? <==> VirtualHosts([p]) == []
    ensures r.Invalid? ==>
      p.corsPolicy.Some? && r.reason == TranslateMaxAge(p.corsPolicy.value.maxAge).error
  {
    SingleProxy(p);
    match VirtualHostFor(p)
    case Failure(e) => Invalid(e)
    case Success(_) => Valid
  }

  /** A proxy is invalid exactly when leaving it out of any list of proxies
      does not change the virtual hosts emitted. */
  lemma {:induction false} InvalidIffDropped(before: seq<HTTPProxy>, p: HTTPProxy, after: seq<HTTPProxy>)
    ensures StatusFor(p).Invalid? <==>
      VirtualHosts(before + [p] + after) == VirtualHosts(before) + VirtualHosts(after)
  {
    VirtualHostsConcat(before + [p], after);
    VirtualHostsConcat(before, [p]);
    var single := [p];
    assert single[0] == p && single[1..] == [];
    if StatusFor(p).Invalid? {
      assert VirtualHosts(before) + [] == VirtualHosts(before);
    } else {
      assert |VirtualHosts(single)| == 1;
      assert |VirtualHosts(before + [p] + after)| == |VirtualHosts(before)| + 1 + |VirtualHosts(after)|;
    }
  }
}
