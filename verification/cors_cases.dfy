/** The policies of the CORS feature test and the route configurations the
    HTTP listener serves for them. Each state holds the one proxy "simple"
    for the domain "hello.world" with one route to service svc1. */
module CorsCases {
  import opened Wrappers
  import opened Cors
  import Decimal
  import Duration

  const Star: seq<StringMatcher> := [StringMatcher("*", true)]

  const SimpleRoutes: seq<ProxyRoute> := [ProxyRoute("/", "default/svc1/80/da39a3ee5e")]

  function Simple(policy: CORSPolicy): HTTPProxy
  {
    HTTPProxy("simple", "hello.world", Some(policy), SimpleRoutes)
  }

  /** A policy whose translation is `cors` is served as `cors`. */
  lemma ServedAs(policy: CORSPolicy, cors: RouteCorsPolicy)
    requires TranslateCORSPolicy(policy) == Success(cors)
    ensures IngressRouteConfiguration([Simple(policy)]) == Served(cors)
  {
    SingleProxy(Simple(policy));
  }

  /** The route configuration holding one virtual host for "hello.world"
      with the given wire policy. */
  function Served(cors: RouteCorsPolicy): ListenerRouteConfiguration
  {
    ListenerRouteConfiguration("ingress_http", [CORSVirtualHost("hello.world", Some(cors), SimpleRoutes)])
  }

  lemma StarMatchers()
    ensures OriginMatchers(["*"]) == Star
  {
    var origins := ["*"];
    assert origins[1..] == [];
  }

  /** Only the origin is set: the credentials flag is still emitted, as false. */
  lemma AllowOrigin()
    ensures IngressRouteConfiguration([Simple(CORSPolicy(["*"], false, [], [], [], ""))]) ==
      Served(RouteCorsPolicy(Star, Some(false), "", "", "", ""))
  {
    StarMatchers();
    ServedAs(CORSPolicy(["*"], false, [], [], [], ""), RouteCorsPolicy(Star, Some(false), "", "", "", ""));
  }

  lemma AllowCredentials()
    ensures IngressRouteConfiguration([Simple(CORSPolicy(["*"], true, [], [], [], ""))]) ==
      Served(RouteCorsPolicy(Star, Some(true), "", "", "", ""))
  {
    StarMatchers();
    ServedAs(CORSPolicy(["*"], true, [], [], [], ""), RouteCorsPolicy(Star, Some(true), "", "", "", ""));
  }

  /** Methods are joined with ',' in the order given, without spaces. */
  lemma AllowMethods()
    ensures IngressRouteConfiguration([Simple(CORSPolicy(["*"], true, ["GET", "POST", "OPTIONS"], [], [], ""))]) ==
      Served(RouteCorsPolicy(Star, Some(true), "GET,POST,OPTIONS", "", "", ""))
  {
    StarMatchers();
    var methods := ["GET", "POST", "OPTIONS"];
    assert methods[1..][1..] == ["OPTIONS"];
    assert JoinList(methods) == "GET,POST,OPTIONS";
    ServedAs(CORSPolicy(["*"], true, methods, [], [], ""), RouteCorsPolicy(Star, Some(true), "GET,POST,OPTIONS", "", "", ""));
  }

  lemma HeaderList()
    ensures JoinList(["custom-header-1", "custom-header-2"]) == "custom-header-1,custom-header-2"
  {
    var headers := ["custom-header-1", "custom-header-2"];
    assert headers[1..] == ["custom-header-2"];
  }

  lemma AllowHeaders()
    ensures IngressRouteConfiguration([Simple(CORSPolicy(["*"], true, [], ["custom-header-1", "custom-header-2"], [], ""))]) ==
      Served(RouteCorsPolicy(Star, Some(true), "", "custom-header-1,custom-header-2", "", ""))
  {
    StarMatchers();
    HeaderList();
    ServedAs(CORSPolicy(["*"], true, [], ["custom-header-1", "custom-header-2"], [], ""),
      RouteCorsPolicy(Star, Some(true), "", "custom-header-1,custom-header-2", "", ""));
  }

  lemma ExposeHeaders()
    ensures IngressRouteConfiguration([Simple(CORSPolicy(["*"], true, [], [], ["custom-header-1", "custom-header-2"], ""))]) ==
      Served(RouteCorsPolicy(Star, Some(true), "", "", "custom-header-1,custom-header-2", ""))
  {
    StarMatchers();
    HeaderList();
    ServedAs(CORSPolicy(["*"], true, [], [], ["custom-header-1", "custom-header-2"], ""),
      RouteCorsPolicy(Star, Some(true), "", "", "custom-header-1,custom-header-2", ""));
  }

  /** "10m" reads as six hundred seconds. */
  lemma TenMinutesParse()
    ensures Duration.Parse("10m") == Some(600)
  {
    var spans := [Duration.Span(10, Duration.Minute)];
    assert Decimal.Format(10) == "10";
    assert Duration.FormatSpans(spans[1..]) == "";
    assert Duration.Format(false, spans) == "10m";
    Duration.ParseFormat(false, spans);
  }

  lemma TenMinutes()
    ensures TranslateMaxAge("10m") == Success("600")
  {
    TenMinutesParse();
    assert Decimal.Format(600) == "600";
  }

  /** "10m" is six hundred seconds. */
  lemma MaxAge()
    ensures IngressRouteConfiguration([Simple(CORSPolicy(["*"], true, [], [], [], "10m"))]) ==
      Served(RouteCorsPolicy(Star, Some(true), "", "", "", "600"))
  {
    StarMatchers();
    TenMinutes();
    ServedAs(CORSPolicy(["*"], true, [], [], [], "10m"), RouteCorsPolicy(Star, Some(true), "", "", "", "600"));
  }

  /** "0s" becomes the explicit "0", which disables preflight caching and is
      not the same as leaving the field out. */
  lemma DisablePreflightCaching()
    ensures IngressRouteConfiguration([Simple(CORSPolicy(["*"], true, [], [], [], "0s"))]) ==
      Served(RouteCorsPolicy(Star, Some(true), "", "", "", "0"))
  {
    StarMatchers();
    var spans := [Duration.Span(0, Duration.Second)];
    assert Duration.FormatSpans(spans[1..]) == "";
    assert Duration.Format(false, spans) == "0s";
    TranslateMaxAgeOfSpans(spans);
    ServedAs(CORSPolicy(["*"], true, [], [], [], "0s"), RouteCorsPolicy(Star, Some(true), "", "", "", "0"));
  }

  /** A negative max age drops the virtual host, leaving the route
      configuration empty, and marks the proxy invalid. */
  lemma InvalidMaxAge()
    ensures var invalid := Simple(CORSPolicy(["*"], true, [], [], [], "-10m"));
      IngressRouteConfiguration([invalid]) == ListenerRouteConfiguration("ingress_http", []) &&
      StatusFor(invalid) == Invalid(NegativeMaxAge("-10m"))
  {
    var spans := [Duration.Span(10, Duration.Minute)];
    assert Duration.FormatSpans(spans[1..]) == "";
    assert Decimal.Format(10) == "10";
    assert Duration.Format(true, spans) == "-10m";
    NegativeMaxAgeRejected(spans);
    SingleProxy(Simple(CORSPolicy(["*"], true, [], [], [], "-10m")));
  }
}
