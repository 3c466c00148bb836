/**
 * The Istio configuration records the wizard builds and the validation records
 * the service page shows, reduced to the fields this model reads or writes.
 * A JavaScript property that is absent or `undefined` is `None`.
 */
module IstioObjects {
  import opened Wrappers

  datatype Metadata = Metadata(namespace: string, name: string)

  /** `{[op]: value}`: one string comparison such as `{exact: "joe"}`. */
  datatype StringMatch = StringMatch(op: string, value: string)

  /**
   * One HTTPMatchRequest as the wizard writes it: either the grouped
   * `{headers: {<header>: {<op>: <value>}, ...}}` or a single
   * `{<field>: {<op>: <value>}}`.
   */
  datatype HTTPMatchRequest =
    | HeadersMatch(headers: map<string, StringMatch>)
    | FieldMatch(field: string, condition: StringMatch)

  /** A DestinationRule subset: its name and its label selector. */
  datatype Subset = Subset(name: Option<string>, labels: map<string, Option<string>>)

  /** `trafficPolicy`: `tls.mode` and `loadBalancer.simple`, each present or not. */
  datatype TrafficPolicy = TrafficPolicy(tlsMode: Option<string>, loadBalancer: Option<string>)

  datatype DestinationRule = DestinationRule(
    metadata: Metadata,
    host: string,
    subsets: seq<Subset>,
    trafficPolicy: Option<TrafficPolicy>)

  datatype Destination = Destination(host: string, subset: Option<string>)

  datatype DestinationWeight = DestinationWeight(destination: Destination, weight: Option<int>)

  /** An HTTPRoute: `match` (a reserved word here, hence `matches`) and `route`. */
  datatype HTTPRoute = HTTPRoute(matches: Option<seq<HTTPMatchRequest>>, route: seq<DestinationWeight>)

  /** A VirtualService spec: `{}` or `{hosts, http}`. */
  datatype VirtualServiceSpec =
    | EmptySpec
    | RoutingSpec(hosts: seq<string>, http: seq<HTTPRoute>)

  datatype VirtualService = VirtualService(metadata: Metadata, spec: VirtualServiceSpec)

  /** One validation finding on an Istio object. */
  datatype ValidationCheck = ValidationCheck(message: string, severity: string, path: string)

  /** The validation state of one Istio object. */
  datatype ObjectValidation = ObjectValidation(
    name: string,
    objectType: string,
    valid: bool,
    checks: seq<ValidationCheck>)
}
