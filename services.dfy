/**
 * The container-side values the assembly generator reads. Runtime types and
 * service keys are reference objects in DryIoc; here each is a value whose
 * `handle` stands for what the generator's comparisons distinguish: for a
 * type, the runtime type itself (`==` on `Type`), so that two distinct types
 * with the same full name stay distinct; for a key, its `Equals` class
 * (`KV.Equals` compares keys with `object.Equals`, so two distinct string
 * objects "a" are one key). Requests carry no handle: they are compared
 * structurally, standing for `Request.Equals`.
 */
module Services {
  import opened Wrappers

  /** A runtime `Type`: which type it is, and its `FullName`. */
  datatype ServiceType = ServiceType(handle: nat, fullName: string)

  /**
   * A service key object: its `Equals` class and the text its `ToString()`
   * returns (which may be null). The text is taken to be fixed by the
   * `Equals` class: keys with one `handle` carry the same text.
   */
  datatype ServiceKey = ServiceKey(handle: nat, text: Option<string>)

  /** `ServiceInfo`: the service type and the optional (nullable) service key. */
  datatype ServiceInfo = ServiceInfo(serviceType: ServiceType, serviceKey: Option<ServiceKey>)

  /** `ServiceRegistrationInfo`: one registration of the source container. */
  datatype Registration = Registration(
    serviceType: ServiceType,
    optionalServiceKey: Option<ServiceKey>,
    asResolutionRoot: bool)
  {
    /** `ToServiceInfo()`: the service info of this registration. */
    function ToServiceInfo(): ServiceInfo {
      ServiceInfo(serviceType, optionalServiceKey)
    }
  }

  /**
   * A resolution `Request`. The parent is `None` for the empty request
   * (`Request.Empty`) that sits above every resolution root; equality of
   * requests is structural.
   */
  datatype Request = Request(
    serviceType: ServiceType,
    serviceKey: Option<ServiceKey>,
    requiredServiceType: Option<ServiceType>,
    parent: Option<Request>)

  /** The pair `KV.Of(ServiceType, ServiceKey)` by which roots and dependencies are grouped. */
  datatype Identity = Identity(serviceType: ServiceType, serviceKey: Option<ServiceKey>)

  function InfoIdentity(info: ServiceInfo): Identity {
    Identity(info.serviceType, info.serviceKey)
  }

  function RequestIdentity(request: Request): Identity {
    Identity(request.serviceType, request.serviceKey)
  }

  /** The source container, as far as root selection reads it: its registrations in order. */
  datatype Container = Container(registrations: seq<Registration>)

  /** A root and its factory expression (`KeyValuePair<ServiceInfo, Expression<FactoryDelegate>>`). */
  datatype RootEntry<E> = RootEntry(info: ServiceInfo, expression: E)

  /** A dependency occurrence and its expression (`KeyValuePair<Request, Expression>`). */
  datatype DependencyEntry<E> = DependencyEntry(request: Request, expression: E)

  /**
   * `ContainerTools.GeneratedExpressions`, the result of the container's
   * `GenerateResolutionExpressions`: the roots, and the dependency
   * occurrences met while resolving them.
   */
  datatype GeneratedExpressions<E> = GeneratedExpressions(
    roots: seq<RootEntry<E>>,
    resolveDependencies: seq<DependencyEntry<E>>)
}
