/** The vocabulary shared by the resolver and the registry: service names and
    dependency declarations. */
module Services {

  type Name = string

  datatype Option<+T> = None | Some(value: T)

  /** How strongly a service needs a dependency. Only Required dependencies become
      edges of the dependency graph and only they are checked at start-up. */
  datatype DependencyType = Required | Optional | Runtime

  datatype ServiceDependency = ServiceDependency(
    name: Name,
    kind: DependencyType,
    fallback: Option<Name>,
    injectAs: Option<string>)

  /** The names a dependency list needs before start-up. */
  function RequiredNames(deps: seq<ServiceDependency>): set<Name> {
    set d | d in deps && d.kind.Required? :: d.name
  }

  /** A fallback counts only when it is non-empty and itself registered. */
  predicate UsableFallback(d: ServiceDependency, registered: set<Name>) {
    d.fallback.Some? && d.fallback.value != "" && d.fallback.value in registered
  }
}
