/**
  The collaborators the resolver works with: requirements, providers, and the
  configuration store that requirements are validated against.
 */
module Configuration {
  import opened Capability

  /** The separator between segments of a configuration path. */
  const ConfigSeparator: string := "."

  /**
    A schema entry.  `Plain` is a requirement that needs no provider; a
    `Constraint` requirement must be resolved by a provider whose declared
    capabilities overlap its `constraints`.
   */
  datatype Requirement =
    | Plain(name: string, optional: bool)
    | Constraint(name: string, optional: bool, constraints: map<Key, CapValue>)

  /**
    A provider: its priority (higher is tried first), the capabilities it
    declares, and its own schema of requirements.  `name` stands for the
    provider class's identity.
   */
  // `capabilities` is the source's `provides` class attribute.
  datatype Provider = Provider(name: string, priority: int, capabilities: map<Key, CapValue>, schema: seq<Requirement>)

  /** A stored configuration value; the resolver never looks inside one. */
  type Value(==)

  /** The configuration store: a map from configuration path to value. */
  type Config = map<string, Value>

  /** One call of a provider's `fulfill`: which provider, for which requirement, at which path. */
  datatype Fulfilment = Fulfilment(provider: Provider, requirement: Requirement, path: string)

  /**
    The context validation runs against: the configuration store, and the
    record of the `fulfill` calls made on it so far, oldest first.
   */
  datatype Context = Context(config: Config, fulfilled: seq<Fulfilment>)

  /**
    The two foreign calls: `requirement.validate(value, context)` answers
    whether a stored value is acceptable (false stands for any exception it
    raises), and `provider.fulfill(context, requirement, path)` updates the
    configuration.
   */
  datatype Collaborators = Collaborators(
    validate: (Requirement, Value, Config) -> bool,
    fulfill: (Provider, Config, Requirement, string) -> Config)

  /**
    `provider.fulfill(context, requirement, path)`, with the call recorded.
    The postconditions spell out the two fields so that proofs about the
    record of commits need not unfold the definition.
   */
  function Fulfill(env: Collaborators, ctx: Context, p: Provider, req: Requirement, path: string): (r: Context)
    ensures r.fulfilled == ctx.fulfilled + [Fulfilment(p, req, path)]
    ensures r.config == env.fulfill(p, ctx.config, req, path)
  {
    Context(env.fulfill(p, ctx.config, req, path), ctx.fulfilled + [Fulfilment(p, req, path)])
  }

  /**
    The value check of one requirement at `path`: the stored value must exist
    and be accepted by `validate`.  A missing key and a rejected value are
    both failures.
   */
  predicate ValueAccepted(env: Collaborators, ctx: Context, req: Requirement, path: string)
  {
    path in ctx.config && env.validate(req, ctx.config[path], ctx.config)
  }
}
