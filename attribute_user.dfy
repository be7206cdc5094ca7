/**
 * `CustomAttributeUser`: a user wrapper that filters the attribute map on
 * every read and write according to the configured definitions.
 */
module AttributeUser {
  import opened AttributeDefinition
  import opened Configuration

  /** The requested method a wrapper was created for. */
  datatype Method = READ | WRITE

  /** Whether a definition allows its attribute under the given method. */
  function Permits(d: Definition, m: Method): bool
  {
    match m
    case READ => d.CanRead()
    case WRITE => d.CanWrite()
  }

  /**
   * The map left after visiting `defs` in order and removing the key of
   * every definition that does not permit `m`. Only keys are removed; a key
   * is removed as soon as one definition naming it denies (deny wins); a key
   * no denying definition names passes through with its value.
   */
  function StripDenied(m: Method, defs: seq<Definition>, attrs: map<string, string>): (r: map<string, string>)
    ensures forall k :: k in r ==> k in attrs && r[k] == attrs[k]
    ensures forall d :: d in defs && !Permits(d, m) ==> d.name !in r
    ensures forall k :: k in attrs && (forall d :: d in defs && d.name == k ==> Permits(d, m)) ==> k in r
    decreases |defs|
  {
    if defs == [] then attrs
    else
      var prior := StripDenied(m, defs[..|defs| - 1], attrs);
      var d := defs[|defs| - 1];
      assert defs == defs[..|defs| - 1] + [d];
      if Permits(d, m) then prior else prior - {d.name}
  }

  /** One more definition visited: its key is removed iff it denies. */
  lemma StripDeniedStep(m: Method, defs: seq<Definition>, i: nat, attrs: map<string, string>)
    requires i < |defs|
    ensures StripDenied(m, defs[..i + 1], attrs)
         == if Permits(defs[i], m) then StripDenied(m, defs[..i], attrs)
            else StripDenied(m, defs[..i], attrs) - {defs[i].name}
  {
    assert defs[..i + 1][..i] == defs[..i];
  }

  /** Without definitions the filter is the identity. */
  lemma NoDefinitions(m: Method, attrs: map<string, string>)
    ensures StripDenied(m, [], attrs) == attrs
  {
  }

  /** Filtering twice is filtering once: nested wrappers do not filter more. */
  lemma StripDeniedIdempotent(m: Method, defs: seq<Definition>, attrs: map<string, string>)
    ensures StripDenied(m, defs, StripDenied(m, defs, attrs)) == StripDenied(m, defs, attrs)
  {
  }

  /** The host's own user (the delegate of `DelegatingUser`) and its stored attribute map. */
  class HostUser {
    const identifier: string
    var attributes: map<string, string>

    constructor (identifier: string, attributes: map<string, string>)
      ensures this.identifier == identifier && this.attributes == attributes
    {
      this.identifier := identifier;
      this.attributes := attributes;
    }
  }

  /** `requested` is the Java field `method`, a Dafny keyword. */
  class CustomAttributeUser {
    const requested: Method
    const confService: ConfigurationService
    const delegate: HostUser

    /** Wraps `user`; the constructor stores its three arguments. */
    constructor (confService: ConfigurationService, requested: Method, user: HostUser)
      ensures this.confService == confService && this.requested == requested && delegate == user
    {
      this.confService := confService;
      this.requested := requested;
      this.delegate := user;
    }

    /** `getUndecorated`: exactly the wrapped user. */
    method GetUndecorated() returns (user: HostUser)
      ensures user == delegate
    {
      user := delegate;
    }

    /**
     * `getAttributes`: a copy of the delegate's map without the keys of
     * definitions that deny this wrapper's requested method. It changes nothing, so
     * the delegate's stored map is left as it was.
     */
    method GetAttributes() returns (attributes: map<string, string>)
      ensures attributes == StripDenied(requested, confService.GetCustomAttributes(), delegate.attributes)
    {
      attributes := delegate.attributes;
      var customAttributes := confService.GetCustomAttributes();
      if requested == READ {
        for i := 0 to |customAttributes|
          invariant attributes == StripDenied(READ, customAttributes[..i], delegate.attributes)
        {
          var def := customAttributes[i];
          StripDeniedStep(READ, customAttributes, i, delegate.attributes);
          if !def.CanRead() {
            attributes := attributes - {def.name};
          }
        }
      } else if requested == WRITE {
        for i := 0 to |customAttributes|
          invariant attributes == StripDenied(WRITE, customAttributes[..i], delegate.attributes)
        {
          var def := customAttributes[i];
          StripDeniedStep(WRITE, customAttributes, i, delegate.attributes);
          if !def.CanWrite() {
            attributes := attributes - {def.name};
          }
        }
      }
      assert customAttributes[..|customAttributes|] == customAttributes;
    }

    /**
     * `setAttributes`: in either method, the delegate receives the caller's
     * map without the keys of non-writable definitions. The caller's map is
     * a value and is not changed.
     */
    method SetAttributes(attributes: map<string, string>)
      modifies delegate
      ensures delegate.attributes == StripDenied(WRITE, confService.GetCustomAttributes(), attributes)
    {
      var copy := attributes;
      var customAttributes := confService.GetCustomAttributes();
      for i := 0 to |customAttributes|
        invariant copy == StripDenied(WRITE, customAttributes[..i], attributes)
      {
        var def := customAttributes[i];
        StripDeniedStep(WRITE, customAttributes, i, attributes);
        if !def.CanWrite() {
          copy := copy - {def.name};
        }
      }
      assert customAttributes[..|customAttributes|] == customAttributes;
      delegate.attributes := copy;
    }
  }

  /**
   * With `r:General:nickname:text`, reading passes `nickname` and the
   * unconfigured `age` through, while writing strips the read-only `nickname`.
   */
  lemma ReadOnlyNicknameScenario()
    ensures var defs := [Definition("r", "General", "nickname", "text", Wrappers.None)];
      && StripDenied(READ, defs, map["nickname" := "Al", "age" := "30"]) == map["nickname" := "Al", "age" := "30"]
      && StripDenied(WRITE, defs, map["nickname" := "Zed"]) == map[]
  {
    var d := Definition("r", "General", "nickname", "text", Wrappers.None);
    assert d.methodToken[0] == 'r';
    assert 'w' !in d.methodToken && 'W' !in d.methodToken;
  }
}
