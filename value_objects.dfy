/**
 * Value objects of the domain model (app/domain/model/value_objects.py):
 * the environment tag, the health status and the version wrapper.
 */
module ValueObjects {
  import opened Wrappers

  /** `ServiceId` is a `NewType` over `str`. */
  type ServiceId = string

  /** The five environment tags; each carries a lower-case string value. */
  datatype Environment = Production | Staging | Uat | Dev | Unknown {
    function Value(): string {
      match this
      case Production => "production"
      case Staging => "staging"
      case Uat => "uat"
      case Dev => "dev"
      case Unknown => "unknown"
    }
  }

  /** Every string an `Environment` accepts. */
  const EnvironmentValues: set<string> := {"production", "staging", "uat", "dev", "unknown"}

  /**
   * `Environment(s)`: the member whose value is `s`; `None` is the `ValueError`
   * the enum raises for any other string (exact, case-sensitive match).
   */
  function EnvironmentFromValue(s: string): (r: Option<Environment>)
    ensures r.Some? <==> s in EnvironmentValues
    ensures r.Some? ==> r.value.Value() == s
  {
    if s == "production" then Some(Environment.Production)
    else if s == "staging" then Some(Environment.Staging)
    else if s == "uat" then Some(Environment.Uat)
    else if s == "dev" then Some(Environment.Dev)
    else if s == "unknown" then Some(Environment.Unknown)
    else None
  }

  /** Parsing the value of a member gives that member back, and values are pairwise distinct. */
  lemma EnvironmentValueRoundTrip(e: Environment)
    ensures e.Value() in EnvironmentValues
    ensures EnvironmentFromValue(e.Value()) == Some(e)
  {
  }

  /** The three health statuses; each carries its own name as string value. */
  datatype HealthStatus = Up | Down | Unknown {
    function Value(): string {
      match this
      case Up => "UP"
      case Down => "DOWN"
      case Unknown => "UNKNOWN"
    }
  }

  const HealthStatusValues: set<string> := {"UP", "DOWN", "UNKNOWN"}

  /** `HealthStatus(s)`: the member whose value is `s`, `None` for a `ValueError`. */
  function HealthStatusFromValue(s: string): (r: Option<HealthStatus>)
    ensures r.Some? <==> s in HealthStatusValues
    ensures r.Some? ==> r.value.Value() == s
  {
    if s == "UP" then Some(HealthStatus.Up)
    else if s == "DOWN" then Some(HealthStatus.Down)
    else if s == "UNKNOWN" then Some(HealthStatus.Unknown)
    else None
  }

  lemma HealthStatusValueRoundTrip(h: HealthStatus)
    ensures h.Value() in HealthStatusValues
    ensures HealthStatusFromValue(h.Value()) == Some(h)
  {
  }

  /** A frozen wrapper around a version string; equality only, no ordering. */
  datatype Version = Version(value: string) {
    /** `__str__`: the wrapped string, so that wrapping it again gives this version. */
    function ToString(): (s: string)
      ensures Version(s) == this
    {
      value
    }

    /** `is_same_as`: false against an absent version, otherwise string equality. */
    predicate IsSameAs(other: Option<Version>)
    {
      other.Some? && value == other.value.value
    }
  }

  /**
   * `v.value if v else None` (equally `str(v) if v else None`): a `Version` object is
   * always truthy, so only an absent version gives `None`, and the text wraps back
   * into the same version.
   */
  function VersionText(v: Option<Version>): (t: Option<string>)
    ensures t.Some? <==> v.Some?
    ensures t.Some? ==> Version(t.value) == v.value
  {
    if v.Some? then Some(v.value.ToString()) else None
  }

  /** `is_same_as` holds exactly when the other version is present and wraps the same string. */
  lemma IsSameAsIsStringEquality(v: Version, other: Option<Version>)
    ensures !v.IsSameAs(None)
    ensures v.IsSameAs(other) <==> other == Some(v)
    ensures v.IsSameAs(Some(v))
    ensures other.Some? ==> (v.IsSameAs(other) <==> other.value.IsSameAs(Some(v)))
  {
  }
}
