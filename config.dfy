/**
 * The three policy toggles of `Brevo::Extras::Base`, read from an explicit
 * environment value instead of the process environment and Rails.
 */
module Config {
  import opened Wrappers
  import opened RubyText

  /** What the payload builder reads on every send: the raw values of
      `BREVO_SANDBOX_MODE`, `BREVO_SAFE_MODE` and
      `BREVO_SAFE_MODE_ALLOWED_DOMAINS` (`None` when unset), and whether
      Rails runs in a local environment (`Rails.env.local?`). */
  datatype Env = Env(
    sandboxModeVar: Option<string>,
    safeModeVar: Option<string>,
    allowedDomainsVar: Option<string>,
    isLocal: bool)

  /** `ENV.fetch(name, default)`. */
  function Fetch(v: Option<string>, default: string): string {
    if v.Some? then v.value else default
  }

  /** Strings that `ActiveModel::Type::Boolean#cast` turns into false, or
      into `nil` in the case of the empty string, which is just as falsy. */
  const FalseStrings: set<string> := {"", "0", "f", "F", "false", "FALSE", "off", "OFF"}

  /** `ActiveModel::Type::Boolean.new.cast(s)` on a string, read as a condition. */
  predicate CastBoolean(s: string) {
    s !in FalseStrings
  }

  /** `sandbox_mode?`: on unless `BREVO_SANDBOX_MODE` is set to a false string;
      unset means the default `"1"`. */
  function SandboxMode(env: Env): (on: bool)
    ensures env.sandboxModeVar.None? ==> on
    ensures env.sandboxModeVar == Some("1") ==> on
    ensures env.sandboxModeVar == Some("0") ==> !on
    ensures !on <==> env.sandboxModeVar.Some? && env.sandboxModeVar.value in FalseStrings
  {
    CastBoolean(Fetch(env.sandboxModeVar, "1"))
  }

  /** `safe_mode?`: on in every local environment, and otherwise unless
      `BREVO_SAFE_MODE` is set to a false string; unset means `"1"`. */
  function SafeMode(env: Env): (on: bool)
    ensures env.isLocal ==> on
    ensures env.safeModeVar.None? ==> on
    ensures !env.isLocal && env.safeModeVar == Some("0") ==> !on
    ensures !on <==> !env.isLocal && env.safeModeVar.Some? && env.safeModeVar.value in FalseStrings
  {
    CastBoolean(Fetch(env.safeModeVar, "1")) || env.isLocal
  }

  /** `safe_mode_domains`: the allowed-domains variable (default `""`) split
      at commas with Ruby's `split`, each field stripped at both ends.
      Fields are never lower-cased; an empty field survives as `""`. */
  function SafeModeDomains(env: Env): (domains: seq<string>)
    ensures var fields := Split(Fetch(env.allowedDomainsVar, ""), ',');
      |domains| == |fields| && forall i :: 0 <= i < |domains| ==> domains[i] == Strip(fields[i])
  {
    var fields := Split(Fetch(env.allowedDomainsVar, ""), ',');
    seq(|fields|, i requires 0 <= i < |fields| => Strip(fields[i]))
  }

  /** Every allowed domain is free of commas and neither starts nor ends
      with blanks. */
  lemma SafeModeDomainsShape(env: Env)
    ensures var domains := SafeModeDomains(env);
      forall i :: 0 <= i < |domains| ==> ',' !in domains[i] && Stripped(domains[i])
  {
    var fields := Split(Fetch(env.allowedDomainsVar, ""), ',');
    var domains := SafeModeDomains(env);
    SplitFields(Fetch(env.allowedDomainsVar, ""), ',');
    forall i | 0 <= i < |domains|
      ensures ',' !in domains[i] && Stripped(domains[i])
    {
      assert domains[i] == Strip(fields[i]);
      assert ',' !in fields[i];
      StripChars(fields[i]);
      StripEnds(fields[i]);
    }
  }

  /** The allowed-domain list is empty exactly when the variable is unset or
      holds nothing but commas (the empty string included). */
  lemma {:induction false} SafeModeDomainsEmptyIff(env: Env)
    ensures SafeModeDomains(env) == [] <==>
      env.allowedDomainsVar.None? ||
      forall k :: 0 <= k < |env.allowedDomainsVar.value| ==> env.allowedDomainsVar.value[k] == ','
  {
    SplitEmptyIff(Fetch(env.allowedDomainsVar, ""), ',');
  }
}
