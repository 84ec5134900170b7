/**
 * Concrete runs of the safe-mode filter, one per recipient scenario of the
 * repository's test suite for `Brevo::Extras::Base`.
 */
module Scenarios {
  import opened Wrappers
  import opened RubyText
  import opened Config
  import opened Recipients

  /** An email that normalisation leaves alone. */
  predicate IsPlain(e: string) {
    forall k :: 0 <= k < |e| ==> !IsRegexSpace(e[k]) && !IsUpper(e[k])
  }

  /** For an email already in normal form the allow-list decision is the
      `any?` test on the email as given. */
  lemma PlainEmailDecision(r: Recipient, domains: seq<string>)
    requires r.email.Some? && IsPlain(r.email.value)
    ensures Allowed(r, domains) <==> AnyDomainMatches(r.email.value, domains)
  {
    RemoveRegexSpaceUnchanged(r.email.value);
    DowncaseUnchanged(r.email.value);
  }

  /** A single domain without commas or surrounding blanks is the whole list. */
  lemma SingleDomain(env: Env, d: string)
    requires env.allowedDomainsVar == Some(d) && d != [] && ',' !in d && Stripped(d)
    ensures SafeModeDomains(env) == [d]
  {
    SplitAllNoSeparator(d, ',');
    StripUnchanged(d);
  }

  /** The filter of a list of two. */
  lemma SelectPair(a: Recipient, b: Recipient, domains: seq<string>)
    ensures Select([a, b], domains)
      == (if Allowed(a, domains) then [a] else []) + (if Allowed(b, domains) then [b] else [])
  {
    assert [a, b][1..] == [b];
    assert [b][1..] == [];
  }

  /** With safe mode on, the filter of a list of two once each decision is known. */
  lemma SafeModePair(a: Recipient, b: Recipient, env: Env, domains: seq<string>)
    requires SafeMode(env) && SafeModeDomains(env) == domains
    ensures SafeModeRecipients(List([a, b]), env)
      == List((if Allowed(a, domains) then [a] else []) + (if Allowed(b, domains) then [b] else []))
  {
    SelectPair(a, b, domains);
  }

  lemma SafeComPlain()
    ensures IsPlain("user@safe.com")
  {
  }

  lemma SafeComMatch()
    ensures AnyDomainMatches("user@safe.com", ["safe.com"])
  {
  }

  lemma UnsafeComPlain()
    ensures IsPlain("user@unsafe.com")
  {
  }

  lemma UnsafeComMismatch()
    ensures !AnyDomainMatches("user@unsafe.com", ["safe.com"])
  {
    assert "user@unsafe.com"[6] != ("@" + "safe.com")[0];
  }

  lemma SafeComDecisions(safe: Recipient, unsafe: Recipient)
    requires safe.email.Some? && safe.email.value == "user@safe.com"
    requires unsafe.email.Some? && unsafe.email.value == "user@unsafe.com"
    ensures Allowed(safe, ["safe.com"]) && !Allowed(unsafe, ["safe.com"])
  {
    SafeComPlain();
    SafeComMatch();
    PlainEmailDecision(safe, ["safe.com"]);
    UnsafeComPlain();
    UnsafeComMismatch();
    PlainEmailDecision(unsafe, ["safe.com"]);
  }

  /** Safe mode on, domain list `["safe.com"]`: of `user@safe.com` and
      `user@unsafe.com` only the first is kept. */
  lemma RejectsOtherDomainsParsed(safe: Recipient, unsafe: Recipient, env: Env)
    requires safe.email.Some? && safe.email.value == "user@safe.com"
    requires unsafe.email.Some? && unsafe.email.value == "user@unsafe.com"
    requires SafeMode(env) && SafeModeDomains(env) == ["safe.com"]
    ensures SafeModeRecipients(List([safe, unsafe]), env) == List([safe])
  {
    SafeComDecisions(safe, unsafe);
    SafeModePair(safe, unsafe, env, ["safe.com"]);
  }

  lemma NotAllowedPlain()
    ensures IsPlain("user@notallowed.com")
  {
  }

  lemma NotAllowedMismatch()
    ensures !AnyDomainMatches("user@notallowed.com", ["allowed.com"])
  {
    assert "user@notallowed.com"[7] != ("@" + "allowed.com")[0];
  }

  /** Local environment, `BREVO_SAFE_MODE` set to `"0"`, domain list
      `["allowed.com"]`: `user@notallowed.com` is dropped. */
  lemma LocalEnvironmentFiltersParsed(r: Recipient, env: Env)
    requires r.email.Some? && r.email.value == "user@notallowed.com"
    requires env.safeModeVar == Some("0") && env.isLocal && SafeModeDomains(env) == ["allowed.com"]
    ensures SafeModeRecipients(List([r]), env) == List([])
  {
    NotAllowedPlain();
    NotAllowedMismatch();
    PlainEmailDecision(r, ["allowed.com"]);
    assert [r][1..] == [];
  }

  /** One leading blank in front of a clean string is all `strip` removes. */
  lemma StripLeadingBlank(t: string)
    requires t != [] && Stripped(t)
    ensures Strip([' '] + t) == t
  {
    var b := [' '] + t;
    assert b[1..] == t;
    assert LStrip(b) == LStrip(t);
    StripUnchanged(t);
  }

  /** `"a, b".split(",")` for comma-free, non-empty `a` and `b`. */
  lemma SplitCommaBlank(a: string, b: string)
    requires a != [] && ',' !in a && b != [] && ',' !in b
    ensures Split(a + [',', ' '] + b, ',') == [a, [' '] + b]
  {
    var b' := [' '] + b;
    assert a + [','] + b' == a + [',', ' '] + b;
    SplitAllAtSeparator(a, b', ',');
    SplitAllNoSeparator(b', ',');
    assert SplitAll(a + [',', ' '] + b, ',') == [a, b'];
  }

  /** A domains variable that splits into two fields gives their stripped forms. */
  lemma DomainsOfTwoFields(env: Env, f0: string, f1: string)
    requires Split(Fetch(env.allowedDomainsVar, ""), ',') == [f0, f1]
    ensures SafeModeDomains(env) == [Strip(f0), Strip(f1)]
  {
    TwoElements(SafeModeDomains(env), Strip(f0), Strip(f1));
  }

  /** A list of length two is the display of its two elements. */
  lemma TwoElements(s: seq<string>, x: string, y: string)
    requires |s| == 2 && s[0] == x && s[1] == y
    ensures s == [x, y]
  {
  }

  /** Two clean domains written `a, b` (a blank after the comma) give the
      list `[a, b]`: the blank is stripped, nothing else changes. */
  lemma TwoDomains(env: Env, a: string, b: string)
    requires a != [] && ',' !in a && Stripped(a)
    requires b != [] && ',' !in b && Stripped(b)
    requires env.allowedDomainsVar == Some(a + [',', ' '] + b)
    ensures SafeModeDomains(env) == [a, b]
  {
    SplitCommaBlank(a, b);
    DomainsOfTwoFields(env, a, [' '] + b);
    StripUnchanged(a);
    StripLeadingBlank(b);
  }

  /** `example.com` and `atnos.com` are clean domains. */
  lemma ExampleAndAtnosClean()
    ensures ',' !in "example.com" && Stripped("example.com")
    ensures ',' !in "atnos.com" && Stripped("atnos.com")
  {
  }

  lemma ExampleComPlain()
    ensures IsPlain("user@example.com")
  {
  }

  lemma ExampleComMatch()
    ensures AnyDomainMatches("user@example.com", ["example.com", "atnos.com"])
  {
    assert EndsWith("user@example.com", "@" + "example.com") by {
      assert "user@example.com"[4..] == "@" + "example.com";
    }
  }

  lemma AtnosComPlain()
    ensures IsPlain("user@atnos.com")
  {
  }

  lemma AtnosComMatch()
    ensures AnyDomainMatches("user@atnos.com", ["example.com", "atnos.com"])
  {
    assert ["example.com", "atnos.com"][1..] == ["atnos.com"];
  }

  lemma OtherComPlain()
    ensures IsPlain("user@other.com")
  {
  }

  lemma OtherComMismatch()
    ensures !AnyDomainMatches("user@other.com", ["example.com", "atnos.com"])
  {
    assert ["example.com", "atnos.com"][1..] == ["atnos.com"];
    assert "user@other.com"[1] != ("@" + "example.com")[0];
    assert "user@other.com"[5] != ("@" + "atnos.com")[1];
  }

  lemma SeveralDomainDecisions(a: Recipient, b: Recipient, c: Recipient)
    requires a.email.Some? && a.email.value == "user@example.com"
    requires b.email.Some? && b.email.value == "user@atnos.com"
    requires c.email.Some? && c.email.value == "user@other.com"
    ensures var domains := ["example.com", "atnos.com"];
      Allowed(a, domains) && Allowed(b, domains) && !Allowed(c, domains)
  {
    var domains := ["example.com", "atnos.com"];
    ExampleComPlain();
    ExampleComMatch();
    PlainEmailDecision(a, domains);
    AtnosComPlain();
    AtnosComMatch();
    PlainEmailDecision(b, domains);
    OtherComPlain();
    OtherComMismatch();
    PlainEmailDecision(c, domains);
  }

  /** The filter of a list of three whose last member alone is dropped. */
  lemma SelectDropsLast(a: Recipient, b: Recipient, c: Recipient, domains: seq<string>)
    requires Allowed(a, domains) && Allowed(b, domains) && !Allowed(c, domains)
    ensures Select([a, b, c], domains) == [a, b]
  {
    assert [a, b, c][1..] == [b, c];
    assert [b, c][1..] == [c];
    assert [c][1..] == [];
    assert Select([c], domains) == [];
    assert Select([b, c], domains) == [b];
  }

  /** With safe mode on, the filter of a list of three whose last member
      alone is dropped. */
  lemma SafeModeDropsLast(a: Recipient, b: Recipient, c: Recipient, env: Env, domains: seq<string>)
    requires SafeMode(env) && SafeModeDomains(env) == domains
    requires Allowed(a, domains) && Allowed(b, domains) && !Allowed(c, domains)
    ensures SafeModeRecipients(List([a, b, c]), env) == List([a, b])
  {
    SelectDropsLast(a, b, c, domains);
  }

  /** Domain list `["example.com", "atnos.com"]`: recipients of both are
      kept, in order, and the one of `other.com` is dropped. */
  lemma SupportsSeveralDomainsParsed(a: Recipient, b: Recipient, c: Recipient, env: Env)
    requires a.email.Some? && a.email.value == "user@example.com"
    requires b.email.Some? && b.email.value == "user@atnos.com"
    requires c.email.Some? && c.email.value == "user@other.com"
    requires SafeMode(env) && SafeModeDomains(env) == ["example.com", "atnos.com"]
    ensures SafeModeRecipients(List([a, b, c]), env) == List([a, b])
  {
    SeveralDomainDecisions(a, b, c);
    SafeModeDropsLast(a, b, c, env, ["example.com", "atnos.com"]);
  }

  lemma ExampleComOnlyMatch()
    ensures AnyDomainMatches("user@example.com", ["example.com"])
  {
    assert EndsWith("user@example.com", "@" + "example.com") by {
      assert "user@example.com"[4..] == "@" + "example.com";
    }
  }

  /** Safe mode on, domain list `["example.com"]`: `user@example.com` is kept. */
  lemma FiltersToAllowedDomainParsed(r: Recipient, env: Env)
    requires r.email.Some? && r.email.value == "user@example.com"
    requires SafeMode(env) && SafeModeDomains(env) == ["example.com"]
    ensures SafeModeRecipients(List([r]), env) == List([r])
  {
    ExampleComPlain();
    ExampleComOnlyMatch();
    PlainEmailDecision(r, ["example.com"]);
    assert [r][1..] == [];
  }

  lemma SafeComClean()
    ensures "safe.com" != [] && ',' !in "safe.com" && Stripped("safe.com")
  {
  }

  lemma AllowedComClean()
    ensures "allowed.com" != [] && ',' !in "allowed.com" && Stripped("allowed.com")
  {
  }

  /** `BREVO_SAFE_MODE` set to `"1"` turns safe mode on. */
  lemma SafeModeSetToOne(env: Env)
    requires env.safeModeVar == Some("1")
    ensures SafeMode(env)
  {
  }

  /** The test "safe mode filters recipients to allowed domains":
      `BREVO_SAFE_MODE=1`, `BREVO_SAFE_MODE_ALLOWED_DOMAINS=example.com`,
      and `user@example.com` is kept. */
  lemma FiltersToAllowedDomain(r: Recipient, env: Env)
    requires r.email.Some? && r.email.value == "user@example.com"
    requires env.safeModeVar == Some("1") && env.allowedDomainsVar == Some("example.com")
    ensures SafeModeRecipients(List([r]), env) == List([r])
  {
    SafeModeSetToOne(env);
    ExampleAndAtnosClean();
    SingleDomain(env, "example.com");
    FiltersToAllowedDomainParsed(r, env);
  }

  /** The test "safe mode is always active in local Rails environments":
      a local environment with `BREVO_SAFE_MODE=0` and
      `BREVO_SAFE_MODE_ALLOWED_DOMAINS=allowed.com` drops `user@notallowed.com`. */
  lemma LocalEnvironmentFilters(r: Recipient, env: Env)
    requires r.email.Some? && r.email.value == "user@notallowed.com"
    requires env.safeModeVar == Some("0") && env.isLocal && env.allowedDomainsVar == Some("allowed.com")
    ensures SafeModeRecipients(List([r]), env) == List([])
  {
    AllowedComClean();
    SingleDomain(env, "allowed.com");
    LocalEnvironmentFiltersParsed(r, env);
  }

  /** The test "safe mode rejects recipients from non-allowed domains":
      `BREVO_SAFE_MODE=1`, `BREVO_SAFE_MODE_ALLOWED_DOMAINS=safe.com`; of
      `user@safe.com` and `user@unsafe.com` only the first is kept. */
  lemma RejectsOtherDomains(safe: Recipient, unsafe: Recipient, env: Env)
    requires safe.email.Some? && safe.email.value == "user@safe.com"
    requires unsafe.email.Some? && unsafe.email.value == "user@unsafe.com"
    requires env.safeModeVar == Some("1") && env.allowedDomainsVar == Some("safe.com")
    ensures SafeModeRecipients(List([safe, unsafe]), env) == List([safe])
  {
    SafeModeSetToOne(env);
    SafeComClean();
    SingleDomain(env, "safe.com");
    RejectsOtherDomainsParsed(safe, unsafe, env);
  }

  /** The test "safe mode supports multiple allowed domains":
      `BREVO_SAFE_MODE=1`,
      `BREVO_SAFE_MODE_ALLOWED_DOMAINS=example.com, atnos.com`; the recipients
      of both domains are kept in order and the one of `other.com` is dropped. */
  lemma SupportsSeveralDomains(a: Recipient, b: Recipient, c: Recipient, env: Env)
    requires a.email.Some? && a.email.value == "user@example.com"
    requires b.email.Some? && b.email.value == "user@atnos.com"
    requires c.email.Some? && c.email.value == "user@other.com"
    requires env.safeModeVar == Some("1") && env.allowedDomainsVar == Some("example.com, atnos.com")
    ensures SafeModeRecipients(List([a, b, c]), env) == List([a, b])
  {
    SafeModeSetToOne(env);
    ExampleAndAtnosClean();
    assert "example.com" + [',', ' '] + "atnos.com" == "example.com, atnos.com";
    TwoDomains(env, "example.com", "atnos.com");
    SupportsSeveralDomainsParsed(a, b, c, env);
  }
}
