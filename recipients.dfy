/**
 * `safe_mode_recipients`: the safe-mode allow-list filter applied to the
 * `to` field of the payload.
 */
module Recipients {
  import opened Wrappers
  import opened RubyText
  import opened Config

  /** A recipient hash `{ email:, name: }`; either key may be missing. */
  datatype Recipient = Recipient(email: Option<string>, name: Option<string>)

  /** The `to:` argument: an array of recipients or one bare recipient. */
  datatype To = List(items: seq<Recipient>) | Single(item: Recipient)

  /** `recipient[:email].to_s`: a missing email reads as `""`. */
  function EmailText(r: Recipient): string {
    if r.email.Some? then r.email.value else ""
  }

  /** `recipient[:email].to_s.gsub(/\s/, "").downcase`. */
  function NormalizedEmail(r: Recipient): (e: string)
    ensures |e| <= |EmailText(r)|
  {
    Downcase(RemoveRegexSpace(EmailText(r)))
  }

  /** A normalised email holds neither whitespace nor upper-case letters. */
  lemma NormalizedEmailShape(r: Recipient)
    ensures var e := NormalizedEmail(r);
      forall k :: 0 <= k < |e| ==> !IsRegexSpace(e[k]) && !IsUpper(e[k])
  {
    var t := RemoveRegexSpace(EmailText(r));
    RemoveRegexSpaceSpec(EmailText(r));
    DowncaseSpec(t);
  }

  /** `domains.any? { |domain| email.end_with?("@#{domain}") }`: true exactly
      when some listed domain, prefixed with `@`, ends the email. */
  predicate AnyDomainMatches(email: string, domains: seq<string>) {
    domains != [] && (EndsWith(email, "@" + domains[0]) || AnyDomainMatches(email, domains[1..]))
  }

  /** `any?` holds exactly when some listed domain, prefixed with `@`, ends the email. */
  lemma {:induction false} AnyDomainMatchesIff(email: string, domains: seq<string>)
    ensures AnyDomainMatches(email, domains) <==> exists d :: d in domains && EndsWith(email, "@" + d)
  {
    if domains != [] {
      AnyDomainMatchesIff(email, domains[1..]);
      assert forall d :: d in domains <==> d == domains[0] || d in domains[1..];
    }
  }

  /** The safe-mode test of one recipient. */
  predicate Allowed(r: Recipient, domains: seq<string>) {
    AnyDomainMatches(NormalizedEmail(r), domains)
  }

  /** `recipients.select { ... }` with the allow-list test. */
  function Select(rs: seq<Recipient>, domains: seq<string>): (kept: seq<Recipient>)
    ensures |kept| <= |rs|
    ensures forall r :: r in kept ==> r in rs && Allowed(r, domains)
  {
    if rs == [] then []
    else if Allowed(rs[0], domains) then [rs[0]] + Select(rs[1..], domains)
    else Select(rs[1..], domains)
  }

  /** `recipients.is_a?(Array) ? recipients : [recipients]`. */
  function AsList(to: To): (rs: seq<Recipient>)
    ensures to.Single? ==> rs == [to.item]
    ensures to.List? ==> rs == to.items
  {
    match to
    case List(items) => items
    case Single(item) => [item]
  }

  /** `a` is `b` with some elements left out, order kept. */
  predicate IsSubsequence<T(==)>(a: seq<T>, b: seq<T>) {
    if a == [] then true
    else if b == [] then false
    else (a[0] == b[0] && IsSubsequence(a[1..], b[1..])) || IsSubsequence(a, b[1..])
  }

  /** `safe_mode_recipients(recipients)`: with safe mode off the argument comes
      back as it was, unwrapped; with safe mode on it becomes an array holding,
      in order, exactly the recipients whose normalised email ends with
      `"@" + d` for an allowed domain `d`. */
  function SafeModeRecipients(to: To, env: Env): (r: To)
    ensures !SafeMode(env) ==> r == to
    ensures SafeMode(env) ==> r.List? && IsSubsequence(r.items, AsList(to))
    ensures SafeMode(env) ==> forall x :: x in r.items <==> x in AsList(to) && Allowed(x, SafeModeDomains(env))
    ensures SafeMode(env) ==>
      forall x :: multiset(r.items)[x] == if Allowed(x, SafeModeDomains(env)) then multiset(AsList(to))[x] else 0
  {
    if !SafeMode(env) then to
    else
      var rs := AsList(to);
      var domains := SafeModeDomains(env);
      SelectSubsequence(rs, domains);
      SelectKeepsAllowed(rs, domains);
      SelectCounts(rs, domains);
      List(Select(rs, domains))
  }

  /** The filter keeps the input order. */
  lemma {:induction false} SelectSubsequence(rs: seq<Recipient>, domains: seq<string>)
    ensures IsSubsequence(Select(rs, domains), rs)
  {
    if rs != [] {
      SelectSubsequence(rs[1..], domains);
    }
  }

  /** Every allowed recipient of the input is kept. */
  lemma {:induction false} SelectKeepsAllowed(rs: seq<Recipient>, domains: seq<string>)
    ensures forall x :: x in rs && Allowed(x, domains) ==> x in Select(rs, domains)
  {
    if rs != [] {
      SelectKeepsAllowed(rs[1..], domains);
      assert forall x :: x in rs ==> x == rs[0] || x in rs[1..];
    }
  }

  /** Exactly the allowed recipients are kept, each as often as it occurs. */
  lemma {:induction false} SelectCount(rs: seq<Recipient>, domains: seq<string>, x: Recipient)
    ensures multiset(Select(rs, domains))[x] == if Allowed(x, domains) then multiset(rs)[x] else 0
  {
    if rs != [] {
      SelectCount(rs[1..], domains, x);
      assert rs == [rs[0]] + rs[1..];
    }
  }

  /** `SelectCount` for every recipient at once. */
  lemma SelectCounts(rs: seq<Recipient>, domains: seq<string>)
    ensures forall x :: multiset(Select(rs, domains))[x] == if Allowed(x, domains) then multiset(rs)[x] else 0
  {
    forall x
      ensures multiset(Select(rs, domains))[x] == if Allowed(x, domains) then multiset(rs)[x] else 0
    {
      SelectCount(rs, domains, x);
    }
  }

  /** Filtering a concatenation filters each part. */
  lemma {:induction false} SelectAppend(a: seq<Recipient>, b: seq<Recipient>, domains: seq<string>)
    ensures Select(a + b, domains) == Select(a, domains) + Select(b, domains)
  {
    if a == [] {
      assert a + b == b;
    } else {
      assert (a + b)[1..] == a[1..] + b;
      SelectAppend(a[1..], b, domains);
    }
  }

  /** The filter returns its input exactly when every recipient is allowed. */
  lemma {:induction false} SelectUnchangedIff(rs: seq<Recipient>, domains: seq<string>)
    ensures Select(rs, domains) == rs <==> forall x :: x in rs ==> Allowed(x, domains)
  {
    if rs != [] {
      SelectUnchangedIff(rs[1..], domains);
      assert forall x :: x in rs ==> x == rs[0] || x in rs[1..];
      if !Allowed(rs[0], domains) {
        assert |Select(rs, domains)| < |rs|;
      }
    }
  }

  /** Filtering twice with the same domains is filtering once. */
  lemma SelectIdempotent(rs: seq<Recipient>, domains: seq<string>)
    ensures Select(Select(rs, domains), domains) == Select(rs, domains)
  {
    SelectUnchangedIff(Select(rs, domains), domains);
  }

  /** With no allowed domain nobody is kept. */
  lemma {:induction false} SelectNoDomains(rs: seq<Recipient>)
    ensures Select(rs, []) == []
  {
    if rs != [] {
      SelectNoDomains(rs[1..]);
    }
  }

  /** A recipient without an email never passes: `""` ends with no `"@" + d`. */
  lemma MissingEmailNeverAllowed(r: Recipient, domains: seq<string>)
    requires r.email.None?
    ensures !Allowed(r, domains)
  {
    AnyDomainMatchesIff(NormalizedEmail(r), domains);
  }

  /** A domain entry holding an upper-case letter never matches, because only
      the email side is lower-cased. */
  lemma UpperCaseDomainNeverMatches(r: Recipient, d: string)
    requires exists k :: 0 <= k < |d| && IsUpper(d[k])
    ensures !EndsWith(NormalizedEmail(r), "@" + d)
  {
    var e := NormalizedEmail(r);
    NormalizedEmailShape(r);
    var k :| 0 <= k < |d| && IsUpper(d[k]);
    if |d| + 1 <= |e| {
      var i := |e| - |d| - 1 + (k + 1);
      assert !IsUpper(e[i]);
      assert e[|e| - |d| - 1..][k + 1] == e[i];
      assert ("@" + d)[k + 1] == d[k];
    }
  }

  /** An empty entry in the domain list (a blank field of the variable)
      admits every email that ends with `@`. */
  lemma EmptyDomainAdmitsTrailingAt(r: Recipient, domains: seq<string>)
    requires "" in domains
    requires EndsWith(NormalizedEmail(r), "@")
    ensures Allowed(r, domains)
  {
    AnyDomainMatchesIff(NormalizedEmail(r), domains);
    assert "@" + "" == "@";
  }

  /** Safe-mode filtering is idempotent. */
  lemma SafeModeRecipientsIdempotent(to: To, env: Env)
    ensures SafeModeRecipients(SafeModeRecipients(to, env), env) == SafeModeRecipients(to, env)
  {
    if SafeMode(env) {
      SelectIdempotent(AsList(to), SafeModeDomains(env));
    }
  }

  /** Safe-mode filtering never produces more recipients than it was given. */
  lemma SafeModeRecipientsNoLonger(to: To, env: Env)
    ensures |AsList(SafeModeRecipients(to, env))| <= |AsList(to)|
  {
  }

  /** With safe mode on and the allowed-domains variable unset or empty,
      every recipient is dropped. */
  lemma SafeModeNoDomainsDropsAll(to: To, env: Env)
    requires SafeMode(env)
    requires env.allowedDomainsVar.None? || env.allowedDomainsVar == Some("")
    ensures SafeModeRecipients(to, env) == List([])
  {
    SafeModeDomainsEmptyIff(env);
    SelectNoDomains(AsList(to));
  }
}
