# brevo-extras: the email payload builder of `Brevo::Extras::Base`

`Brevo::Extras::Base` is the superclass of every transactional mailer in
brevo-extras. A subclass calls `send_email(template_id:, to:, reply_to:)`.
That call builds the payload hash for the Brevo transactional-email API
(`templateId`, `to`, optional `replyTo`, `params`), applies two policies read
from the process environment, and hands the hash to a background delivery job.
The two policies are:

- **safe mode** (`BREVO_SAFE_MODE`, default on, always on in a local Rails
  environment) keeps only the recipients whose normalised email ends with
  `@` followed by a domain listed in `BREVO_SAFE_MODE_ALLOWED_DOMAINS`;
- **sandbox mode** (`BREVO_SANDBOX_MODE`, default on) adds the header
  `X-Sib-Sandbox: drop`, so the API accepts the email but does not deliver it.

The model has five modules:

- `RubyText` (`ruby_text.dfy`) writes out the Ruby `String` operations the
  class relies on: `gsub(/\s/, "")`, ASCII `downcase`, `strip`, `end_with?` and
  `split(",")`. `split` keeps leading and inner empty fields and drops
  trailing ones.
- `Config` (`config.dfy`) covers the three environment variables and
  `Rails.env.local?`. They are gathered in an explicit `Env` value, read with
  `ENV.fetch` defaults and cast with ActiveModel's Boolean rules: `"0"`,
  `"f"`, `"F"`, `"false"`, `"FALSE"`, `"off"` and `"OFF"` cast to false, `""`
  casts to `nil` (falsy), and every other string is true.
- `Recipients` (`recipients.dfy`) is `safe_mode_recipients`: the
  order-preserving allow-list filter and its properties.
- `Extras` (`extras.dfy`) is the class `Base` with `build_email_data` and
  `send_email`. The payload is a map from the hash's symbol keys to values,
  and a `Nil` value stands for Ruby's `nil`.
- `Scenarios` (`scenarios.dfy`) holds the recipient-filtering cases of the
  repository's test suite, stated as lemmas over the model.

## Model

| member | source | states |
|---|---|---|
| Extras.Base.constructor | lib/brevo/extras/base.rb:12-14 | the instance keeps the template parameters it was given |
| Extras.Base.BuildEmailData | lib/brevo/extras/base.rb:31-40 | the hash has `templateId`, `to` and `params`, all passed through unchanged; `replyTo` is present exactly when one was given, holds it, and is never present with `nil` |
| Extras.Base.SendEmail | lib/brevo/extras/base.rb:22-27 | the payload handed to delivery: `templateId`, `params` and `replyTo` as built; `to` is the safe-mode filter of the argument, so it is the identical value when safe mode is off; `headers` is present exactly when sandbox mode is on and is then `{"X-Sib-Sandbox" => "drop"}`; no other key; no `nil` value |
| Extras.SandboxHeaders | lib/brevo/extras/base.rb:25 | the sandbox header hash: its one key is `X-Sib-Sandbox`, with value `drop` |
| Extras.ReplyToValue | lib/brevo/extras/base.rb:35 | the `replyTo:` entry before the deletion: `nil` exactly when no `reply_to` was given, otherwise the given contact |
| Config.Fetch | lib/brevo/extras/base.rb:52-66 | `ENV.fetch(name, default)`: the variable's value when it is set, the default when it is unset (lines 54, 59 and 64) |
| Config.CastBoolean | lib/brevo/extras/base.rb:52-66 | `ActiveModel::Type::Boolean.new.cast` on a string, read as a condition (lines 53 and 63): false exactly for `""` (cast to `nil`) and the Boolean-false strings `"0"`, `"f"`, `"F"`, `"false"`, `"FALSE"`, `"off"`, `"OFF"` (`FalseStrings`), true for every other string |
| Config.SandboxMode | lib/brevo/extras/base.rb:52-56 | on when the variable is unset (default `"1"`); off exactly when it is set to one of the Boolean-false strings |
| Config.SafeMode | lib/brevo/extras/base.rb:62-66 | always on in a local environment; on when the variable is unset; off exactly when the environment is not local and the variable is a Boolean-false string |
| Config.SafeModeDomains | lib/brevo/extras/base.rb:58-60 | one domain per field of `split(",")` of the variable (default `""`), each field stripped at both ends and never lower-cased |
| Config.SafeModeDomainsShape | lib/brevo/extras/base.rb:59 | no allowed domain holds a comma or starts or ends with a blank |
| Config.SafeModeDomainsEmptyIff | lib/brevo/extras/base.rb:59 | the domain list is empty exactly when the variable is unset or holds nothing but commas (the empty string included) |
| Recipients.EmailText | lib/brevo/extras/base.rb:47 | `recipient[:email].to_s`: the email when present, `""` when missing |
| Recipients.NormalizedEmail | lib/brevo/extras/base.rb:47 | `recipient[:email].to_s.gsub(/\s/, "").downcase`; never longer than the email text (its shape: `NormalizedEmailShape`) |
| Recipients.AnyDomainMatches | lib/brevo/extras/base.rb:48 | `any?` over the allowed domains of `email.end_with?("@#{domain}")`, written as recursion over the list (its meaning: `AnyDomainMatchesIff`) |
| Recipients.Allowed | lib/brevo/extras/base.rb:47-48 | the `select` block: the normalised email passes `any?` over the allowed domains |
| Recipients.AsList | lib/brevo/extras/base.rb:45 | a bare recipient is wrapped in a one-element list; a list is kept as it is |
| Recipients.SafeModeRecipients | lib/brevo/extras/base.rb:42-50 | safe mode off: the argument comes back identical, not wrapped; safe mode on: a list that is an order-preserving subsequence of the (wrapped) input, holds exactly the recipients the allow-list admits, and keeps each admitted recipient as often as it occurs (no duplicates added or lost) |
| Recipients.Select | lib/brevo/extras/base.rb:46-49 | `select` never lengthens the list and keeps only input recipients that pass the test |
| Recipients.SelectSubsequence | lib/brevo/extras/base.rb:46-49 | `select` keeps the input order |
| Recipients.SelectKeepsAllowed | lib/brevo/extras/base.rb:46-49 | every recipient that passes the test is kept |
| Recipients.SelectCount | lib/brevo/extras/base.rb:46-49 | each recipient is kept as often as it occurs when it passes and not at all otherwise (no duplicates added or lost) |
| Recipients.SelectAppend | lib/brevo/extras/base.rb:46-49 | filtering a concatenation is concatenating the filtered parts |
| Recipients.SelectUnchangedIff | lib/brevo/extras/base.rb:46-49 | the filter returns its input exactly when every recipient passes |
| Recipients.SelectIdempotent | lib/brevo/extras/base.rb:46-49 | filtering twice with the same domains is filtering once |
| Recipients.SelectNoDomains | lib/brevo/extras/base.rb:48 | with no allowed domain, `any?` is false for everyone and nobody is kept |
| Recipients.AnyDomainMatchesIff | lib/brevo/extras/base.rb:48 | `any?` holds exactly when some listed domain, prefixed with `@`, ends the email |
| Recipients.NormalizedEmailShape | lib/brevo/extras/base.rb:47 | the normalised email holds no whitespace and no upper-case letter |
| Recipients.MissingEmailNeverAllowed | lib/brevo/extras/base.rb:47-48 | a recipient without an email (`nil.to_s` is `""`) never passes |
| Recipients.UpperCaseDomainNeverMatches | lib/brevo/extras/base.rb:47-48 | an allowed domain that holds an upper-case letter matches no email, since only the email side is lower-cased |
| Recipients.EmptyDomainAdmitsTrailingAt | lib/brevo/extras/base.rb:48 | an empty domain entry admits every email whose normal form ends with `@` |
| Recipients.SafeModeRecipientsIdempotent | lib/brevo/extras/base.rb:42-50 | applying the safe-mode filter twice gives what applying it once gives |
| Recipients.SafeModeRecipientsNoLonger | lib/brevo/extras/base.rb:42-50 | the filter never returns more recipients than it was given |
| Recipients.SafeModeNoDomainsDropsAll | lib/brevo/extras/base.rb:42-60 | safe mode on and the domains variable unset or empty: `to` becomes the empty list |
| RubyText.RemoveRegexSpace | lib/brevo/extras/base.rb:47 | `gsub(/\s/, "")` never lengthens the string |
| RubyText.RemoveRegexSpaceSpec | lib/brevo/extras/base.rb:47 | what is left holds no `\s` character, and the set of characters left is the set of non-`\s` characters of the input (order and count: `RemoveRegexSpaceAppend`) |
| RubyText.RemoveRegexSpaceChar | lib/brevo/extras/base.rb:47 | one character is dropped exactly when it is `\s` and kept otherwise |
| RubyText.RemoveRegexSpaceAppend | lib/brevo/extras/base.rb:47 | the result for `a + b` is the result for `a` followed by the result for `b`; with the one-character case this fixes `gsub` completely, order and count of the kept characters included |
| RubyText.RemoveRegexSpaceUnchanged | lib/brevo/extras/base.rb:47 | a string without whitespace is left alone |
| RubyText.Downcase | lib/brevo/extras/base.rb:47 | `downcase` keeps the length |
| RubyText.DowncaseSpec | lib/brevo/extras/base.rb:47 | no upper-case letter is left; each upper-case letter becomes its lower-case partner; every other character is kept |
| RubyText.DowncaseUnchanged | lib/brevo/extras/base.rb:47 | a string without upper-case letters is left alone |
| RubyText.EndsWith | lib/brevo/extras/base.rb:48 | `end_with?`: the suffix is no longer than the string and equals its last characters |
| RubyText.LStrip | lib/brevo/extras/base.rb:59 | `lstrip` gives a suffix of its input that does not start with a strip character |
| RubyText.LStripCutsBlanks | lib/brevo/extras/base.rb:59 | everything `lstrip` removes is a strip character |
| RubyText.RStrip | lib/brevo/extras/base.rb:59 | `rstrip` gives a prefix of its input that does not end with a strip character |
| RubyText.RStripCutsBlanks | lib/brevo/extras/base.rb:59 | everything `rstrip` removes is a strip character |
| RubyText.Strip | lib/brevo/extras/base.rb:59 | `strip`: `rstrip` of `lstrip`, never longer than its input (which slice it keeps: `StripSlice`, `StripEnds`) |
| RubyText.StripSlice | lib/brevo/extras/base.rb:59 | `strip` keeps the slice of its input that starts after the leading blanks |
| RubyText.StripEnds | lib/brevo/extras/base.rb:59 | what `strip` keeps neither starts nor ends with a strip character |
| RubyText.StripChars | lib/brevo/extras/base.rb:59 | every character `strip` keeps comes from its input |
| RubyText.StripUnchanged | lib/brevo/extras/base.rb:59 | a string without blanks at either end is left alone |
| RubyText.StripIdempotent | lib/brevo/extras/base.rb:59 | stripping twice is stripping once |
| RubyText.SplitAll | lib/brevo/extras/base.rb:59 | the raw field list of `split` has at least one field |
| RubyText.SplitAllFields | lib/brevo/extras/base.rb:59 | no raw field holds the separator |
| RubyText.DropTrailingEmpty | lib/brevo/extras/base.rb:59 | dropping trailing empty fields keeps a prefix of the list |
| RubyText.DropTrailingEmptySpec | lib/brevo/extras/base.rb:59 | only empty fields are dropped, and the last field kept is not empty |
| RubyText.DropTrailingEmptyAllIff | lib/brevo/extras/base.rb:59 | nothing is left exactly when every field is empty |
| RubyText.Split | lib/brevo/extras/base.rb:59 | `split(",")`: the fields between commas, a prefix of the raw field list with the trailing empty fields dropped and leading and inner ones kept |
| RubyText.SplitFields | lib/brevo/extras/base.rb:59 | no field of `split(",")` holds a comma and the last field is not empty |
| RubyText.JoinSplitAll | lib/brevo/extras/base.rb:59 | joining the raw fields with the separator gives back the input (round trip) |
| RubyText.JoinDropTrailingEmpty | lib/brevo/extras/base.rb:59 | dropping trailing empty fields removes only trailing separators from the joined text |
| RubyText.SplitRoundTrip | lib/brevo/extras/base.rb:59 | joining the fields of `split` gives a prefix of the input, and the rest of the input is separators only |
| RubyText.SplitEmptyIff | lib/brevo/extras/base.rb:59 | `split` returns no field exactly when the input is separators only (the empty string included) |
| RubyText.AllSeparatorsSplitAll | lib/brevo/extras/base.rb:59 | a string of separators only leaves no field |
| RubyText.SplitAllNoSeparator | lib/brevo/extras/base.rb:59 | a string without the separator is one field |
| RubyText.SplitAllAtSeparator | lib/brevo/extras/base.rb:59 | a separator ends the first field and the rest is split on its own |
| Scenarios.PlainEmailDecision | lib/brevo/extras/base.rb:47-48 | for an email already in normal form, the safe-mode decision is the `any?` test on the email as given |
| Scenarios.SingleDomain | lib/brevo/extras/base.rb:59 | a domains variable holding one domain without commas or outer blanks gives exactly that domain |
| Scenarios.DomainsOfTwoFields | lib/brevo/extras/base.rb:59 | a domains variable that splits into two fields gives those two fields, each stripped |
| Scenarios.TwoDomains | test/brevo/extras/base_test.rb:214-217 | `"a, b"` with clean `a` and `b` gives the domains `[a, b]`: the blank after the comma is stripped |
| Scenarios.FiltersToAllowedDomainParsed | test/brevo/extras/base_test.rb:176-187 | safe mode on with the domain list `["example.com"]`: `user@example.com` is kept |
| Scenarios.LocalEnvironmentFiltersParsed | test/brevo/extras/base_test.rb:151-174 | a local environment with `BREVO_SAFE_MODE="0"` and the domain list `["allowed.com"]`: `user@notallowed.com` is dropped |
| Scenarios.RejectsOtherDomainsParsed | test/brevo/extras/base_test.rb:189-212 | safe mode on with the domain list `["safe.com"]`: of `user@safe.com` and `user@unsafe.com` only the first is kept |
| Scenarios.SupportsSeveralDomainsParsed | test/brevo/extras/base_test.rb:214-241 | safe mode on with the domain list `["example.com", "atnos.com"]`: the `other.com` recipient is dropped and the other two are kept in order |
| Scenarios.FiltersToAllowedDomain | test/brevo/extras/base_test.rb:176-187 | with `BREVO_SAFE_MODE="1"` and `BREVO_SAFE_MODE_ALLOWED_DOMAINS="example.com"`, `user@example.com` is kept |
| Scenarios.LocalEnvironmentFilters | test/brevo/extras/base_test.rb:151-174 | in a local environment with `BREVO_SAFE_MODE="0"` and `BREVO_SAFE_MODE_ALLOWED_DOMAINS="allowed.com"`, `user@notallowed.com` is still dropped |
| Scenarios.RejectsOtherDomains | test/brevo/extras/base_test.rb:189-212 | with `BREVO_SAFE_MODE="1"` and `BREVO_SAFE_MODE_ALLOWED_DOMAINS="safe.com"`, of `user@safe.com` and `user@unsafe.com` only the first is kept |
| Scenarios.SupportsSeveralDomains | test/brevo/extras/base_test.rb:214-241 | with `BREVO_SAFE_MODE="1"` and `BREVO_SAFE_MODE_ALLOWED_DOMAINS="example.com, atnos.com"`, the `other.com` recipient is dropped and the other two are kept in order |

## Left out

- The delivery job (`app/jobs/brevo/extras/delivery_job.rb`), its retry policy and its call to the Brevo API are not part of this model.
- `deliver_later` (lib/brevo/extras/base.rb:68-70) enqueues onto a job queue. That is I/O, so `Extras.Base.SendEmail` returns the payload it would enqueue.
- The class-level `.call` and the instance `#call` that raises `NotImplementedError` (lib/brevo/extras/base.rb:6-18) are a subclassing convention with no logic to model.
- `ENV` and `Rails.env.local?` are replaced by the explicit `Config.Env` value. The model reads it once per operation, whereas the Ruby code reads the process environment afresh on every call.
- Config.SandboxMode: only string values of the Boolean cast are modelled, since environment variables are strings. The cast's handling of symbols, numbers and other objects is left out.
- RubyText.Downcase: lower-cases only ASCII letters, whereas Ruby's `downcase` also folds non-ASCII letters.
- Recipient values other than strings or missing emails (numbers, symbols) are left out. The model keeps only `email` and `name`, not any other keys of a recipient hash.
- Template parameters (`@params`) are a map from strings to strings, passed through opaquely. The nested values Ruby allows are not represented.
- Matching follows the code: the domain test is `end_with?("@" + domain)`, and only the email is lower-cased. A description of the filter as "the part after the last `@`, compared case-insensitively" differs from the code for domains that hold `@` or upper-case letters. `Recipients.UpperCaseDomainNeverMatches` states the case consequence.
- `nil` in the payload: `Value.Nil` is used only for `replyTo`. Ruby also lets `template_id: nil`, `to: nil` (kept as is when safe mode is off) or `Base.new(nil)` put `nil` under `templateId`, `to` or `params`. The model's types cannot hold those, so `Extras.NoNil` holds for them by construction. Only the `replyTo` deletion is a real "never present with `nil`" guarantee.
- The error path of the safe-mode filter: with safe mode on, lib/brevo/extras/base.rb:47 calls `recipient[:email]` on every element of the wrapped `to`. A `to` that is not a hash or an array of hashes (`to: nil`, a bare email string, `[nil]`) makes that call raise `NoMethodError` or `TypeError`, so `send_email` raises and no job is enqueued. The model's `To` and `Recipient` types hold only hashes, so `Extras.Base.SendEmail` always returns a payload and this error path is left out.
- Key order: a Ruby `Hash` keeps insertion order (`templateId`, `to`, `replyTo`, `params`, `headers`), while the payload map has none. The order does not affect the API request built from it.
