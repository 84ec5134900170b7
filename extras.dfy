/**
 * `Brevo::Extras::Base`: builds the payload of a templated transactional
 * email, applies the safe-mode and sandbox policies to it, and hands it to
 * the delivery job.
 */
module Extras {
  import opened Wrappers
  import opened Config
  import opened Recipients

  /** The caller-supplied template parameters (`@params`), passed through opaquely. */
  type Params = map<string, string>

  /** The symbol keys of the payload hash. */
  datatype Key = TemplateIdKey | ToKey | ReplyToKey | ParamsKey | HeadersKey

  /** The values the payload hash holds; `Nil` is Ruby's `nil`. */
  datatype Value =
    | Nil
    | Int(i: int)
    | RecipientList(to: To)
    | Contact(contact: Recipient)
    | Hash(entries: map<string, string>)

  /** The payload hash handed to the delivery job. */
  type Payload = map<Key, Value>

  /** The header that tells the email API to accept but not deliver. */
  function SandboxHeaders(): (headers: map<string, string>)
    ensures headers.Keys == {"X-Sib-Sandbox"} && headers["X-Sib-Sandbox"] == "drop"
  {
    map["X-Sib-Sandbox" := "drop"]
  }

  /** No key of the payload is present with a `nil` value. */
  predicate NoNil(data: Payload) {
    forall k :: k in data ==> data[k] != Nil
  }

  /** `reply_to` as stored in the hash before the `nil` entry is deleted. */
  function ReplyToValue(replyTo: Option<Recipient>): (v: Value)
    ensures v == Nil <==> replyTo.None?
    ensures replyTo.Some? ==> v == Contact(replyTo.value)
  {
    if replyTo.Some? then Contact(replyTo.value) else Nil
  }

  class Base {
    /** `@params`, fixed at construction. */
    const params: Params

    constructor (params: Params)
      ensures this.params == params
    {
      this.params := params;
    }

    /** `build_email_data`: the hash with `templateId`, `to`, `replyTo` and
        `params`, from which `replyTo` is deleted again when it is `nil`. */
    method BuildEmailData(templateId: int, to: To, replyTo: Option<Recipient>) returns (data: Payload)
      ensures data.Keys == {TemplateIdKey, ToKey, ParamsKey} + (if replyTo.Some? then {ReplyToKey} else {})
      ensures data[TemplateIdKey] == Int(templateId)
      ensures data[ToKey] == RecipientList(to)
      ensures data[ParamsKey] == Hash(params)
      ensures ReplyToKey in data ==> data[ReplyToKey] == Contact(replyTo.value)
      ensures NoNil(data)
    {
      data := map[
        TemplateIdKey := Int(templateId),
        ToKey := RecipientList(to),
        ReplyToKey := ReplyToValue(replyTo),
        ParamsKey := Hash(params)];
      if replyTo.None? {
        data := data - {ReplyToKey};
      }
    }

    /** `send_email`: builds the payload, replaces `to` by the safe-mode
        recipients and adds the sandbox header when sandbox mode is on; the
        result is the payload `deliver_later` hands to the delivery job. */
    method SendEmail(templateId: int, to: To, replyTo: Option<Recipient>, env: Env) returns (data: Payload)
      ensures data.Keys == {TemplateIdKey, ToKey, ParamsKey}
        + (if replyTo.Some? then {ReplyToKey} else {})
        + (if SandboxMode(env) then {HeadersKey} else {})
      ensures data[TemplateIdKey] == Int(templateId)
      ensures data[ParamsKey] == Hash(params)
      ensures ReplyToKey in data <==> replyTo.Some?
      ensures ReplyToKey in data ==> data[ReplyToKey] == Contact(replyTo.value)
      ensures HeadersKey in data <==> SandboxMode(env)
      ensures HeadersKey in data ==> data[HeadersKey] == Hash(SandboxHeaders())
      ensures data[ToKey] == RecipientList(SafeModeRecipients(to, env))
      ensures !SafeMode(env) ==> data[ToKey] == RecipientList(to)
      ensures NoNil(data)
    {
      data := BuildEmailData(templateId, to, replyTo);
      ghost var built := data;
      data := data[ToKey := RecipientList(SafeModeRecipients(data[ToKey].to, env))];
      assert data.Keys == built.Keys;
      if SandboxMode(env) {
        data := data[HeadersKey := Hash(SandboxHeaders())];
      }
    }
  }
}
