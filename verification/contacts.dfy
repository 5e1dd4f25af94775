/** The campaign contact as the resolvers receive it, the collaborator records they read,
    and the trace of lookups a resolver issues to its collaborators. */
module Contacts {
  import opened Wrappers

  /** Timestamps are compared only for equality with a sentinel, so their text suffices. */
  type Timestamp = string

  /** The message status of a contact that has not been texted yet. */
  const NeedsMessage: string := "needsMessage"

  /** One row of the message table. */
  datatype Message = Message(id: int, text: string, createdAt: Timestamp)

  /** A campaign as the per-request campaign loader returns it. */
  datatype Campaign = Campaign(id: int, organizationId: int)

  /** The JavaScript values the `is_opted_out` column can carry on a contact object:
      the field may be missing (`undefined`), SQL `NULL`, a boolean, or a number. */
  datatype Flag = Undefined | Null | Bool(b: bool) | Number(n: int)
  {
    /** `Boolean(x)`: `null`, `undefined`, `false` and `0` are false. */
    predicate ToBoolean() {
      match this
      case Undefined => false
      case Null => false
      case Bool(b) => b
      case Number(n) => n != 0
    }
  }

  /** A campaign contact row, possibly decorated by an upstream batch query.
      A field that may be missing from the object is an `Option`; for `optOutCell`
      and `messages` `Some` means that the property is present on the object. */
  datatype Contact = Contact(
    id: int,
    cell: string,
    zip: string,
    assignmentId: int,
    campaignId: int,
    messageStatus: string,
    timezoneOffset: Option<string>,
    city: Option<string>,
    state: Option<string>,
    organizationId: Option<int>,
    isOptedOut: Flag,
    optOutCell: Option<string>,
    messages: Option<seq<Message>>,
    updatedAt: Option<Timestamp>,
    createdAt: Timestamp)

  /** JavaScript truthiness of an optional string: present and not empty. */
  predicate Truthy(s: Option<string>) {
    s.Some? && s.value != ""
  }

  /** JavaScript truthiness of an optional number: present and not zero. */
  predicate TruthyId(n: Option<int>) {
    n.Some? && n.value != 0
  }

  /** A call a resolver makes to a collaborator outside this model. */
  datatype Lookup =
    | QuestionResponseQuery(contactId: int)
    | QuestionResponseJoin(contactId: int)
    | ZipTableLookup(zipPrefix: string)
    | ZipCodeLoad(zipPrefix: string)
    | CampaignLoad(campaignId: int)
    | OptOutQuery(cell: string, organizationId: int)
    | MessagesByContact(contactId: int)
    | MessagesByAssignment(assignmentId: int, cell: string)

  /** A resolver's answer together with the lookups it issued, in order. */
  datatype Traced<T> = Traced(value: T, lookups: seq<Lookup>)
}
