/** The `messages` resolver of a campaign contact, with its legacy fallback query, and the
    `updatedAt` resolver that prefers the stored timestamp over the message history. */
module History {
  import opened Wrappers
  import opened Contacts

  /** The placeholder some databases store for a timestamp that was never set. */
  const ZeroTimestamp: string := "0000-00-00 00:00:00"

  /** `messages`: `byContact(id)` is the contact's messages by contact id and
      `byAssignment(assignment, cell)` the legacy query by assignment and phone number, both
      ordered by creation time. Messages attached by a batch query are returned untouched; the
      legacy query is issued exactly when the primary one finds nothing and the contact has
      already been messaged, and its answer is then returned even when it is empty. */
  function ResolveMessages(c: Contact, byContact: int -> seq<Message>, byAssignment: (int, string) -> seq<Message>)
    : (r: Traced<seq<Message>>)
    ensures c.messages.Some? ==> r == Traced(c.messages.value, [])
    ensures c.messages.None? ==> |r.lookups| >= 1 && r.lookups[0] == MessagesByContact(c.id)
    ensures MessagesByAssignment(c.assignmentId, c.cell) in r.lookups <==>
      c.messages.None? && byContact(c.id) == [] && c.messageStatus != NeedsMessage
    ensures c.messages.None? && MessagesByAssignment(c.assignmentId, c.cell) in r.lookups ==>
      r.value == byAssignment(c.assignmentId, c.cell)
    ensures c.messages.None? && MessagesByAssignment(c.assignmentId, c.cell) !in r.lookups ==>
      r.value == byContact(c.id) && r.lookups == [MessagesByContact(c.id)]
  {
    if c.messages.Some? then Traced(c.messages.value, [])
    else
      var messages := byContact(c.id);
      if |messages| == 0 && c.messageStatus != NeedsMessage then
        Traced(byAssignment(c.assignmentId, c.cell),
               [MessagesByContact(c.id), MessagesByAssignment(c.assignmentId, c.cell)])
      else
        Traced(messages, [MessagesByContact(c.id)])
  }

  /** A contact still waiting for its first message with no messages by contact id gets an
      empty history, and the legacy query is never issued for it. */
  lemma FreshContactHasNoHistory(c: Contact, byContact: int -> seq<Message>, byAssignment: (int, string) -> seq<Message>)
    requires c.messages.None? && c.messageStatus == NeedsMessage && byContact(c.id) == []
    ensures ResolveMessages(c, byContact, byAssignment) == Traced([], [MessagesByContact(c.id)])
  {
  }

  /** The stored update time counts when it is set and is not the zero placeholder. */
  predicate HasStoredUpdate(c: Contact) {
    Truthy(c.updatedAt) && c.updatedAt.value != ZeroTimestamp
  }

  /** `updatedAt`: the stored update time when usable, else the creation time of the last
      attached message, else the contact's creation time. With an attached but empty message
      list, `messages[messages.length - 1]` is `undefined` and reading its `created_at` throws,
      so the caller must not pass one on that path. */
  function UpdatedAt(c: Contact): (t: Timestamp)
    requires !HasStoredUpdate(c) && c.messages.Some? ==> |c.messages.value| > 0
    ensures HasStoredUpdate(c) ==> t == c.updatedAt.value
    ensures !HasStoredUpdate(c) && c.messages.Some? ==>
      t == c.messages.value[|c.messages.value| - 1].createdAt
    ensures !HasStoredUpdate(c) && c.messages.None? ==> t == c.createdAt
  {
    if HasStoredUpdate(c) then c.updatedAt.value
    else if c.messages.Some? then c.messages.value[|c.messages.value| - 1].createdAt
    else c.createdAt
  }

  /** Attaching more messages never changes a usable stored update time, and otherwise the
      newest attached message decides. */
  lemma UpdatedAtFollowsNewestMessage(c: Contact, older: seq<Message>, newest: Message)
    requires c.messages == Some(older + [newest])
    ensures UpdatedAt(c) == if HasStoredUpdate(c) then c.updatedAt.value else newest.createdAt
  {
  }

  /** The update time is always one of the contact's own timestamps: the stored update time,
      the creation time of an attached message, or the contact's creation time. */
  lemma UpdatedAtIsOwnTimestamp(c: Contact)
    requires !HasStoredUpdate(c) && c.messages.Some? ==> |c.messages.value| > 0
    ensures var t := UpdatedAt(c);
      || (c.updatedAt.Some? && t == c.updatedAt.value)
      || (c.messages.Some? && exists k :: 0 <= k < |c.messages.value| && t == c.messages.value[k].createdAt)
      || t == c.createdAt
  {
    if !HasStoredUpdate(c) && c.messages.Some? {
      var k := |c.messages.value| - 1;
      assert UpdatedAt(c) == c.messages.value[k].createdAt;
    }
  }
}
