/** The `optOut` resolver of a campaign contact: a batch-supplied opt-out cell, else an
    explicit flag on the contact, else the organization's cached opt-out index. */
module OptOut {
  import opened Wrappers
  import opened Contacts

  /** The opt-out object handed back: `{cell}` when echoed from a batch query, and
      `{id: "optout", cell}` when resolved here. */
  datatype OptOutRecord = OptOutRecord(id: Option<string>, cell: string)

  /** The contact's campaign could not be loaded, so its organization is unknown. */
  datatype OptOutError = CampaignNotFound(campaignId: int)

  /** The fixed id of a resolved opt-out, so that callers need not look the record up. */
  const SyntheticId: string := "optout"

  /** The organization the opt-out index is asked about: the contact's own when it is set
      (non-zero), else the organization of the contact's campaign; `None` when that campaign
      cannot be loaded. */
  function Organization(c: Contact, campaigns: int -> Option<Campaign>): (org: Option<int>)
    ensures TruthyId(c.organizationId) ==> org == c.organizationId
    ensures !TruthyId(c.organizationId) ==>
      (org.Some? <==> campaigns(c.campaignId).Some?) &&
      (org.Some? ==> org.value == campaigns(c.campaignId).value.organizationId)
  {
    if TruthyId(c.organizationId) then c.organizationId
    else match campaigns(c.campaignId)
      case Some(campaign) => Some(campaign.organizationId)
      case None => None
  }

  /** The answer for a contact whose opt-out status is known: `{id: "optout", cell}` or null. */
  function Opted(c: Contact, isOptedOut: bool): Option<OptOutRecord> {
    if isOptedOut then Some(OptOutRecord(Some(SyntheticId), c.cell)) else None
  }

  /** `optOut`: `campaigns` is the per-request campaign loader and `optOuts(cell, org)` the
      cached opt-out index. */
  function ResolveOptOut(c: Contact, campaigns: int -> Option<Campaign>, optOuts: (string, int) -> bool)
    : (r: Traced<Result<Option<OptOutRecord>, OptOutError>>)
    // a batch-supplied opt-out cell is echoed back, whatever the flag says, with no lookup
    ensures c.optOutCell.Some? ==>
      r == Traced(Success(Some(OptOutRecord(None, c.optOutCell.value))), [])
    // a defined flag decides on its own, with no lookup
    ensures c.optOutCell.None? && !c.isOptedOut.Undefined? ==>
      && r.lookups == []
      && r.value == Success(Opted(c, c.isOptedOut.ToBoolean()))
    // otherwise the campaign is loaded only when the contact has no organization, and the
    // index is asked about the contact's cell in the resolved organization
    ensures c.optOutCell.None? && c.isOptedOut.Undefined? ==>
      && (CampaignLoad(c.campaignId) in r.lookups <==> !TruthyId(c.organizationId))
      && (r.value.Failure? <==> Organization(c, campaigns).None?)
      && (r.value.Failure? ==> r.value.error == CampaignNotFound(c.campaignId))
      && (r.value.Success? ==>
            var org := Organization(c, campaigns).value;
            && |r.lookups| >= 1
            && r.lookups[|r.lookups| - 1] == OptOutQuery(c.cell, org)
            && r.value.value == Opted(c, optOuts(c.cell, org)))
  {
    if c.optOutCell.Some? then
      Traced(Success(Some(OptOutRecord(None, c.optOutCell.value))), [])
    else
      var loads := if TruthyId(c.organizationId) then [] else [CampaignLoad(c.campaignId)];
      if !c.isOptedOut.Undefined? then
        Traced(Success(Opted(c, c.isOptedOut.ToBoolean())), [])
      else match Organization(c, campaigns)
        case None => Traced(Failure(CampaignNotFound(c.campaignId)), loads)
        case Some(org) => Traced(Success(Opted(c, optOuts(c.cell, org))), loads + [OptOutQuery(c.cell, org)])
  }

  /** Whenever a record is returned it carries the echoed opt-out cell, or else the
      contact's own cell under the synthetic id; a contact that is not opted out gets an
      explicit null rather than a record. */
  lemma OptOutRecordShape(c: Contact, campaigns: int -> Option<Campaign>, optOuts: (string, int) -> bool)
    ensures var r := ResolveOptOut(c, campaigns, optOuts).value;
      r.Success? && r.value.Some? ==>
        if c.optOutCell.Some? then r.value.value == OptOutRecord(None, c.optOutCell.value)
        else r.value.value == OptOutRecord(Some(SyntheticId), c.cell)
  {
  }

  /** The echo of a batch-supplied opt-out cell does not depend on the contact's flag,
      its organization or its campaign. */
  lemma EchoIgnoresEverythingElse(c: Contact, flag: Flag, organizationId: Option<int>,
                                  campaigns: int -> Option<Campaign>, optOuts: (string, int) -> bool)
    requires c.optOutCell.Some?
    ensures ResolveOptOut(c, campaigns, optOuts)
         == ResolveOptOut(c.(isOptedOut := flag, organizationId := organizationId), campaigns, optOuts)
  {
  }

  /** The index is consulted exactly when there is neither an opt-out cell nor a flag on the
      contact and the organization is known. */
  lemma IndexQueriedOnlyWhenUndecided(c: Contact, campaigns: int -> Option<Campaign>, optOuts: (string, int) -> bool)
    ensures var r := ResolveOptOut(c, campaigns, optOuts);
      (exists k :: 0 <= k < |r.lookups| && r.lookups[k].OptOutQuery?) <==>
        c.optOutCell.None? && c.isOptedOut.Undefined? && Organization(c, campaigns).Some?
  {
    var r := ResolveOptOut(c, campaigns, optOuts);
    if c.optOutCell.None? && c.isOptedOut.Undefined? && Organization(c, campaigns).Some? {
      assert r.lookups[|r.lookups| - 1].OptOutQuery?;
    }
  }
}
