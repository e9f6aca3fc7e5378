/** The dashboard: the current and next tier found in the requirement list,
    the "N more" figure, the progress card, the per-tier rows with their
    "Unlocked"/"Locked" badges, and the user's invite link. */
module Dashboard {
  import opened Wrappers
  import opened JsText
  import opened JsNumber
  import opened JsUrl
  import opened Records
  import AuthForm
  import TierContent

  /** `tierRequirements.find(tier => tier.tier === user.current_tier + 1)`. */
  function NextTier(user: User, reqs: seq<TierRequirement>): (r: Option<TierRequirement>)
    ensures r.None? <==> forall i :: 0 <= i < |reqs| ==> reqs[i].tier != user.currentTier + 1
    ensures r.Some? ==> r.value in reqs && r.value.tier == user.currentTier + 1
    ensures r.Some? ==> exists i :: 0 <= i < |reqs| && reqs[i] == r.value &&
                          forall j :: 0 <= j < i ==> reqs[j].tier != user.currentTier + 1
  {
    FindTier(reqs, user.currentTier + 1)
  }

  /** `tierRequirements.find(tier => tier.tier === user.current_tier)`. */
  function CurrentTierInfo(user: User, reqs: seq<TierRequirement>): (r: Option<TierRequirement>)
    ensures r.None? <==> forall i :: 0 <= i < |reqs| ==> reqs[i].tier != user.currentTier
    ensures r.Some? ==> r.value in reqs && r.value.tier == user.currentTier
    ensures r.Some? ==> exists i :: 0 <= i < |reqs| && reqs[i] == r.value &&
                          forall j :: 0 <= j < i ==> reqs[j].tier != user.currentTier
  {
    FindTier(reqs, user.currentTier)
  }

  /** The line under "Current Tier". */
  function CurrentTierText(user: User, reqs: seq<TierRequirement>): (s: string)
    ensures (forall i :: 0 <= i < |reqs| ==> reqs[i].tier != user.currentTier) ==> s == "Free tier access"
    ensures forall i :: 0 <= i < |reqs| && reqs[i].tier == user.currentTier &&
                        (forall j :: 0 <= j < i ==> reqs[j].tier != user.currentTier)
                     ==> s == reqs[i].contentDescription
  {
    var info := CurrentTierInfo(user, reqs);
    if info.Some? then info.value.contentDescription else "Free tier access"
  }

  /** The "Next Tier" card: invites still needed for the next tier, or "Max Tier". */
  datatype NextTierCard = NeedMore(tier: int, more: int) | MaxTier

  function NextTierCardOf(user: User, reqs: seq<TierRequirement>): (c: NextTierCard)
    ensures c.MaxTier? <==> NextTier(user, reqs).None?
    ensures c.NeedMore? ==> c.tier == user.currentTier + 1 &&
                            c.more == NextTier(user, reqs).value.requiredInvites - user.totalInvites
  {
    var next := NextTier(user, reqs);
    if next.Some? then NeedMore(next.value.tier, next.value.requiredInvites - user.totalInvites)
    else MaxTier
  }

  /** The progress badge: "100%" without a next tier, otherwise the percentage
      before `Math.round`. */
  datatype Percent = Hundred | Ratio(value: Num)

  /** The caption under the progress bar. */
  datatype Caption = InviteCount(total: int, required: int) | Complete

  datatype ProgressCard = ProgressCard(badge: Percent, width: Num, caption: Caption)

  /** The "Progress" card. */
  function Progress(user: User, reqs: seq<TierRequirement>): (p: ProgressCard)
    ensures NextTier(user, reqs).None? <==> p.badge == Hundred
    ensures NextTier(user, reqs).None? <==> p.caption == Complete
    ensures NextTier(user, reqs).None? ==> p.width == Finite(100.0)
    ensures NextTier(user, reqs).Some? ==>
              var r := NextTier(user, reqs).value;
              && p.badge == Ratio(Scale(Divide(user.totalInvites, r.requiredInvites), 100.0))
              && p.width == CappedPercent(user.totalInvites, r.requiredInvites)
              && p.caption == InviteCount(user.totalInvites, r.requiredInvites)
    ensures p.width != PosInf && (p.width.Finite? ==> p.width.value <= 100.0)
  {
    var next := NextTier(user, reqs);
    if next.Some? then
      var required := next.value.requiredInvites;
      ProgressCard(Ratio(Scale(Divide(user.totalInvites, required), 100.0)),
                   CappedPercent(user.totalInvites, required),
                   InviteCount(user.totalInvites, required))
    else ProgressCard(Hundred, Finite(100.0), Complete)
  }

  /** One row of "Tier Progress". */
  datatype TierRow = TierRow(tier: int, badge: string)

  function Badge(user: User, tier: int): string {
    if Unlocked(user, tier) then "Unlocked" else "Locked"
  }

  /** `tierRequirements.map(...)` in the "Tier Progress" card. */
  function TierRows(user: User, reqs: seq<TierRequirement>): (rows: seq<TierRow>)
    ensures |rows| == |reqs|
    ensures forall i :: 0 <= i < |reqs| ==>
              && rows[i].tier == reqs[i].tier
              && (rows[i].badge == "Unlocked" <==> user.currentTier >= reqs[i].tier)
              && (rows[i].badge == "Locked" <==> user.currentTier < reqs[i].tier)
  {
    seq(|reqs|, i requires 0 <= i < |reqs| => TierRow(reqs[i].tier, Badge(user, reqs[i].tier)))
  }

  /** The next tier is never shown as unlocked in the rows. */
  lemma NextTierRowLocked(user: User, reqs: seq<TierRequirement>, i: nat)
    requires i < |reqs| && NextTier(user, reqs) == Some(reqs[i])
    ensures TierRows(user, reqs)[i].badge == "Locked"
  {
  }

  /** The rows for the tiers up to the current one are unlocked, the others locked. */
  lemma RowsSplitAtCurrentTier(user: User, reqs: seq<TierRequirement>, i: nat, j: nat)
    requires i < |reqs| && j < |reqs| && reqs[j].tier <= reqs[i].tier
    requires TierRows(user, reqs)[i].badge == "Unlocked"
    ensures TierRows(user, reqs)[j].badge == "Unlocked"
  {
    UnlockedDownward(user, reqs[i].tier, reqs[j].tier);
  }

  /** With a positive threshold for the next tier, the bar is full exactly
      when the "more" figure has reached zero or gone below it. */
  lemma FullBarIffNoMoreNeeded(user: User, reqs: seq<TierRequirement>)
    requires NextTier(user, reqs).Some? && NextTier(user, reqs).value.requiredInvites > 0
    ensures Progress(user, reqs).width == Finite(100.0) <==> NextTierCardOf(user, reqs).more <= 0
  {
    var r := NextTier(user, reqs).value;
    TierContent.BarFullIffNothingRemaining(user, r);
  }

  /** The dashboard's "Next Tier" and "Progress" cards agree with the page of
      that tier: the same "more" figure and the same bar. */
  lemma DashboardAgreesWithTierPage(user: User, reqs: seq<TierRequirement>)
    requires NextTier(user, reqs).Some?
    ensures var r := NextTier(user, reqs).value;
            var page := TierContent.RenderTierContent(Some(r.tier), user, FindTier(reqs, r.tier));
            && page.remaining == Some(NextTierCardOf(user, reqs).more)
            && page.width == Progress(user, reqs).width
            && page.lockedPanel
  {
  }

  /** The worked example: thresholds 5 and 20, a tier-1 user with 7 invites
      needs 13 more for tier 2 and sees a 35% bar. */
  lemma WorkedExample()
    ensures var reqs := [TierRequirement(1, "", 0.0, 5), TierRequirement(2, "", 0.0, 20)];
            var user := User(0, "u", "", "", None, 1, 7);
            && NextTierCardOf(user, reqs) == NeedMore(2, 13)
            && Progress(user, reqs) == ProgressCard(Ratio(Finite(35.0)), Finite(35.0), InviteCount(7, 20))
  {
    var reqs := [TierRequirement(1, "", 0.0, 5), TierRequirement(2, "", 0.0, 20)];
    var user := User(0, "u", "", "", None, 1, 7);
    assert reqs[1..] == [TierRequirement(2, "", 0.0, 20)];
    assert NextTier(user, reqs) == Some(reqs[1]);
  }

  // ---------------------------------------------------------------------
  // the invite link

  /** The site address, before the query of an invite link. */
  const InviteUrlBase: string := "https://www.babykk.shop/"

  const InviteUrlPrefix: string := InviteUrlBase + "?invite="

  /** The link shown for an invite code. */
  function InviteUrl(code: string): (url: string)
    ensures |url| == |InviteUrlPrefix| + |code|
    ensures url[..|InviteUrlPrefix|] == InviteUrlPrefix && url[|InviteUrlPrefix|..] == code
  {
    InviteUrlPrefix + code
  }

  /** The link carries its code back: opening it puts the code in the `invite`
      parameter the page reads on load, provided the code holds no character
      the URL parser or the decoding alters and does not end in a space or
      control character. */
  lemma InviteUrlRoundTrip(code: string)
    requires '&' !in code && '#' !in code && '+' !in code
    requires '%' !in code && '\t' !in code && '\n' !in code && '\r' !in code
    requires code == "" || code[|code| - 1] > ' '
    ensures SearchParam(InviteUrl(code), "invite") == Some(code)
  {
    InviteUrlShape(code);
    SingleParam(InviteUrlBase, "invite", code);
  }

  /** An invite link is the site address, `?`, and the one pair `invite=code`. */
  lemma InviteUrlShape(code: string)
    ensures '?' !in InviteUrlBase && '#' !in InviteUrlBase
    ensures InviteUrl(code) == InviteUrlBase + "?" + "invite" + "=" + code
  {
  }

  /** After a successful registration whose procedure succeeded, `.single()` on
      the new user's links finds the link with the minted code. */
  lemma RegisteredUserOwnsMintedLink(db: Tables, f: AuthForm.Form, w: AuthForm.World, encode: string -> string)
    requires IdsIssued(db) && !w.rpcFails
    requires AuthForm.Register(db, f, w, encode).outcome.Registered?
    ensures var a := AuthForm.Register(db, f, w, encode);
            SingleRow(LinksOf(a.tables.inviteLinks, a.outcome.user.id))
              == Some(InviteLink(db.nextId + 1, a.outcome.user.id, w.mintedCode))
  {
    var a := AuthForm.Register(db, f, w, encode);
    AuthForm.ExitsAreClean(db, f, w, encode);
    var link := InviteLink(db.nextId + 1, db.nextId, w.mintedCode);
    assert a.tables.inviteLinks == db.inviteLinks + [link];
    var p := (l: InviteLink) => OwnedBy(db.nextId, l);
    assert forall l :: l in db.inviteLinks ==> !p(l) by {
      forall l | l in db.inviteLinks ensures !p(l) {
        var i :| 0 <= i < |db.inviteLinks| && db.inviteLinks[i] == l;
      }
    }
    FilterNone(db.inviteLinks, p);
    AuthForm.FilterAppendOne(db.inviteLinks, link, p);
    assert LinksOf(a.tables.inviteLinks, db.nextId) == [link];
  }

  /** The dashboard's own state. */
  class DashboardView {
    var inviteLink: string

    constructor ()
      ensures inviteLink == ""
    {
      inviteLink := "";
    }

    /** `fetchInviteLink`: `.single()` on the user's links; the link text is
        set only when exactly one row came back. */
    method FetchInviteLink(links: seq<InviteLink>, userId: nat)
      modifies this
      ensures var row := SingleRow(LinksOf(links, userId));
              inviteLink == if row.Some? then InviteUrl(row.value.inviteCode) else old(inviteLink)
    {
      var data := SingleRow(LinksOf(links, userId));
      if data.Some? {
        inviteLink := InviteUrl(data.value.inviteCode);
      }
    }
  }
}
