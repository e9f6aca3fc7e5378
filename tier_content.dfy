/** The tier page: whether the signed-in user holds the tier, the badge, the
    subtitle under the title, the "invite N more" figure, the progress bar and
    the two exclusive panels ("Content Locked" and "Access Granted").  The
    tier number comes from the router and may be `NaN` (`None`); the
    requirement may be missing (`undefined`), in which case every
    `tierInfo?.x` is `undefined`. */
module TierContent {
  import opened Wrappers
  import opened Records
  import opened JsNumber

  /** `user.current_tier >= tier`; every comparison with `NaN` is false. */
  predicate IsUnlocked(user: User, tier: Option<int>) {
    tier.Some? && Unlocked(user, tier.value)
  }

  /** The line under the title: the access message, or the unlock offer with
      `tierInfo?.price_usd` and `tierInfo?.required_invites` (`None` prints as
      `undefined`). */
  datatype Subtitle =
    | AccessMessage
    | UnlockOffer(price: Option<real>, invites: Option<int>)

  /** What the page shows that depends on the data. */
  datatype TierPage = TierPage(
    badge: string,
    subtitle: Subtitle,
    lockedPanel: bool,
    grantedPanel: bool,
    remaining: Option<int>,
    width: Num)

  function PriceOf(info: Option<TierRequirement>): Option<real> {
    if info.Some? then Some(info.value.priceUsd) else None
  }

  function RequiredOf(info: Option<TierRequirement>): Option<int> {
    if info.Some? then Some(info.value.requiredInvites) else None
  }

  /** `tierInfo?.required_invites - user.total_invites`: `undefined - n` is `NaN`. */
  function Remaining(info: Option<TierRequirement>, user: User): (r: Option<int>)
    ensures r.Some? <==> info.Some?
    ensures r.Some? ==> r.value + user.totalInvites == info.value.requiredInvites
  {
    if info.Some? then Some(info.value.requiredInvites - user.totalInvites) else None
  }

  /** `Math.min((user.total_invites / tierInfo?.required_invites) * 100, 100)`:
      `n / undefined` is `NaN`, and so is the minimum. */
  function BarWidth(info: Option<TierRequirement>, user: User): (w: Num)
    ensures w != PosInf
    ensures w.Finite? ==> w.value <= 100.0
    ensures info.None? ==> w == NaN
  {
    if info.Some? then CappedPercent(user.totalInvites, info.value.requiredInvites) else NaN
  }

  /** The `TierContent` component for its three props. */
  function RenderTierContent(tier: Option<int>, user: User, info: Option<TierRequirement>): (p: TierPage)
    ensures p.grantedPanel <==> IsUnlocked(user, tier)
    ensures p.lockedPanel <==> !p.grantedPanel
    ensures p.badge == "Unlocked" <==> p.grantedPanel
    ensures p.badge == "Locked" <==> p.lockedPanel
    ensures p.subtitle.AccessMessage? <==> p.grantedPanel
    ensures p.subtitle.UnlockOffer? ==> p.subtitle.price == PriceOf(info) && p.subtitle.invites == RequiredOf(info)
    ensures p.remaining == Remaining(info, user) && p.width == BarWidth(info, user)
  {
    var unlocked := IsUnlocked(user, tier);
    TierPage(
      if unlocked then "Unlocked" else "Locked",
      if unlocked then AccessMessage else UnlockOffer(PriceOf(info), RequiredOf(info)),
      !unlocked,
      unlocked,
      Remaining(info, user),
      BarWidth(info, user))
  }

  /** A page for a lower tier than one the user holds is also granted. */
  lemma GrantedDownward(user: User, t: int, t': int, info: Option<TierRequirement>, info': Option<TierRequirement>)
    requires RenderTierContent(Some(t), user, info).grantedPanel && t' <= t
    ensures RenderTierContent(Some(t'), user, info').grantedPanel
  {
    UnlockedDownward(user, t, t');
  }

  /** Badge, subtitle and panels depend on the current tier only: two users
      with the same tier and any invite counts see the same locked state. */
  lemma LockStateIgnoresInvites(u: User, v: User, tier: Option<int>, info: Option<TierRequirement>)
    requires u.currentTier == v.currentTier
    ensures var p, q := RenderTierContent(tier, u, info), RenderTierContent(tier, v, info);
            p.badge == q.badge && p.subtitle == q.subtitle &&
            p.lockedPanel == q.lockedPanel && p.grantedPanel == q.grantedPanel
  {
    if tier.Some? {
      UnlockedIgnoresInvites(u, v, tier.value);
    }
  }

  /** A tier that did not parse (`NaN`) is locked for every user. */
  lemma NaNTierLocked(user: User, info: Option<TierRequirement>)
    ensures RenderTierContent(None, user, info).lockedPanel
    ensures RenderTierContent(None, user, info).badge == "Locked"
  {
  }

  /** With a positive threshold the bar is full exactly when no more invites
      are needed, and otherwise it shows the exact ratio. */
  lemma BarFullIffNothingRemaining(user: User, r: TierRequirement)
    requires r.requiredInvites > 0
    ensures var p := RenderTierContent(Some(r.tier), user, Some(r));
            p.width == Finite(100.0) <==> p.remaining.value <= 0
    ensures var p := RenderTierContent(Some(r.tier), user, Some(r));
            p.remaining.value > 0 ==>
              p.width == Finite(user.totalInvites as real / r.requiredInvites as real * 100.0)
  {
    var total, req := user.totalInvites, r.requiredInvites;
    if total < req {
      RatioBelowOne(total as real, req as real);
    }
  }

  lemma RatioBelowOne(a: real, b: real)
    requires 0.0 < b && a < b
    ensures a / b < 1.0
  {
  }

  /** Holding the tier and needing more invites are independent: a user
      promoted without invites sees "Access Granted" next to "invite 5 more". */
  lemma GrantedWithInvitesOutstanding()
    ensures var user := User(0, "buyer", "", "", None, 2, 0);
            var info := TierRequirement(2, "", 9.99, 5);
            var p := RenderTierContent(Some(2), user, Some(info));
            p.grantedPanel && p.remaining == Some(5) && p.width == Finite(0.0)
  {
  }
}
