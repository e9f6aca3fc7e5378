/** The sidebar: the three fixed menu entries, one button per tier
    requirement, what a click does, and which button is highlighted.  It is
    also where the tier ids the router parses are made, so the lemmas tying
    the sidebar, the router, the tier page and the dashboard together live
    here. */
module Sidebar {
  import opened Wrappers
  import opened JsText
  import opened Records
  import Index
  import TierContent
  import Dashboard

  /** A fixed menu entry; an external one opens `url` instead of changing view. */
  datatype MenuItem = MenuItem(id: string, caption: string, external: bool, url: Option<string>)

  const TelegramUrl: string := "https://t.me/babykk001"

  const MenuItems: seq<MenuItem> := [
    MenuItem("dashboard", "Dashboard", false, None),
    MenuItem("free-preview", "Free Preview", false, None),
    MenuItem("buy", "Buy", true, Some(TelegramUrl))
  ]

  /** One tier button. */
  datatype TierItem = TierItem(
    id: string,
    caption: string,
    tier: int,
    content: string,
    price: real,
    requiredInvites: int,
    unlocked: bool)

  /** `` `tier-${tier.tier}` ``. */
  function TierId(tier: int): string {
    Index.TierPrefix + IntToString(tier)
  }

  /** `tierItems`: one button per requirement, in the same order. */
  function TierItems(user: User, reqs: seq<TierRequirement>): (items: seq<TierItem>)
    ensures |items| == |reqs|
    ensures forall i :: 0 <= i < |reqs| ==>
              && items[i].tier == reqs[i].tier
              && items[i].id == TierId(reqs[i].tier)
              && items[i].caption == "Tier " + IntToString(reqs[i].tier)
              && items[i].content == reqs[i].contentDescription
              && items[i].price == reqs[i].priceUsd
              && items[i].requiredInvites == reqs[i].requiredInvites
              && (items[i].unlocked <==> user.currentTier >= reqs[i].tier)
  {
    seq(|reqs|, i requires 0 <= i < |reqs| =>
      var r := reqs[i];
      TierItem(TierId(r.tier), "Tier " + IntToString(r.tier), r.tier, r.contentDescription,
               r.priceUsd, r.requiredInvites, Unlocked(user, r.tier)))
  }

  /** What a click on a menu entry does. */
  datatype Click = OpenExternal(url: Option<string>) | ChangeView(view: string)

  function MenuClick(item: MenuItem): (c: Click)
    ensures c.OpenExternal? <==> item.external
    ensures c.OpenExternal? ==> c.url == item.url
    ensures c.ChangeView? ==> c.view == item.id
  {
    if item.external then OpenExternal(item.url) else ChangeView(item.id)
  }

  /** A button is highlighted when the current view is its id. */
  predicate IsActive(currentView: string, id: string) {
    currentView == id
  }

  /** No two entries of `ids` are equal. */
  ghost predicate Distinct(ids: seq<string>) {
    forall i, j :: 0 <= i < j < |ids| ==> ids[i] != ids[j]
  }

  function MenuIds(): (ids: seq<string>)
    ensures |ids| == |MenuItems| && forall i :: 0 <= i < |MenuItems| ==> ids[i] == MenuItems[i].id
  {
    [MenuItems[0].id, MenuItems[1].id, MenuItems[2].id]
  }

  function TierIds(reqs: seq<TierRequirement>): (ids: seq<string>)
    ensures |ids| == |reqs| && forall i :: 0 <= i < |reqs| ==> ids[i] == TierId(reqs[i].tier)
  {
    seq(|reqs|, i requires 0 <= i < |reqs| => TierId(reqs[i].tier))
  }

  /** The ids of every button, menu entries first, tier buttons after them
      in the order of `tierItems`. */
  function ButtonIds(user: User, reqs: seq<TierRequirement>): (ids: seq<string>)
    ensures |ids| == |MenuItems| + |reqs|
    ensures forall i :: 0 <= i < |MenuItems| ==> ids[i] == MenuItems[i].id
    ensures forall i :: 0 <= i < |reqs| ==> ids[|MenuItems| + i] == TierItems(user, reqs)[i].id
  {
    MenuIds() + TierIds(reqs)
  }

  /** No menu id looks like a tier id. */
  lemma MenuIdsAreNotTierIds(i: nat, t: int)
    requires i < |MenuItems|
    ensures MenuItems[i].id != TierId(t)
    ensures !StartsWith(MenuItems[i].id, Index.TierPrefix)
  {
    var id := TierId(t);
    assert id[0] == 't';
    var name := MenuItems[i].id;
    assert name == "dashboard" || name == "free-preview" || name == "buy";
    assert name[0] != 't';
  }

  /** Two tier ids are equal only for equal tier numbers. */
  lemma TierIdInjective(s: int, t: int)
    requires TierId(s) == TierId(t)
    ensures s == t
  {
    var n := |Index.TierPrefix|;
    assert IntToString(s) == TierId(s)[n..];
    assert IntToString(t) == TierId(t)[n..];
    IntToStringInjective(s, t);
  }

  lemma TierIdsDiffer(s: int, t: int)
    requires s != t
    ensures TierId(s) != TierId(t)
  {
    if TierId(s) == TierId(t) {
      TierIdInjective(s, t);
    }
  }

  lemma {:induction false} DistinctAppend(a: seq<string>, b: seq<string>)
    requires Distinct(a) && Distinct(b)
    requires forall i, j :: 0 <= i < |a| && 0 <= j < |b| ==> a[i] != b[j]
    ensures Distinct(a + b)
  {
    var ab := a + b;
    forall i, j | 0 <= i < j < |ab| ensures ab[i] != ab[j] {
      if j < |a| {
        assert ab[i] == a[i] && ab[j] == a[j];
      } else if i < |a| {
        assert ab[i] == a[i] && ab[j] == b[j - |a|];
      } else {
        assert ab[i] == b[i - |a|] && ab[j] == b[j - |a|];
      }
    }
  }

  /** With distinct tier numbers every button has its own id, so at most one
      button is highlighted. */
  lemma ButtonIdsDistinct(user: User, reqs: seq<TierRequirement>)
    requires forall i, j :: 0 <= i < j < |reqs| ==> reqs[i].tier != reqs[j].tier
    ensures Distinct(ButtonIds(user, reqs))
  {
    var menu, tiers := MenuIds(), TierIds(reqs);
    assert Distinct(menu);
    forall i, j | 0 <= i < j < |tiers| ensures tiers[i] != tiers[j] {
      TierIdsDiffer(reqs[i].tier, reqs[j].tier);
    }
    forall i, j | 0 <= i < |menu| && 0 <= j < |tiers| ensures menu[i] != tiers[j] {
      MenuIdsAreNotTierIds(i, reqs[j].tier);
    }
    DistinctAppend(menu, tiers);
  }

  /** At most one button is highlighted, whatever the current view. */
  lemma AtMostOneHighlighted(user: User, reqs: seq<TierRequirement>, view: string)
    requires forall i, j :: 0 <= i < j < |reqs| ==> reqs[i].tier != reqs[j].tier
    ensures var ids := ButtonIds(user, reqs);
            forall i, j :: 0 <= i < j < |ids| ==> !(IsActive(view, ids[i]) && IsActive(view, ids[j]))
  {
    ButtonIdsDistinct(user, reqs);
  }

  /** After a click on the `i`-th tier button, exactly one button is
      highlighted: that one, at position `|MenuItems| + i` of the buttons. */
  lemma TierClickHighlightsOne(user: User, reqs: seq<TierRequirement>, i: nat)
    requires forall i, j :: 0 <= i < j < |reqs| ==> reqs[i].tier != reqs[j].tier
    requires i < |reqs|
    ensures var ids := ButtonIds(user, reqs);
            forall k :: 0 <= k < |ids| ==> (IsActive(TierItems(user, reqs)[i].id, ids[k]) <==> k == |MenuItems| + i)
  {
    var ids := ButtonIds(user, reqs);
    ButtonIdsDistinct(user, reqs);
    OnlyOneActive(ids, |MenuItems| + i);
  }

  /** In a list of distinct ids, the view `ids[n]` highlights position `n` only. */
  lemma OnlyOneActive(ids: seq<string>, n: nat)
    requires Distinct(ids) && n < |ids|
    ensures forall k :: 0 <= k < |ids| ==> (IsActive(ids[n], ids[k]) <==> k == n)
  {
    forall k | 0 <= k < |ids| ensures IsActive(ids[n], ids[k]) <==> k == n {
      if k < n { assert ids[k] != ids[n]; }
      else if n < k { assert ids[n] != ids[k]; }
    }
  }

  /** A tier button routes back to its own tier: the router parses the id to
      the same number and looks up the first requirement for it. */
  lemma TierClickRoundTrip(user: User, reqs: seq<TierRequirement>, i: nat)
    requires i < |reqs| && reqs[i].tier >= 0
    ensures Index.RenderContent(TierItems(user, reqs)[i].id, reqs)
            == Index.TierContentOf(Some(reqs[i].tier), FindTier(reqs, reqs[i].tier))
  {
    Index.RouteTierId(reqs[i].tier, reqs);
  }

  /** The sidebar flag, the dashboard row and the tier page reached by the
      button all agree on whether the tier is unlocked. */
  lemma ViewsAgreeOnUnlock(user: User, reqs: seq<TierRequirement>, i: nat)
    requires i < |reqs| && reqs[i].tier >= 0
    ensures var c := Index.RenderContent(TierItems(user, reqs)[i].id, reqs);
            var page := TierContent.RenderTierContent(c.tier, user, c.tierInfo);
            && c.TierContentOf?
            && (TierItems(user, reqs)[i].unlocked <==> Dashboard.TierRows(user, reqs)[i].badge == "Unlocked")
            && (TierItems(user, reqs)[i].unlocked <==> page.grantedPanel)
            && (TierItems(user, reqs)[i].unlocked <==> page.badge == "Unlocked")
  {
    TierClickRoundTrip(user, reqs, i);
  }

  /** Navigating to `tier-2` as a tier-1 user shows the locked page; `tier-1`
      shows the granted one. */
  lemma NavigationExample(user: User, reqs: seq<TierRequirement>)
    requires user.currentTier == 1
    ensures var c := Index.RenderContent("tier-2", reqs);
            c.TierContentOf? && TierContent.RenderTierContent(c.tier, user, c.tierInfo).lockedPanel
    ensures var c := Index.RenderContent("tier-1", reqs);
            c.TierContentOf? && TierContent.RenderTierContent(c.tier, user, c.tierInfo).grantedPanel
  {
    assert IntToString(2) == "2" && IntToString(1) == "1";
    assert TierId(2) == "tier-2" && TierId(1) == "tier-1";
    Index.RouteTierId(2, reqs);
    Index.RouteTierId(1, reqs);
  }

  /** A user never holds the tier `currentTier + 1` that the dashboard names
      as next, and its sidebar button is shown locked. */
  lemma NextTierButtonLocked(user: User, reqs: seq<TierRequirement>, i: nat)
    requires i < |reqs| && Dashboard.NextTier(user, reqs) == Some(reqs[i])
    ensures !TierItems(user, reqs)[i].unlocked
  {
  }

  // ---------------------------------------------------------------------
  // clicks

  /** `handleMenuClick`: an external entry opens its address and leaves the page
      as it was; any other entry makes its id the current view.  The click's
      effect is returned. */
  method HandleMenuClick(page: Index.IndexPage, item: MenuItem) returns (c: Click)
    modifies page
    ensures c == MenuClick(item)
    ensures page.currentView == (if item.external then old(page.currentView) else item.id)
    ensures page.user == old(page.user) && page.tierRequirements == old(page.tierRequirements)
    ensures page.inviteCode == old(page.inviteCode) && page.isLoading == old(page.isLoading)
  {
    if item.external {
      c := OpenExternal(item.url);
    } else {
      page.SetCurrentView(item.id);
      c := ChangeView(item.id);
    }
  }

  /** A click on a tier button: `onViewChange(tier.id)`.  Afterwards that
      button is highlighted (and, by `TierClickHighlightsOne`, no other), and
      the signed-in page shows that tier's content. */
  method HandleTierClick(page: Index.IndexPage, item: TierItem)
    modifies page
    ensures page.currentView == item.id
    ensures page.user == old(page.user) && page.tierRequirements == old(page.tierRequirements)
    ensures page.inviteCode == old(page.inviteCode) && page.isLoading == old(page.isLoading)
    ensures !page.isLoading && page.user.Some? ==>
              page.Render() == Index.MainScreen(item.id, Index.RenderContent(item.id, page.tierRequirements))
  {
    page.SetCurrentView(item.id);
  }
}
