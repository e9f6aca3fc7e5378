/** The page component: its state (current user, tier requirements, current
    view, invite code, loading flag), the load-time initialisation, the
    authentication callback, and the choice of what to show — the loading
    screen, the registration form, or the main layout whose content is picked
    by the current-view string. */
module Index {
  import opened Wrappers
  import opened JsText
  import opened Records
  import opened JsUrl

  /** What `renderContent` returns: the Dashboard, the free preview, or the
      tier page with the parsed tier number (`None` is `NaN`) and the
      requirement found for it. */
  datatype Content =
    | DashboardContent
    | FreePreviewContent
    | TierContentOf(tier: Option<int>, tierInfo: Option<TierRequirement>)

  /** The whole page: loading screen, registration form (with the invite code
      it is given), or sidebar plus content for the current view. */
  datatype Screen =
    | LoadingScreen
    | AuthScreen(inviteCode: string)
    | MainScreen(currentView: string, content: Content)

  const InitialView: string := "dashboard"
  const TierPrefix: string := "tier-"

  /** `parseInt(view.split("-")[1])`; a missing second piece is `undefined`,
      which `parseInt` reads as `NaN`. */
  function TierNumberOf(view: string): Option<int> {
    var parts := Split(view, '-');
    if |parts| >= 2 then ParseInt(parts[1]) else None
  }

  /** `tierRequirements.find(t => t.tier === tierNumber)`; nothing equals `NaN`. */
  function TierInfoFor(reqs: seq<TierRequirement>, tier: Option<int>): (r: Option<TierRequirement>)
    ensures r.None? <==> tier.None? || forall i :: 0 <= i < |reqs| ==> reqs[i].tier != tier.value
    ensures r.Some? ==> r.value in reqs && r.value.tier == tier.value
  {
    match tier
    case None => None
    case Some(n) => FindTier(reqs, n)
  }

  /** `renderContent`: a total map from the current-view string to a content panel. */
  function RenderContent(view: string, reqs: seq<TierRequirement>): (c: Content)
    ensures view == "dashboard" ==> c == DashboardContent
    ensures view == "free-preview" ==> c == FreePreviewContent
    ensures c.TierContentOf? <==> StartsWith(view, TierPrefix)
    ensures c.TierContentOf? ==> c.tier == TierNumberOf(view) && c.tierInfo == TierInfoFor(reqs, c.tier)
    ensures c == DashboardContent <==> view != "free-preview" && !StartsWith(view, TierPrefix)
  {
    if view == "dashboard" then
      assert view[..|TierPrefix|][0] != TierPrefix[0];
      DashboardContent
    else if view == "free-preview" then
      assert view[..|TierPrefix|][0] != TierPrefix[0];
      FreePreviewContent
    else if StartsWith(view, TierPrefix) then
      var tier := TierNumberOf(view);
      TierContentOf(tier, TierInfoFor(reqs, tier))
    else DashboardContent
  }

  /** A tier id built from a natural number routes to the tier page for that
      number and the first requirement listed for it. */
  lemma RouteTierId(n: nat, reqs: seq<TierRequirement>)
    ensures RenderContent(TierPrefix + IntToString(n), reqs) == TierContentOf(Some(n), FindTier(reqs, n))
  {
    var digits := NatToString(n);
    var view := TierPrefix + digits;
    assert view == "tier" + ['-'] + digits;
    assert '-' !in digits by {
      forall i | 0 <= i < |digits| ensures digits[i] != '-' { }
    }
    SplitAround("tier", digits, '-');
    ParseNatToString(n);
    assert view[..5] == TierPrefix;
  }

  /** A tier id built from a negative number does not survive the router:
      `"tier--3".split("-")[1]` is the empty string, so the tier is `NaN`. */
  lemma RouteNegativeTierId(n: int, reqs: seq<TierRequirement>)
    requires n < 0
    ensures RenderContent(TierPrefix + IntToString(n), reqs) == TierContentOf(None, None)
  {
    var digits := NatToString(-n);
    var view := TierPrefix + IntToString(n);
    assert view == "tier" + ("-" + ("-" + digits));
    SplitPlainPrefix("tier", "-" + ("-" + digits), '-');
    assert ("-" + ("-" + digits))[1..] == "-" + digits;
    assert ("-" + digits)[1..] == digits;
    var parts := Split(view, '-');
    assert Split("-" + digits, '-') == [""] + Split(digits, '-');
    assert Split("-" + ("-" + digits), '-') == [""] + ([""] + Split(digits, '-'));
    assert parts[1] == "";
    ParseEmpty();
    assert view[..5] == TierPrefix;
  }

  /** The page body for a given state: loading first, then the form while
      nobody is signed in, then the main layout. */
  function Gate(isLoading: bool, user: Option<User>, inviteCode: string, view: string,
                reqs: seq<TierRequirement>): (s: Screen)
    ensures isLoading <==> s == LoadingScreen
    ensures s.AuthScreen? <==> !isLoading && user.None?
    ensures s.AuthScreen? ==> s.inviteCode == inviteCode
    ensures s.MainScreen? ==> s.currentView == view && s.content == RenderContent(view, reqs)
  {
    if isLoading then LoadingScreen
    else if user.None? then AuthScreen(inviteCode)
    else MainScreen(view, RenderContent(view, reqs))
  }

  /** Without a signed-in user the registration form shows whatever the current view is. */
  lemma AuthScreenIgnoresView(inviteCode: string, v1: string, v2: string, reqs: seq<TierRequirement>)
    ensures Gate(false, None, inviteCode, v1, reqs) == Gate(false, None, inviteCode, v2, reqs)
    ensures Gate(false, None, inviteCode, v1, reqs) == AuthScreen(inviteCode)
  {
  }

  /** The page component's state. */
  class IndexPage {
    var user: Option<User>
    var tierRequirements: seq<TierRequirement>
    var currentView: string
    var inviteCode: string
    var isLoading: bool

    /** The state on first render. */
    constructor ()
      ensures user == None && tierRequirements == [] && currentView == InitialView
      ensures inviteCode == "" && isLoading
    {
      user := None;
      tierRequirements := [];
      currentView := InitialView;
      inviteCode := "";
      isLoading := true;
    }

    /** `initializeApp` for the page address `location`: pick up a non-empty
        `invite` query parameter, take the fetched tier requirements (`None`
        when the fetch failed, which leaves the list as it was), and stop
        loading either way. */
    method InitializeApp(location: string, fetched: Option<seq<TierRequirement>>)
      modifies this
      ensures var invite := SearchParam(location, "invite");
              inviteCode == (if invite.Some? && invite.value != "" then invite.value else old(inviteCode))
      ensures tierRequirements == (if fetched.Some? then fetched.value else old(tierRequirements))
      ensures !isLoading
      ensures user == old(user) && currentView == old(currentView)
    {
      var invite := SearchParam(location, "invite");
      if invite.Some? && invite.value != "" {
        inviteCode := invite.value;
      }
      if fetched.Some? {
        tierRequirements := fetched.value;
      }
      isLoading := false;
    }

    /** `handleAuthSuccess`: the signed-in user becomes exactly the record given. */
    method HandleAuthSuccess(u: User)
      modifies this
      ensures user == Some(u)
      ensures tierRequirements == old(tierRequirements) && currentView == old(currentView)
      ensures inviteCode == old(inviteCode) && isLoading == old(isLoading)
    {
      user := Some(u);
    }

    /** `setCurrentView`, passed to the sidebar as `onViewChange`. */
    method SetCurrentView(view: string)
      modifies this
      ensures currentView == view
      ensures user == old(user) && tierRequirements == old(tierRequirements)
      ensures inviteCode == old(inviteCode) && isLoading == old(isLoading)
    {
      currentView := view;
    }

    /** What the page renders in its current state. */
    function Render(): Screen
      reads this
    {
      Gate(isLoading, user, inviteCode, currentView, tierRequirements)
    }
  }
}
