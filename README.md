# BabyKK access hub — a Dafny model of its decision logic

The BabyKK access hub is a single-page web front end over a hosted table store.
A visitor registers by solving an addition puzzle and choosing a username and a
password. Accounts are limited to one per IP address and one per username, and
an optional invite code records who referred the visitor. A signed-in user
then moves between a dashboard, a free preview and one page per content tier.
A tier counts as unlocked when the user's `current_tier` is at least that tier's
number.

This project models the parts of the front end that make decisions:

- **registration**: the puzzle (`AuthForm.NewQuestion`) and the submit handler.
  `AuthForm.Register` states the whole handler as a function. The method
  `AuthForm.AuthForm.HandleRegister` performs the handler's steps one by one on
  an in-memory `Records.Store` and is proved to agree with `Register`. The store
  holds the `users` and `invite_links` tables as sequences.
- **the page** (`Index`): the page state, start-up, the authentication callback,
  the loading/sign-in gate and the router from the current-view string to a
  content panel.
- **the sidebar** (`Sidebar`): the tier buttons, what a click does, and which
  button is highlighted.
- **the dashboard** (`Dashboard`): the current and next tier, the "N more"
  figure, the progress card, the tier rows and the invite link.
- **the tier page** (`TierContent`): the unlocked state, the badge, the
  subtitle, the remaining count, the bar and the two exclusive panels.

Four support modules give JavaScript's own semantics where the components rely
on them:

- `JsText`: `.length`, `split`, number-to-text conversion and `parseInt`.
- `JsNumber`: division by zero, `NaN` and `Math.min`.
- `JsUrl`: `URLSearchParams.get`.
- `Records`: `.eq(...)` filters, `.single()` and `Array.prototype.find`.

The puzzle answer is not an abstract `Option<int>`. It is the raw text of the
field, read by a model of `parseInt`. The field is a `type="number"` input, so
the browser only delivers text that reads as a number, or `""`. The model
accepts any text, for instance `" 7"`, `"7abc"` or `"0x7"`, and reads it as
`parseInt` would, so it covers more inputs than can actually reach the handler. Lengths are UTF-16 code-unit counts. `btoa` is a
function parameter, but the exception it throws on characters above U+00FF is
modelled, because it lands in the handler's generic catch.

`.single()` returns a row only when exactly one row matches. Under the intended
invariant (one account per IP address, unique usernames) that is the same as
"some row matches" (`AuthForm.UniqueLookups`). Without the invariant it is not.
`AuthForm.DuplicatesSlipPastSingle` shows that two accounts already sharing an
address let a third through.

The four `.eq(...).single()` selects (the IP and username checks, the invite
code lookup and the dashboard's own link) are computed from the in-memory
tables. Every other remote call is replaced by a value the caller supplies:

- the IP lookup's answer;
- the insert's error;
- whether `create_user_invite_link` fails;
- the code that procedure mints;
- the page address;
- the fetched tier list.

Ids are natural numbers taken from a counter, in place of the store's generated
identifiers.

## Model

| member | source | states |
|---|---|---|
| AuthForm.NewQuestion | src/components/AuthForm.tsx:29-31 | both operands lie in 1..10, the stored answer is their sum, so it lies in 2..20 |
| AuthForm.OperandInterval | src/components/AuthForm.tsx:29-30 | an operand equals k exactly when the random value lies in [(k-1)/10, k/10), so each of the ten values takes a tenth of the range |
| AuthForm.Operand | src/components/AuthForm.tsx:29-30 | `Math.floor(r * 10) + 1` for a random value in [0, 1) lies in 1..10 |
| AuthForm.CheckForm | src/components/AuthForm.tsx:43-68 | checks run in a fixed order: puzzle, then username length ≥ 3, then password length ≥ 6; each error is reported exactly when the earlier checks pass and its own fails |
| AuthForm.Latin1 | src/components/AuthForm.tsx:135 | `btoa` accepts the password exactly when every character is at most U+00FF; by `ExitsAreClean` a registration only succeeds when it holds, and otherwise the throw lands in the generic catch |
| AuthForm.Inviter | src/components/AuthForm.tsx:118-132 | the inviter lookup: no contract of its own; `InviterOwnsLink` and `InviterResolution` state its properties |
| AuthForm.InviterOwnsLink | src/components/AuthForm.tsx:118-132 | whatever the stored links, an inviter is found only for a non-empty code, and it is the owner of a stored link carrying that code |
| AuthForm.Submit | src/components/AuthForm.tsx:72-167 | the `try` block as a function: no contract of its own; `SubmitEffects` states its requests (the IP lookup first, only requests after it), and `DuplicateIpRefused`, `DuplicateUsernameRefused` and `ExitsAreClean` state its outcomes through `Register` |
| AuthForm.CreateAccount | src/components/AuthForm.tsx:118-167 | the steps after both uniqueness checks: no contract of its own; `CreateAccountExits` states its effect on the tables, `FreshSubmissionRegisters` the new row, `ReferralRecordsInviter` the inviter |
| AuthForm.CreateAccountExits | src/components/AuthForm.tsx:118-167 | after both uniqueness checks, a `btoa` throw or an insert failure leaves the tables unchanged; a success appends exactly one user row (form username, caller IP, resolved inviter, encoded password, tier 0, no invites) and the new user's invite link unless the procedure failed |
| AuthForm.NewAccount | src/components/AuthForm.tsx:139-148 | the inserted row: no contract of its own; `CreateAccountExits`, `ExitsAreClean` and `FreshSubmissionRegisters` state that it carries the form's username, the caller's IP, the resolved inviter, the encoded password, tier 0 and no invites |
| AuthForm.Register | src/components/AuthForm.tsx:39-178 | the whole handler as a function: no contract of its own; `LocalFailureTouchesNothing`, `LoadingBracketsRequests`, `ExitsAreClean`, `RegisterKeepsInvariants` and `FreshSubmissionRegisters` state its properties, and `HandleRegister` is proved to perform it |
| AuthForm.LocalFailureTouchesNothing | src/components/AuthForm.tsx:43-68 | a failed local check reports its own error, leaves both tables as they were and performs no step at all (no request, loading never switched on) |
| AuthForm.LoadingBracketsRequests | src/components/AuthForm.tsx:70-177 | once the local checks pass, loading goes on first, the IP lookup is the first request, loading goes off last, and everything in between is a request |
| AuthForm.UniqueLookups | src/components/AuthForm.tsx:82-105 | when no two users share an IP or a username, `.single()` on either column finds a row exactly when some user has that value |
| AuthForm.DuplicateIpRefused | src/components/AuthForm.tsx:82-97 | an IP that already has an account is refused with the duplicate-IP error, whatever the username, and the tables are unchanged |
| AuthForm.DuplicateUsernameRefused | src/components/AuthForm.tsx:101-116 | once the IP check passes, a taken username is refused with the duplicate-username error, and the tables are unchanged |
| AuthForm.DuplicatesSlipPastSingle | src/components/AuthForm.tsx:82-88 | when two rows already share the caller's IP, `.single()` finds none and a valid submission is not refused |
| AuthForm.ExitsAreClean | src/components/AuthForm.tsx:39-178 | every refusal leaves the tables unchanged; a success means every check passed and appends exactly one row (form username, caller IP, resolved inviter, encoded password, tier 0, no invites), keeps every earlier row, and adds one invite link unless the procedure failed |
| AuthForm.InviterResolution | src/components/AuthForm.tsx:118-132 | with distinct codes, the inviter is the owner of the link carrying the code; an empty or unknown code gives no inviter and is not an error |
| AuthForm.AppendKeepsUnique | src/components/AuthForm.tsx:139-148 | appending a user whose IP and username are both new keeps the table free of duplicates |
| AuthForm.RegisterKeepsInvariants | src/components/AuthForm.tsx:80-160 | from tables with one account per IP and unique usernames, any submission keeps those invariants and keeps every id below the counter |
| AuthForm.FreshSubmissionRegisters | src/components/AuthForm.tsx:135-166 | a valid form from a new IP with a new username registers a user with that username and IP, tier 0 and no invites; when the procedure succeeds, that user owns exactly one invite link |
| AuthForm.FirstLinkOfNewUser | src/components/AuthForm.tsx:160 | the link created for a user id no earlier link refers to is that user's only link |
| AuthForm.FilterAppendOne | src/components/AuthForm.tsx:139-148 | filtering a table after one appended row gives the old matches plus the new row if it matches |
| AuthForm.SecondAccountFromSameIpRefused | src/components/AuthForm.tsx:82-97 | after one successful registration, every later valid submission from the same IP is refused |
| AuthForm.ReferralRecordsInviter | src/components/AuthForm.tsx:118-160 | when a new user's minted code is fresh, a later successful registration that submits that code records the new user as its inviter |
| AuthForm.AuthForm.constructor | src/components/AuthForm.tsx:16-37 | a mounted form has empty fields, is not loading, keeps the invite code it was given and holds the puzzle drawn from two random values |
| AuthForm.AuthForm.SetUsername | src/components/AuthForm.tsx:199 | typing in the username field changes only the username |
| AuthForm.AuthForm.SetPassword | src/components/AuthForm.tsx:212 | typing in the password field changes only the password |
| AuthForm.AuthForm.SetMathAnswer | src/components/AuthForm.tsx:225 | typing in the answer field changes only the answer text |
| AuthForm.AuthForm.HandleRegister | src/components/AuthForm.tsx:39-178 | the outcome, the new tables and the recorded steps are exactly those of `Register` on the old tables and the form; the form is unchanged; loading is off after any network step; on success the page's user becomes exactly the new row, on any failure it stays as it was |
| AuthForm.AuthForm.CheckLocal | src/components/AuthForm.tsx:43-68 | the local checks report exactly the error `CheckForm` gives for the current fields, and change nothing |
| AuthForm.AuthForm.SendRegistration | src/components/AuthForm.tsx:70-177 | the network part of the handler: the result is `Submit` on the old tables and the form, loading is switched on before it and off after it, and it is off at the end |
| AuthForm.AuthForm.TryRegister | src/components/AuthForm.tsx:72-167 | the `try` block: outcome, new tables and requests are exactly `Submit`'s; the invariant of the store is kept; the page's user changes exactly on success |
| AuthForm.SubmitEffects | src/components/AuthForm.tsx:72-167 | once the local checks pass, the IP lookup is the first request and every recorded step in the `try` block is a request |
| AuthForm.AuthForm.CreateAccountIn | src/components/AuthForm.tsx:118-167 | after both uniqueness checks: the result is `CreateAccount` on the old tables, and the page's user becomes the new row exactly on success |
| Records.Filter | src/components/AuthForm.tsx:82-86 | `.eq(...)`: a row is in the result exactly when it is in the table and matches, and the result is no longer than the table |
| Records.FilterNone | src/components/AuthForm.tsx:82-86 | a filter that no row satisfies returns nothing |
| Records.SingleRow | src/components/AuthForm.tsx:82-86 | `.single()`: no contract of its own; `SingleIffExists` states that under at-most-one matching it finds a row exactly when one matches, and `DuplicatesSlipPastSingle` that with two matches it finds none |
| Records.SingleIffExists | src/components/AuthForm.tsx:82-86 | when at most one row can match, `.single()` returns a row exactly when some row matches, and that row is a matching stored row |
| Records.FindTier | src/pages/Index.tsx:98 | `find`: none exactly when no requirement has the tier; otherwise the first requirement with that tier |
| Records.Unlocked | src/components/TierContent.tsx:13 | `current_tier >= tier`: no contract of its own; `UnlockedDownward` and `UnlockedIgnoresInvites` below state its properties |
| Records.UnlockedDownward | src/components/TierContent.tsx:13 | a user who holds tier t holds every tier t' ≤ t |
| Records.UnlockedIgnoresInvites | src/components/TierContent.tsx:13 | unlocking depends on the current tier only, never on the invite count |
| Records.Store.InsertUser | src/components/AuthForm.tsx:139-148 | the insert appends exactly one row with a fresh id, tier 0 and no invites, and leaves the links alone |
| Records.Store.CreateUserInviteLink | src/components/AuthForm.tsx:160 | the procedure appends exactly one link for the user with the minted code, and leaves the users alone |
| Index.RenderContent | src/pages/Index.tsx:81-115 | `"dashboard"` routes to the Dashboard; `"free-preview"` routes to the free preview; a view is routed to a tier page exactly when it starts with `"tier-"`, with the tier parsed from the second `-` piece and the first requirement for it; every other string falls back to the Dashboard |
| Index.TierNumberOf | src/pages/Index.tsx:97 | `parseInt(view.split("-")[1])`: no contract of its own; `RouteTierId` states it reads `n` back from `"tier-" + n` for n ≥ 0, and `RouteNegativeTierId` that it gives `NaN` for negative n |
| Index.TierInfoFor | src/pages/Index.tsx:98 | no requirement exactly when the tier is `NaN` or no requirement has that tier; otherwise a listed requirement with that tier (the first one, by `FindTier`) |
| Index.RouteTierId | src/pages/Index.tsx:96-98 | `"tier-" + n` for a natural number n routes to the tier page for n and the first requirement listed for n |
| Index.RouteNegativeTierId | src/pages/Index.tsx:96-98 | `"tier-" + n` for a negative n routes to a tier page whose tier is `NaN` and which has no requirement |
| Index.Gate | src/pages/Index.tsx:117-131 | the loading screen exactly while loading; otherwise the registration form, with the page's invite code, exactly when nobody is signed in; otherwise the main layout with the routed content |
| Index.AuthScreenIgnoresView | src/pages/Index.tsx:128-131 | without a signed-in user the form is shown whatever the current view |
| Index.IndexPage.constructor | src/pages/Index.tsx:12-16 | the initial state: no user, no tiers, view `"dashboard"`, empty invite code, loading |
| Index.IndexPage.InitializeApp | src/pages/Index.tsx:24-69 | the invite code is set only when the `invite` parameter of the address is present and non-empty; the tier list is replaced only when the fetch succeeded; loading stops either way |
| Index.IndexPage.HandleAuthSuccess | src/pages/Index.tsx:71-74 | the signed-in user becomes exactly the record given, and nothing else changes |
| Index.IndexPage.SetCurrentView | src/pages/Index.tsx:141 | the view becomes exactly the id given, and nothing else changes |
| Index.IndexPage.Render | src/pages/Index.tsx:117-148 | what the page shows: no contract of its own; it is `Gate` on the page's fields, whose contract states the three screens, and `Sidebar.HandleTierClick` states what it shows after a click |
| Sidebar.TierItems | src/components/Sidebar.tsx:31-39 | one button per requirement, in the same order, with id `"tier-" + tier`, caption `"Tier " + tier`, the requirement's description, price and threshold, and unlocked exactly when the current tier is at least the tier |
| Sidebar.TierId | src/components/Sidebar.tsx:32 | `` `tier-${tier}` ``: no contract of its own; `TierIdInjective`, `MenuIdsAreNotTierIds` and `TierClickRoundTrip` state its properties |
| Sidebar.MenuClick | src/components/Sidebar.tsx:41-47 | an external entry opens its address; any other entry changes the view to its id |
| Sidebar.ButtonIds | src/components/Sidebar.tsx:103-125 | the ids of the menu entries followed by those of the tier buttons |
| Sidebar.IsActive | src/components/Sidebar.tsx:106-125 | a button is highlighted when the current view equals its id: no contract of its own; `AtMostOneHighlighted` and `TierClickHighlightsOne` state its properties |
| Sidebar.MenuIdsAreNotTierIds | src/components/Sidebar.tsx:25-32 | no menu id equals a tier id or starts with `"tier-"` |
| Sidebar.TierIdInjective | src/components/Sidebar.tsx:32 | two tier ids are equal only for equal tier numbers |
| Sidebar.ButtonIdsDistinct | src/components/Sidebar.tsx:103-125 | with distinct tier numbers, every button has its own id |
| Sidebar.AtMostOneHighlighted | src/components/Sidebar.tsx:106-125 | with distinct tier numbers, at most one button is highlighted for any current view |
| Sidebar.TierClickHighlightsOne | src/components/Sidebar.tsx:122-130 | with distinct tier numbers, after a click on a tier button exactly one button is highlighted, and it is that button |
| Sidebar.TierClickRoundTrip | src/components/Sidebar.tsx:31-33 | routing a tier button's id gives back the same tier number (for tiers ≥ 0) and the first requirement for it |
| Sidebar.ViewsAgreeOnUnlock | src/components/Sidebar.tsx:38 | the sidebar's unlocked flag, the dashboard row's badge and the tier page the button leads to agree on whether the tier is unlocked |
| Sidebar.NavigationExample | src/pages/Index.tsx:96-105 | a tier-1 user sees the locked page at `tier-2` and the granted page at `tier-1` |
| Sidebar.NextTierButtonLocked | src/components/Sidebar.tsx:38 | the button of the tier the dashboard names as next is always shown locked |
| Sidebar.HandleMenuClick | src/components/Sidebar.tsx:41-47 | the click performed is `MenuClick`; an external entry leaves the view unchanged; any other entry sets the view to its id; nothing else on the page changes |
| Sidebar.HandleTierClick | src/components/Sidebar.tsx:130 | the view becomes the button's id (so, by `TierClickHighlightsOne`, only that button is highlighted); nothing else on the page changes; the signed-in page then shows the routed content for it |
| Dashboard.NextTier | src/components/Dashboard.tsx:21 | none exactly when no requirement has tier `current_tier + 1`; otherwise the first listed requirement with that tier |
| Dashboard.CurrentTierInfo | src/components/Dashboard.tsx:22 | none exactly when no requirement has the current tier; otherwise the first listed requirement with that tier |
| Dashboard.CurrentTierText | src/components/Dashboard.tsx:95 | `"Free tier access"` when no requirement has the current tier; otherwise the description of the first requirement that has it |
| Dashboard.NextTierCardOf | src/components/Dashboard.tsx:103-124 | "Max Tier" exactly when there is no next tier; otherwise the next tier's number and `required_invites - total_invites`, unclamped |
| Dashboard.Progress | src/components/Dashboard.tsx:128-149 | without a next tier: a 100% badge, a full bar, the caption "Complete"; with one: the unrounded ratio, the capped width, and the total/required caption; the width never exceeds 100 |
| Dashboard.TierRows | src/components/Dashboard.tsx:198-217 | one row per requirement, in order; "Unlocked" exactly when the current tier is at least the row's tier, "Locked" otherwise |
| Dashboard.Badge | src/components/Dashboard.tsx:213-214 | `"Unlocked"` or `"Locked"` by `Unlocked`: no contract of its own; `TierRows`, `NextTierRowLocked`, `RowsSplitAtCurrentTier` and `ViewsAgreeOnUnlock` state its properties |
| Dashboard.NextTierRowLocked | src/components/Dashboard.tsx:201-214 | the row of the next tier always reads "Locked" |
| Dashboard.RowsSplitAtCurrentTier | src/components/Dashboard.tsx:201-214 | if a row reads "Unlocked", so does every row with a lower or equal tier |
| Dashboard.FullBarIffNoMoreNeeded | src/components/Dashboard.tsx:111-142 | with a positive threshold, the bar is full exactly when the "more" figure is zero or below |
| Dashboard.DashboardAgreesWithTierPage | src/components/Dashboard.tsx:111-142 | the dashboard's "more" figure and bar equal the remaining count and bar of the next tier's page, and that page is locked |
| Dashboard.WorkedExample | src/components/Dashboard.tsx:21-147 | thresholds 5 and 20, a tier-1 user with 7 invites: "13 more" for tier 2, a 35% badge and bar, caption 7/20 |
| Dashboard.InviteUrl | src/components/Dashboard.tsx:37 | the link is the fixed prefix `https://www.babykk.shop/?invite=` followed by exactly the code |
| Dashboard.InviteUrlRoundTrip | src/components/Dashboard.tsx:37 | opening the link gives back the code as the `invite` parameter the page reads, for codes without `&`, `#`, `+`, `%`, tab or line breaks that do not end in a space or control character |
| Dashboard.InviteUrlShape | src/components/Dashboard.tsx:37 | an invite link is the site address, `?`, and the one pair `invite=code`, and the site address holds no `?` or `#` |
| Dashboard.RegisteredUserOwnsMintedLink | src/components/Dashboard.tsx:28-38 | after a successful registration whose procedure succeeded, `.single()` on the new user's links finds exactly the link with the minted code |
| Dashboard.DashboardView.constructor | src/components/Dashboard.tsx:17 | the link starts empty |
| Dashboard.DashboardView.FetchInviteLink | src/components/Dashboard.tsx:28-42 | when exactly one link belongs to the user, the link becomes the prefix plus its code; otherwise the link stays as it was |
| TierContent.Remaining | src/components/TierContent.tsx:91 | `NaN` exactly when the requirement is missing; otherwise a number that, added to the invite count, gives the threshold (unclamped) |
| TierContent.BarWidth | src/components/TierContent.tsx:97 | `NaN` when the requirement is missing; never +Infinity; at most 100 when finite |
| TierContent.IsUnlocked | src/components/TierContent.tsx:13 | `user.current_tier >= tier`, where a tier that did not parse (`NaN`, here `None`) compares false: no contract of its own; `RenderTierContent`, `GrantedDownward`, `LockStateIgnoresInvites` and `NaNTierLocked` state its properties |
| TierContent.RenderTierContent | src/components/TierContent.tsx:13-122 | the granted panel exactly when unlocked, the locked panel exactly when not (never both, never neither); badge "Unlocked"/"Locked" to match; the access message exactly when unlocked, otherwise the offer with the requirement's price and threshold |
| TierContent.GrantedDownward | src/components/TierContent.tsx:13 | a granted tier page means every lower tier's page is granted too |
| TierContent.LockStateIgnoresInvites | src/components/TierContent.tsx:13 | badge, subtitle and panels are the same for two users with the same tier, whatever their invite counts |
| TierContent.NaNTierLocked | src/components/TierContent.tsx:13 | a tier that did not parse is locked for every user |
| TierContent.BarFullIffNothingRemaining | src/components/TierContent.tsx:91-97 | with a positive threshold, the bar is full exactly when the remaining count is zero or below, and otherwise it shows the exact ratio |
| TierContent.GrantedWithInvitesOutstanding | src/components/TierContent.tsx:13-122 | a user promoted without invites sees "Access Granted" next to "invite 5 more" and an empty bar |
| JsText.Utf16Length | src/components/AuthForm.tsx:52 | `.length` counts at least one unit per character, exactly one per character inside the Basic Multilingual Plane |
| JsText.StartsWith | src/pages/Index.tsx:96 | `startsWith`: no contract of its own; `Index.RenderContent` states that a view routes to a tier page exactly when it starts with `"tier-"`, and `Sidebar.MenuIdsAreNotTierIds` that no menu id does |
| JsText.Split | src/pages/Index.tsx:97 | `split` always returns at least one piece |
| JsText.SplitJoin | src/pages/Index.tsx:97 | joining the pieces gives back the string, and no piece holds the separator |
| JsText.SplitAround | src/pages/Index.tsx:97 | `a + "-" + b`, with no `-` in a or b, splits into exactly `[a, b]` |
| JsText.NatToString | src/components/Sidebar.tsx:32 | the decimal text of a number is non-empty and made of digits |
| JsText.IntToString | src/components/Sidebar.tsx:32 | the decimal text of an integer is non-empty, starts with `-` exactly when the integer is negative, and is digits after the first character |
| JsText.TrimStart | src/components/AuthForm.tsx:43 | `parseInt` drops exactly the leading white space: the result is a suffix, every dropped character is white space, and what is left does not start with white space |
| JsText.LeadingDigits | src/components/AuthForm.tsx:43 | `parseInt` reads the longest run of digits at the front |
| JsText.ParseInt | src/components/AuthForm.tsx:43 | `parseInt` without a radix: no contract of its own; `ParseNatToString`, `ParseIntToString` and `ParseEmpty` state what it reads, `TrimStart` and `LeadingDigits` how much of the text it reads |
| JsText.ParseNatToString | src/pages/Index.tsx:97 | `parseInt` reads the decimal text of every natural number back to that number |
| JsText.ParseIntToString | src/pages/Index.tsx:97 | `parseInt` reads the decimal text of every integer, sign included, back to that integer |
| JsText.IntToStringInjective | src/components/Sidebar.tsx:32 | distinct integers have distinct decimal texts |
| JsText.ParseEmpty | src/pages/Index.tsx:97 | `parseInt("")` is `NaN` |
| JsNumber.CappedPercent | src/components/Dashboard.tsx:141 | `min(total/required*100, 100)` is never +Infinity and at most 100 when finite; it is 100 once the threshold is reached and the exact ratio below it; a zero threshold gives 100, `NaN` or −Infinity by the sign of the total |
| JsNumber.CappedPercentInRange | src/components/Dashboard.tsx:141 | for non-negative totals and a positive threshold, the width lies in [0, 100] |
| JsNumber.Divide | src/components/Dashboard.tsx:141 | `/` on two integers, with division by zero giving ±Infinity or `NaN` (also at src/components/TierContent.tsx:97): no contract of its own; `CappedPercent` states what the bar width made from it is |
| JsNumber.Scale | src/components/Dashboard.tsx:141 | `* 100`, which keeps ±Infinity and `NaN`: no contract of its own; `CappedPercent` states its effect on the bar width |
| JsNumber.Min | src/components/Dashboard.tsx:141 | `Math.min`, `NaN` if either argument is: no contract of its own; `CappedPercent` states that the width is never +Infinity, at most 100, and 100 once the threshold is reached |
| JsUrl.FirstNamed | src/pages/Index.tsx:27-28 | the position of the first non-empty pair with the name at or after a start position, or the end when there is none |
| JsUrl.Lookup | src/pages/Index.tsx:27-28 | `get` gives nothing exactly when no non-empty pair has the name; otherwise the value of the first such pair |
| JsUrl.FormDecode | src/pages/Index.tsx:27-28 | decoding keeps the length and reads every `+` as a space |
| JsUrl.Query | src/pages/Index.tsx:27 | `location.search`, the text after the first `?` and before `#`: no contract of its own; `QueryAfterMark` and `OnePairQuery` state what it gives for `base?q` |
| JsUrl.QueryAfterMark | src/pages/Index.tsx:27 | the query of `base?q` is `q` when neither part holds `#` and the base holds no `?` |
| JsUrl.OnePairQuery | src/pages/Index.tsx:27 | the query of `base?pair` is the pair, and it splits into that one pair |
| JsUrl.SingleParam | src/pages/Index.tsx:27-28 | an address `base?name=value` gives `value` back for `name`, when neither holds `&`, `#`, `+`, `%`, tab or line breaks and the value does not end in a space or control character |
| JsUrl.LookupOne | src/pages/Index.tsx:28 | a single non-empty pair with the name is the one `get` picks |
| JsUrl.SearchParam | src/pages/Index.tsx:27-28 | `new URLSearchParams(location.search).get(name)`: no contract of its own; `SingleParam` and `Dashboard.InviteUrlRoundTrip` state what it reads back, and `Lookup` which pair it picks |

## Left out

- Remote calls (the store's select/insert/procedure API, the IP lookup over HTTP) are replaced by in-memory tables and by answers the caller supplies. The store's own concurrency and query errors other than the insert's are not modelled. The defaults of `current_tier` and `total_invites` are taken to be 0; other column defaults are not modelled. The handler reads a failed select as "no row", so a failed IP select would let a second account from the same address through; the model's selects never fail, so it cannot show this.
- The IP lookup's JSON decoding is not modelled. A rejected fetch or a body that is not JSON is one case, `World.ip == None`, which goes to the generic catch.
- A JSON body without an `ip` field is not modelled. There `userIP` is `undefined`, the IP check filters on the text `undefined`, and the handler goes on instead of stopping.
- The password encoding (`btoa`, Base64) is a function parameter. Only its refusal of characters above U+00FF is modelled.
- The invite code minted by `create_user_invite_link` is a parameter. The procedure's effect is modelled as "appends one link for the user". The procedure's failure is modelled, and it does not change the reported success.
- The store's generated row identifiers are natural numbers from a counter. The sidebar's `user.id.slice(0, 8)` display is not modelled.
- `Math.round` in the progress badge and all CSS width strings are not modelled. `Dashboard.Progress` gives the unrounded percentage, and every number is an exact real, not a binary floating-point value.
- `JsText.IntToString` writes every integer in decimal. JavaScript switches to exponent notation at 10^21, and tier numbers are far below that.
- Percent-decoding in `URLSearchParams` is not modelled; only `+` is decoded. The URL parser's own clean-up of the address is not modelled either: it removes tab, line feed and carriage return everywhere and trims spaces and control characters from both ends. `JsUrl.SingleParam` and `Dashboard.InviteUrlRoundTrip` therefore require the name and the value (the code) to hold no `&`, `#`, `+`, `%`, tab, line feed or carriage return, and the value not to end in a space or control character; for such text the model's reading and the browser's agree.
- Strings are sequences of Unicode scalar values, so lone surrogates cannot be written. `Utf16Length` counts a character outside the Basic Multilingual Plane as two units.
- The puzzle's initial `{0, 0, 0}` state before the mount effect runs is not modelled. The constructor draws the puzzle directly from two values of `Math.random()`, which are parameters.
- `handleUserUpdate` in the page and the dashboard's `onUserUpdate` prop are never called in the source, so they are left out.
- The `tier_requirements` fetch is ordered by tier on the server. The model takes the fetched list as given, and nothing in the model relies on the order.
- Clipboard copying, the two-second `copied` reset, toasts, console output, `window.open`, the sidebar's mobile collapse toggle and all markup and styling are not modelled. `Sidebar.HandleMenuClick` returns the address it would open.
- The free-preview page is a static list of links with no logic.
- Concurrency: two registrations interleaving, as from two tabs, are not modelled. The model runs one handler to completion at a time.
- `AuthForm.AuthForm.HandleRegister` is split into `CheckLocal`, `SendRegistration`, `TryRegister` and `CreateAccountIn`. Together they run the steps of the one source function in the same order, and the split keeps each proof small.
- `AuthForm.AuthForm.TryRegister` does not switch loading off at its two early returns as the source does. `SendRegistration` switches it off once, after the `try` block returns. No step comes between the two points, so the final state and the recorded steps are the same.
- `AuthForm.AuthForm.HandleRegister` records the handler's requests and loading switches in a ghost log, `effects`, because the requests themselves are not modelled.
