/** The registration form: the addition puzzle drawn once per mount, and the
    submit handler, which validates the form, looks the caller's IP address
    and the username up in `users`, resolves the inviter from an invite code,
    inserts one row and asks the server for the new user's invite link.

    `Register` states the whole submit handler as a function of the store's
    tables, the form and what the outside world answers; the method
    `AuthForm.HandleRegister` performs the same steps one by one on the store
    and is proved to agree with it. */
module AuthForm {
  import opened Wrappers
  import opened JsText
  import opened Records
  import Index

  // ---------------------------------------------------------------------
  // the puzzle

  datatype MathQuestion = MathQuestion(num1: int, num2: int, answer: int)

  /** `Math.floor(r * 10) + 1` for a value `r` of `Math.random()`. */
  function Operand(r: real): (k: int)
    requires 0.0 <= r < 1.0
    ensures 1 <= k <= 10
  {
    (r * 10.0).Floor + 1
  }

  /** Each operand value takes exactly a tenth of the range of `Math.random()`,
      so the ten values are equally likely. */
  lemma OperandInterval(r: real, k: int)
    requires 0.0 <= r < 1.0
    ensures Operand(r) == k <==> (k - 1) as real / 10.0 <= r < k as real / 10.0
  {
    var f := (r * 10.0).Floor;
    assert f as real <= r * 10.0 < f as real + 1.0;
    assert ((k - 1) as real / 10.0 <= r < k as real / 10.0) == ((k - 1) as real <= r * 10.0 < k as real);
    assert ((k - 1) as real <= r * 10.0 < k as real) == (f == k - 1);
  }

  /** The puzzle drawn from two values of `Math.random()`. */
  function NewQuestion(r1: real, r2: real): (q: MathQuestion)
    requires 0.0 <= r1 < 1.0 && 0.0 <= r2 < 1.0
    ensures 1 <= q.num1 <= 10 && 1 <= q.num2 <= 10
    ensures q.answer == q.num1 + q.num2 && 2 <= q.answer <= 20
  {
    var a := Operand(r1);
    var b := Operand(r2);
    MathQuestion(a, b, a + b)
  }

  // ---------------------------------------------------------------------
  // the submit handler as a function

  datatype RegisterError =
    | WrongAnswer          // "Incorrect math answer."
    | UsernameTooShort     // "Username must be at least 3 characters long."
    | PasswordTooShort     // "Password must be at least 6 characters long."
    | IpAlreadyRegistered  // "An account already exists from this IP address."
    | UsernameTaken        // "Username already exists."
    | InsertRejected(message: string)  // the store's error message
    | Unexpected           // the catch-all "Failed to create account."

  datatype Outcome = Registered(user: User) | Rejected(error: RegisterError)

  /** The form's contents when it is submitted, with the invite code the page passed in. */
  datatype Form = Form(mathAnswer: string, question: MathQuestion, username: string,
                       password: string, inviteCode: string)

  /** What the outside world answers during one submission: the IP lookup
      (`None` when the request fails), the insert's error if it has one,
      whether the invite-link procedure fails, and the code the server mints. */
  datatype World = World(ip: Option<string>, insertError: Option<string>, rpcFails: bool,
                         mintedCode: string)

  /** The observable steps of a submission, in order. */
  datatype Effect =
    | LoadingOn | LoadingOff
    | FetchIp | SelectUserByIp | SelectUserByName | SelectInviteLink | InsertUserRow
    | RequestInviteLink(userId: nat)

  datatype Attempt = Attempt(outcome: Outcome, tables: Tables, effects: seq<Effect>)

  /** The local checks, in the order the handler makes them: puzzle, then a
      username of at least 3 and a password of at least 6 UTF-16 code units. */
  function CheckForm(f: Form): (r: Option<RegisterError>)
    ensures r == Some(WrongAnswer) <==> ParseInt(f.mathAnswer) != Some(f.question.answer)
    ensures r == Some(UsernameTooShort) <==>
              ParseInt(f.mathAnswer) == Some(f.question.answer) && Utf16Length(f.username) < 3
    ensures r == Some(PasswordTooShort) <==>
              ParseInt(f.mathAnswer) == Some(f.question.answer) && Utf16Length(f.username) >= 3
              && Utf16Length(f.password) < 6
    ensures r.None? <==>
              ParseInt(f.mathAnswer) == Some(f.question.answer) && Utf16Length(f.username) >= 3
              && Utf16Length(f.password) >= 6
  {
    if ParseInt(f.mathAnswer) != Some(f.question.answer) then Some(WrongAnswer)
    else if Utf16Length(f.username) < 3 then Some(UsernameTooShort)
    else if Utf16Length(f.password) < 6 then Some(PasswordTooShort)
    else None
  }

  /** `btoa` accepts only characters up to U+00FF and throws otherwise. */
  predicate Latin1(s: string) {
    forall i :: 0 <= i < |s| ==> s[i] as int <= 0xFF
  }

  /** The inviter: the owner of the one invite link carrying a non-empty code.
      An empty code, or a code that no single link carries, gives no inviter. */
  function Inviter(links: seq<InviteLink>, code: string): Option<nat> {
    if code == "" then None
    else
      match SingleRow(LinksWithCode(links, code))
      case Some(l) => Some(l.userId)
      case None => None
  }

  /** The part of a submission after the local checks, from the IP lookup to
      the invite-link request; `effects` lists the requests made. */
  function Submit(db: Tables, f: Form, w: World, encode: string -> string): Attempt {
    if w.ip.None? then Attempt(Rejected(Unexpected), db, [FetchIp])
    else if SingleRow(UsersWithIp(db.users, w.ip.value)).Some? then
      Attempt(Rejected(IpAlreadyRegistered), db, [FetchIp, SelectUserByIp])
    else if SingleRow(UsersNamed(db.users, f.username)).Some? then
      Attempt(Rejected(UsernameTaken), db, [FetchIp, SelectUserByIp, SelectUserByName])
    else
      var rest := CreateAccount(db, f, w.ip.value, w, encode);
      Attempt(rest.outcome, rest.tables, [FetchIp, SelectUserByIp, SelectUserByName] + rest.effects)
  }

  /** The account the checked submission creates: the inviter resolved from
      the invite code, the encoded password, one user row, one request for
      the new user's invite link. */
  function NewAccount(db: Tables, f: Form, ip: string, encode: string -> string): User {
    User(db.nextId, f.username, encode(f.password), ip, Inviter(db.inviteLinks, f.inviteCode), 0, 0)
  }

  /** The steps after both uniqueness checks have passed. */
  function CreateAccount(db: Tables, f: Form, ip: string, w: World, encode: string -> string): Attempt {
    var lookups := if f.inviteCode != "" then [SelectInviteLink] else [];
    if !Latin1(f.password) then Attempt(Rejected(Unexpected), db, lookups)
    else if w.insertError.Some? then
      Attempt(Rejected(InsertRejected(w.insertError.value)), db, lookups + [InsertUserRow])
    else
      var u := NewAccount(db, f, ip, encode);
      var links := if w.rpcFails then db.inviteLinks
                   else db.inviteLinks + [InviteLink(db.nextId + 1, u.id, w.mintedCode)];
      var tables := Tables(db.users + [u], links, if w.rpcFails then db.nextId + 1 else db.nextId + 2);
      Attempt(Registered(u), tables, lookups + [InsertUserRow, RequestInviteLink(u.id)])
  }

  /** One submission of the registration form.  `encode` stands for `btoa`.
      Once the local checks pass, loading is switched on before the first
      request and off again at the end. */
  function Register(db: Tables, f: Form, w: World, encode: string -> string): Attempt {
    match CheckForm(f)
    case Some(e) => Attempt(Rejected(e), db, [])
    case None =>
      var s := Submit(db, f, w, encode);
      Attempt(s.outcome, s.tables, [LoadingOn] + s.effects + [LoadingOff])
  }

  // ---------------------------------------------------------------------
  // properties of a submission

  /** A submission that fails a local check reports that check's error,
      touches no table and makes no request. */
  lemma LocalFailureTouchesNothing(db: Tables, f: Form, w: World, encode: string -> string)
    requires CheckForm(f).Some?
    ensures Register(db, f, w, encode) == Attempt(Rejected(CheckForm(f).value), db, [])
  {
  }

  predicate IsRequest(e: Effect) {
    !e.LoadingOn? && !e.LoadingOff?
  }

  /** Once the local checks pass, loading goes on before the first request
      (the IP lookup) and off again as the last step, and nowhere in between. */
  lemma LoadingBracketsRequests(db: Tables, f: Form, w: World, encode: string -> string)
    requires CheckForm(f).None?
    ensures var e := Register(db, f, w, encode).effects;
            |e| >= 3 && e[0] == LoadingOn && e[1] == FetchIp && e[|e| - 1] == LoadingOff
            && forall i :: 0 < i < |e| - 1 ==> IsRequest(e[i])
  {
    var s := Submit(db, f, w, encode);
    SubmitEffects(db, f, w, encode);
    var e := [LoadingOn] + s.effects + [LoadingOff];
    assert forall i :: 0 < i < |e| - 1 ==> e[i] == s.effects[i - 1];
  }

  /** The network part starts with the IP lookup and makes only requests. */
  lemma SubmitEffects(db: Tables, f: Form, w: World, encode: string -> string)
    ensures var e := Submit(db, f, w, encode).effects;
            |e| >= 1 && e[0] == FetchIp && forall i :: 0 <= i < |e| ==> IsRequest(e[i])
  {
    if w.ip.Some? && SingleRow(UsersWithIp(db.users, w.ip.value)).None?
       && SingleRow(UsersNamed(db.users, f.username)).None? {
      var rest := CreateAccount(db, f, w.ip.value, w, encode);
      assert forall i :: 0 <= i < |rest.effects| ==> IsRequest(rest.effects[i]);
      var checks := [FetchIp, SelectUserByIp, SelectUserByName];
      assert forall i :: 0 <= i < |checks + rest.effects| ==>
               (checks + rest.effects)[i] == if i < 3 then checks[i] else rest.effects[i - 3];
    }
  }

  /** Under the uniqueness invariant, `.single()` on the IP or the username
      finds a row exactly when some user has it. */
  lemma UniqueLookups(users: seq<User>, ip: string, name: string)
    requires Unique(users)
    ensures SingleRow(UsersWithIp(users, ip)).Some? <==> exists u :: u in users && u.ipAddress == ip
    ensures SingleRow(UsersNamed(users, name)).Some? <==> exists u :: u in users && u.username == name
  {
    var byIp := (u: User) => SameIp(ip, u);
    var byName := (u: User) => SameName(name, u);
    SingleIffExists(users, byIp);
    SingleIffExists(users, byName);
  }

  /** An IP address that already has an account is refused, whatever the
      username, and the tables stay as they were. */
  lemma DuplicateIpRefused(db: Tables, f: Form, w: World, encode: string -> string)
    requires Unique(db.users) && CheckForm(f).None? && w.ip.Some?
    requires exists u :: u in db.users && u.ipAddress == w.ip.value
    ensures Register(db, f, w, encode).outcome == Rejected(IpAlreadyRegistered)
    ensures Register(db, f, w, encode).tables == db
  {
    UniqueLookups(db.users, w.ip.value, f.username);
  }

  /** A taken username is refused once the IP check has passed, and the
      tables stay as they were. */
  lemma DuplicateUsernameRefused(db: Tables, f: Form, w: World, encode: string -> string)
    requires Unique(db.users) && CheckForm(f).None? && w.ip.Some?
    requires forall u :: u in db.users ==> u.ipAddress != w.ip.value
    requires exists u :: u in db.users && u.username == f.username
    ensures Register(db, f, w, encode).outcome == Rejected(UsernameTaken)
    ensures Register(db, f, w, encode).tables == db
  {
    UniqueLookups(db.users, w.ip.value, f.username);
  }

  /** Every refusal leaves the tables unchanged; every success appends exactly
      one user row — the form's username, the caller's IP, the resolved
      inviter, the encoded password, tier 0 and no invites — and adds the new
      user's invite link unless the procedure failed. */
  lemma ExitsAreClean(db: Tables, f: Form, w: World, encode: string -> string)
    ensures var a := Register(db, f, w, encode);
            a.outcome.Rejected? ==> a.tables == db
    ensures var a := Register(db, f, w, encode);
            a.outcome.Registered? ==>
              && CheckForm(f).None? && w.ip.Some? && Latin1(f.password) && w.insertError.None?
              && SingleRow(UsersWithIp(db.users, w.ip.value)).None?
              && SingleRow(UsersNamed(db.users, f.username)).None?
              && a.tables.nextId == db.nextId + (if w.rpcFails then 1 else 2)
              && a.outcome.user == User(db.nextId, f.username, encode(f.password), w.ip.value,
                                        Inviter(db.inviteLinks, f.inviteCode), 0, 0)
              && a.tables.users == db.users + [a.outcome.user]
              && a.tables.inviteLinks ==
                   db.inviteLinks + (if w.rpcFails then []
                                     else [InviteLink(db.nextId + 1, db.nextId, w.mintedCode)])
  {
    var a := Register(db, f, w, encode);
    if CheckForm(f).None? {
      var s := Submit(db, f, w, encode);
      assert a.outcome == s.outcome && a.tables == s.tables;
      if w.ip.Some? && SingleRow(UsersWithIp(db.users, w.ip.value)).None?
         && SingleRow(UsersNamed(db.users, f.username)).None? {
        CreateAccountExits(db, f, w.ip.value, w, encode);
      }
    }
  }

  /** After both uniqueness checks: a `btoa` throw or an insert failure leaves
      the tables unchanged; a success appends exactly one user row with the
      caller's IP and the resolved inviter, and the new user's invite link
      unless the procedure failed. */
  lemma CreateAccountExits(db: Tables, f: Form, ip: string, w: World, encode: string -> string)
    ensures var c := CreateAccount(db, f, ip, w, encode);
            c.outcome.Rejected? ==> c.tables == db
    ensures var c := CreateAccount(db, f, ip, w, encode);
            c.outcome.Registered? ==>
              && Latin1(f.password) && w.insertError.None?
              && c.tables.nextId == db.nextId + (if w.rpcFails then 1 else 2)
              && c.outcome.user == User(db.nextId, f.username, encode(f.password), ip,
                                        Inviter(db.inviteLinks, f.inviteCode), 0, 0)
              && c.tables.users == db.users + [c.outcome.user]
              && c.tables.inviteLinks ==
                   db.inviteLinks + (if w.rpcFails then []
                                     else [InviteLink(db.nextId + 1, db.nextId, w.mintedCode)])
  {
    var c := CreateAccount(db, f, ip, w, encode);
    if c.outcome.Registered? && w.rpcFails {
      assert db.inviteLinks + [] == db.inviteLinks;
    }
  }

  /** Whatever the links, an inviter is only ever found for a non-empty code,
      and it owns a stored link carrying that code. */
  lemma InviterOwnsLink(links: seq<InviteLink>, code: string)
    ensures Inviter(links, code).Some? ==>
              code != "" && exists l :: l in links && l.inviteCode == code && l.userId == Inviter(links, code).value
  {
    if Inviter(links, code).Some? {
      assert LinksWithCode(links, code)[0] in LinksWithCode(links, code);
    }
  }

  /** The inviter is the owner of the link carrying the code when exactly one
      link carries it; an empty code or an unknown code is not an error and
      gives no inviter. */
  lemma InviterResolution(links: seq<InviteLink>, code: string)
    requires forall i, j :: 0 <= i < j < |links| ==> links[i].inviteCode != links[j].inviteCode
    ensures code == "" ==> Inviter(links, code) == None
    ensures code != "" && (forall l :: l in links ==> l.inviteCode != code) ==> Inviter(links, code) == None
    ensures forall l :: l in links && l.inviteCode == code && code != "" ==> Inviter(links, code) == Some(l.userId)
  {
    var p := (l: InviteLink) => HasCode(code, l);
    assert AtMostOne(links, p);
    SingleIffExists(links, p);
    forall l | l in links && l.inviteCode == code && code != ""
      ensures Inviter(links, code) == Some(l.userId)
    {
      var found := SingleRow(LinksWithCode(links, code)).value;
      assert found in links && found.inviteCode == code;
      var i :| 0 <= i < |links| && links[i] == found;
      var j :| 0 <= j < |links| && links[j] == l;
      assert i == j;
    }
  }

  /** Appending a user whose IP address and username are both new keeps the
      table free of duplicates. */
  lemma {:induction false} AppendKeepsUnique(users: seq<User>, u: User)
    requires Unique(users)
    requires forall v :: v in users ==> v.ipAddress != u.ipAddress && v.username != u.username
    ensures Unique(users + [u])
  {
    var all := users + [u];
    forall i, j | 0 <= i < j < |all|
      ensures all[i].ipAddress != all[j].ipAddress && all[i].username != all[j].username
    {
      if j == |users| {
        assert all[i] in users;
      } else {
        assert all[i] == users[i] && all[j] == users[j];
      }
    }
  }

  /** A submission keeps one account per IP address, unique usernames and
      unique ids. */
  lemma RegisterKeepsInvariants(db: Tables, f: Form, w: World, encode: string -> string)
    requires Unique(db.users) && IdsIssued(db)
    ensures Unique(Register(db, f, w, encode).tables.users)
    ensures IdsIssued(Register(db, f, w, encode).tables)
  {
    var a := Register(db, f, w, encode);
    ExitsAreClean(db, f, w, encode);
    if a.outcome.Registered? {
      var u := a.outcome.user;
      UniqueLookups(db.users, w.ip.value, f.username);
      AppendKeepsUnique(db.users, u);
      var t := a.tables;
      assert forall i :: 0 <= i < |t.users| ==> t.users[i].id < t.nextId by {
        forall i | 0 <= i < |t.users| ensures t.users[i].id < t.nextId {
          if i < |db.users| { assert t.users[i] == db.users[i]; }
        }
      }
      assert forall i :: 0 <= i < |t.inviteLinks| ==>
               t.inviteLinks[i].id < t.nextId && t.inviteLinks[i].userId < t.nextId by {
        forall i | 0 <= i < |t.inviteLinks|
          ensures t.inviteLinks[i].id < t.nextId && t.inviteLinks[i].userId < t.nextId
        {
          if i < |db.inviteLinks| { assert t.inviteLinks[i] == db.inviteLinks[i]; }
        }
      }
    }
  }

  /** A valid form from a new IP address with a new username registers a user
      at tier 0 with no invites; when the procedure succeeds, that user owns
      exactly one invite link. */
  lemma FreshSubmissionRegisters(db: Tables, f: Form, w: World, encode: string -> string)
    requires Unique(db.users) && IdsIssued(db)
    requires CheckForm(f).None? && w.ip.Some? && Latin1(f.password) && w.insertError.None?
    requires forall u :: u in db.users ==> u.ipAddress != w.ip.value && u.username != f.username
    ensures var a := Register(db, f, w, encode);
            && a.outcome.Registered?
            && a.outcome.user.username == f.username && a.outcome.user.ipAddress == w.ip.value
            && a.outcome.user.currentTier == 0 && a.outcome.user.totalInvites == 0
            && (!w.rpcFails ==> |LinksOf(a.tables.inviteLinks, a.outcome.user.id)| == 1)
  {
    var a := Register(db, f, w, encode);
    assert a.outcome.Registered? by {
      UniqueLookups(db.users, w.ip.value, f.username);
      var s := Submit(db, f, w, encode);
      assert a.outcome == s.outcome;
      var c := CreateAccount(db, f, w.ip.value, w, encode);
      assert s.outcome == c.outcome;
    }
    ExitsAreClean(db, f, w, encode);
    if !w.rpcFails {
      var link := InviteLink(db.nextId + 1, db.nextId, w.mintedCode);
      assert a.tables.inviteLinks == db.inviteLinks + [link];
      FirstLinkOfNewUser(db.inviteLinks, link);
    }
  }

  /** A link for a user id no existing link refers to is that user's only link. */
  lemma FirstLinkOfNewUser(links: seq<InviteLink>, link: InviteLink)
    requires forall i :: 0 <= i < |links| ==> links[i].userId < link.userId
    ensures |LinksOf(links + [link], link.userId)| == 1
  {
    var p := (l: InviteLink) => OwnedBy(link.userId, l);
    assert forall l :: l in links ==> !p(l) by {
      forall l | l in links ensures !p(l) {
        var i :| 0 <= i < |links| && links[i] == l;
      }
    }
    FilterNone(links, p);
    FilterAppendOne(links, link, p);
  }

  /** Filtering past one appended row. */
  lemma {:induction false} FilterAppendOne<T(!new)>(rows: seq<T>, x: T, p: T -> bool)
    ensures Filter(rows + [x], p) == Filter(rows, p) + (if p(x) then [x] else [])
  {
    if rows == [] {
      assert rows + [x] == [x];
      assert [x][1..] == [];
    } else {
      assert (rows + [x])[0] == rows[0];
      assert (rows + [x])[1..] == rows[1..] + [x];
      FilterAppendOne(rows[1..], x, p);
    }
  }

  /** Sequential submissions: after one registration succeeds, every later
      valid submission from the same IP address is refused. */
  lemma SecondAccountFromSameIpRefused(db: Tables, f1: Form, w1: World, f2: Form, w2: World,
                                       encode: string -> string)
    requires Unique(db.users) && IdsIssued(db)
    requires Register(db, f1, w1, encode).outcome.Registered?
    requires CheckForm(f2).None? && w2.ip == w1.ip
    ensures Register(Register(db, f1, w1, encode).tables, f2, w2, encode).outcome == Rejected(IpAlreadyRegistered)
  {
    var a := Register(db, f1, w1, encode);
    RegisterKeepsInvariants(db, f1, w1, encode);
    ExitsAreClean(db, f1, w1, encode);
    assert a.outcome.user in a.tables.users;
    DuplicateIpRefused(a.tables, f2, w2, encode);
  }

  /** The referral path: when a new user's invite link carries a fresh code,
      the next successful registration that submits that code records the new
      user as its inviter. */
  lemma ReferralRecordsInviter(db: Tables, f1: Form, w1: World, f2: Form, w2: World,
                               encode: string -> string)
    requires Register(db, f1, w1, encode).outcome.Registered? && !w1.rpcFails
    requires w1.mintedCode != "" && forall l :: l in db.inviteLinks ==> l.inviteCode != w1.mintedCode
    requires f2.inviteCode == w1.mintedCode
    requires Register(Register(db, f1, w1, encode).tables, f2, w2, encode).outcome.Registered?
    ensures Register(Register(db, f1, w1, encode).tables, f2, w2, encode).outcome.user.invitedBy
            == Some(Register(db, f1, w1, encode).outcome.user.id)
  {
    var a := Register(db, f1, w1, encode);
    ExitsAreClean(db, f1, w1, encode);
    var link := InviteLink(db.nextId + 1, db.nextId, w1.mintedCode);
    assert a.tables.inviteLinks == db.inviteLinks + [link];
    var p := (l: InviteLink) => HasCode(w1.mintedCode, l);
    FilterNone(db.inviteLinks, p);
    FilterAppendOne(db.inviteLinks, link, p);
    assert LinksWithCode(a.tables.inviteLinks, w1.mintedCode) == [link];
    ExitsAreClean(a.tables, f2, w2, encode);
  }

  /** The IP check relies on `.single()`, which finds nothing when two rows
      match: once two accounts already share an address, a further valid
      submission from it is not refused. */
  lemma DuplicatesSlipPastSingle(db: Tables, f: Form, w: World, encode: string -> string)
    requires CheckForm(f).None? && w.ip.Some? && Latin1(f.password) && w.insertError.None?
    requires |UsersWithIp(db.users, w.ip.value)| >= 2
    requires forall u :: u in db.users ==> u.username != f.username
    ensures Register(db, f, w, encode).outcome.Registered?
  {
    FilterNone(db.users, (u: User) => SameName(f.username, u));
    assert SingleRow(UsersNamed(db.users, f.username)).None?;
    var s := Submit(db, f, w, encode);
    var c := CreateAccount(db, f, w.ip.value, w, encode);
    assert s.outcome == c.outcome;
  }

  /** Regrouping the steps of a bracketed request. */
  lemma Bracketed<T>(e: seq<T>, first: T, a: seq<T>, last: T)
    ensures e + [first] + a + [last] == e + ([first] + a + [last])
  {
  }

  // ---------------------------------------------------------------------
  // the component

  /** The form component's state.  `effects` records the steps taken so far. */
  class AuthForm {
    var username: string
    var password: string
    var mathAnswer: string
    var isLoading: bool
    var question: MathQuestion
    const inviteCode: string
    ghost var effects: seq<Effect>

    /** Mounting the form draws the puzzle from two values of `Math.random()`. */
    constructor (inviteCode: string, r1: real, r2: real)
      requires 0.0 <= r1 < 1.0 && 0.0 <= r2 < 1.0
      ensures this.inviteCode == inviteCode && question == NewQuestion(r1, r2)
      ensures username == "" && password == "" && mathAnswer == "" && !isLoading
      ensures effects == []
    {
      this.inviteCode := inviteCode;
      question := NewQuestion(r1, r2);
      username, password, mathAnswer := "", "", "";
      isLoading := false;
      effects := [];
    }

    function Snapshot(): Form
      reads this`mathAnswer, this`question, this`username, this`password
    {
      Form(mathAnswer, question, username, password, inviteCode)
    }

    method SetUsername(s: string)
      modifies this
      ensures Snapshot() == old(Snapshot()).(username := s)
      ensures isLoading == old(isLoading) && effects == old(effects)
    {
      username := s;
    }

    method SetPassword(s: string)
      modifies this
      ensures Snapshot() == old(Snapshot()).(password := s)
      ensures isLoading == old(isLoading) && effects == old(effects)
    {
      password := s;
    }

    method SetMathAnswer(s: string)
      modifies this
      ensures Snapshot() == old(Snapshot()).(mathAnswer := s)
      ensures isLoading == old(isLoading) && effects == old(effects)
    {
      mathAnswer := s;
    }

    /** `handleRegister`.  On success the page's `onAuthSuccess` callback
        receives the new row. */
    method HandleRegister(store: Store, page: Index.IndexPage, w: World, encode: string -> string)
      returns (outcome: Outcome)
      requires store.Valid()
      modifies this, store, page
      ensures store.Valid()
      ensures var a := Register(old(store.Snapshot()), old(Snapshot()), w, encode);
              outcome == a.outcome && store.Snapshot() == a.tables && effects == old(effects) + a.effects
      ensures Snapshot() == old(Snapshot())
      ensures isLoading == if CheckForm(Snapshot()).Some? then old(isLoading) else false
      ensures outcome.Registered? ==> page.user == Some(outcome.user)
      ensures !outcome.Registered? ==> page.user == old(page.user)
      ensures page.tierRequirements == old(page.tierRequirements) && page.currentView == old(page.currentView)
      ensures page.inviteCode == old(page.inviteCode) && page.isLoading == old(page.isLoading)
    {
      ghost var db := store.Snapshot();
      ghost var f := Snapshot();
      var error := CheckLocal();
      if error.Some? {
        LocalFailureTouchesNothing(db, f, w, encode);
        return Rejected(error.value);
      }
      outcome := SendRegistration(store, page, w, encode);
    }

    /** The part of `handleRegister` after the local checks: loading is on
        while the `try` block runs. */
    method SendRegistration(store: Store, page: Index.IndexPage, w: World, encode: string -> string)
      returns (outcome: Outcome)
      requires store.Valid()
      modifies this`isLoading, this`effects, store, page
      ensures store.Valid()
      ensures var a := Submit(old(store.Snapshot()), Snapshot(), w, encode);
              outcome == a.outcome && store.Snapshot() == a.tables &&
              effects == old(effects) + ([LoadingOn] + a.effects + [LoadingOff])
      ensures !isLoading
      ensures outcome.Registered? ==> page.user == Some(outcome.user)
      ensures !outcome.Registered? ==> page.user == old(page.user)
      ensures page.tierRequirements == old(page.tierRequirements) && page.currentView == old(page.currentView)
      ensures page.inviteCode == old(page.inviteCode) && page.isLoading == old(page.isLoading)
    {
      ghost var effects0 := effects;
      ghost var spec := Submit(store.Snapshot(), Snapshot(), w, encode);
      isLoading := true;
      effects := effects + [LoadingOn];
      outcome := TryRegister(store, page, w, encode);
      // every exit of the `try` block, and the end of the handler, switch loading off
      isLoading := false;
      effects := effects + [LoadingOff];
      Bracketed(effects0, LoadingOn, spec.effects, LoadingOff);
    }

    /** The checks `handleRegister` makes before any request, in its order. */
    method CheckLocal() returns (error: Option<RegisterError>)
      ensures error == CheckForm(Snapshot())
    {
      if ParseInt(mathAnswer) != Some(question.answer) {
        return Some(WrongAnswer);
      }
      if Utf16Length(username) < 3 {
        return Some(UsernameTooShort);
      }
      if Utf16Length(password) < 6 {
        return Some(PasswordTooShort);
      }
      return None;
    }

    /** The `try` block: the IP lookup, both uniqueness checks and, when they
        pass, the account creation.  A failed IP lookup lands in the `catch`. */
    method TryRegister(store: Store, page: Index.IndexPage, w: World, encode: string -> string)
      returns (outcome: Outcome)
      requires store.Valid()
      modifies this`effects, store, page
      ensures store.Valid()
      ensures var a := Submit(old(store.Snapshot()), Snapshot(), w, encode);
              outcome == a.outcome && store.Snapshot() == a.tables && effects == old(effects) + a.effects
      ensures outcome.Registered? ==> page.user == Some(outcome.user)
      ensures !outcome.Registered? ==> page.user == old(page.user)
      ensures page.tierRequirements == old(page.tierRequirements) && page.currentView == old(page.currentView)
      ensures page.inviteCode == old(page.inviteCode) && page.isLoading == old(page.isLoading)
    {
      ghost var db := store.Snapshot();
      ghost var f := Snapshot();
      ghost var effects0 := effects;

      effects := effects + [FetchIp];
      if w.ip.None? {
        return Rejected(Unexpected);
      }
      var ip := w.ip.value;

      effects := effects + [SelectUserByIp];
      var existingUser := SingleRow(UsersWithIp(store.users, ip));
      if existingUser.Some? {
        return Rejected(IpAlreadyRegistered);
      }

      effects := effects + [SelectUserByName];
      var usernameCheck := SingleRow(UsersNamed(store.users, username));
      if usernameCheck.Some? {
        return Rejected(UsernameTaken);
      }

      ghost var checks := [FetchIp, SelectUserByIp, SelectUserByName];
      assert effects == effects0 + checks;
      outcome := CreateAccountIn(store, page, ip, w, encode);
      ghost var rest := CreateAccount(db, f, ip, w, encode);
      assert effects == effects0 + (checks + rest.effects);
    }

    /** The rest of the `try` block once both uniqueness checks have passed:
        resolve the inviter, encode the password, insert the row and request
        the invite link. */
    method CreateAccountIn(store: Store, page: Index.IndexPage, ip: string, w: World, encode: string -> string)
      returns (outcome: Outcome)
      requires store.Valid()
      modifies this`effects, store, page
      ensures store.Valid()
      ensures var a := CreateAccount(old(store.Snapshot()), Snapshot(), ip, w, encode);
              outcome == a.outcome && store.Snapshot() == a.tables && effects == old(effects) + a.effects
      ensures outcome.Registered? ==> page.user == Some(outcome.user)
      ensures !outcome.Registered? ==> page.user == old(page.user)
      ensures page.tierRequirements == old(page.tierRequirements) && page.currentView == old(page.currentView)
      ensures page.inviteCode == old(page.inviteCode) && page.isLoading == old(page.isLoading)
    {
      ghost var db := store.Snapshot();
      ghost var f := Snapshot();
      ghost var lookups := if f.inviteCode != "" then [SelectInviteLink] else [];
      ghost var effects0 := effects;

      var inviterId: Option<nat> := None;
      if inviteCode != "" {
        effects := effects + [SelectInviteLink];
        var inviteLink := SingleRow(LinksWithCode(store.inviteLinks, inviteCode));
        if inviteLink.Some? {
          inviterId := Some(inviteLink.value.userId);
        }
      }
      assert inviterId == Inviter(db.inviteLinks, f.inviteCode);
      assert effects == effects0 + lookups;

      if !Latin1(password) {
        outcome := Rejected(Unexpected);
      } else {
        var passwordHash := encode(password);
        effects := effects + [InsertUserRow];
        if w.insertError.Some? {
          outcome := Rejected(InsertRejected(w.insertError.value));
          assert effects == effects0 + (lookups + [InsertUserRow]);
        } else {
          var newUser := store.InsertUser(username, passwordHash, ip, inviterId);
          assert newUser == NewAccount(db, f, ip, encode);
          effects := effects + [RequestInviteLink(newUser.id)];
          if !w.rpcFails {
            store.CreateUserInviteLink(newUser.id, w.mintedCode);
          }
          page.HandleAuthSuccess(newUser);
          outcome := Registered(newUser);
          assert effects == effects0 + (lookups + [InsertUserRow, RequestInviteLink(newUser.id)]);
        }
      }
    }
  }
}
