/**
 * The account and session logic of `AstroWellnessHub`: startup restore, login, signup,
 * profile update and logout as functions from one application state to the next.
 *
 * The browser keeps `currentUser` as a reference to one of the objects in `authData.users`,
 * and the profile update edits that object in place. The state therefore holds a small heap
 * of user objects, the user list as references into it, and the current user as a reference.
 * `StoredUsers` is the list as `JSON.stringify` would persist it.
 */
module Auth {
  import opened Optional
  import opened Seqs
  import opened Text
  import Router
  import SignupForm
  import EmailFormat
  import PasswordRules

  datatype User = User(
    id: int,
    firstName: string,
    lastName: string,
    email: string,
    phone: string,
    organization: string,
    userType: string,
    experience: string,
    specialization: string,
    password: string,
    joinDate: string,
    newsletter: bool)

  datatype Session = Session(userId: int, loginTime: string, rememberMe: bool)

  /** Index of a user object in the heap. */
  type Ref = nat

  datatype AppState = AppState(
    heap: seq<User>,
    users: seq<Ref>,
    current: Option<Ref>,
    session: Option<Session>,
    page: string)

  /** Every reference points at an allocated user object. */
  predicate WellFormed(st: AppState) {
    && (forall i | 0 <= i < |st.users| :: st.users[i] < |st.heap|)
    && (st.current.Some? ==> st.current.value < |st.heap|)
  }

  /** The user list with each reference replaced by the object it points at. */
  function StoredUsers(st: AppState): (r: seq<User>)
    requires WellFormed(st)
    ensures |r| == |st.users|
    ensures forall i | 0 <= i < |r| :: r[i] == st.heap[st.users[i]]
  {
    seq(|st.users|, i requires 0 <= i < |st.users| => st.heap[st.users[i]])
  }

  function CurrentUser(st: AppState): Option<User>
    requires WellFormed(st)
  {
    match st.current
    case None => None
    case Some(c) => Some(st.heap[c])
  }

  /**
   * What every handler keeps true: a current user exactly when a session exists, the current
   * user is one of the stored users, and the session names its id.
   */
  predicate Consistent(st: AppState) {
    && WellFormed(st)
    && (st.current.Some? <==> st.session.Some?)
    && (st.current.Some? ==> st.current.value in st.users && st.session.value.userId == st.heap[st.current.value].id)
  }

  /** `showPage(pageId)` applied to the state. */
  function Navigate(st: AppState, pageId: string, known: set<string>): (r: AppState)
    ensures r == st.(page := r.page)
    ensures r.page == Router.ShowPage(st.page, st.current.Some?, pageId, known)
  {
    st.(page := Router.ShowPage(st.page, st.current.Some?, pageId, known))
  }

  /** A handler's new state together with what it reported. */
  datatype Handled<O> = Handled(state: AppState, outcome: O)

  // ----- Login -----

  datatype LoginOutcome = LoggedIn | MissingFields | NoAccount | WrongPassword

  /** Slot k holds the first stored user whose email is exactly `email`. */
  predicate FirstWithEmail(st: AppState, email: string, k: int)
    requires WellFormed(st)
  {
    && 0 <= k < |st.users|
    && StoredUsers(st)[k].email == email
    && forall j | 0 <= j < k :: StoredUsers(st)[j].email != email
  }

  /** No stored user has exactly this email. */
  predicate NoneWithEmail(st: AppState, email: string)
    requires WellFormed(st)
  {
    forall i | 0 <= i < |st.users| :: StoredUsers(st)[i].email != email
  }

  /** `find`/`findIndex` with `u.id === id`: the first slot whose user has this id. */
  function FirstWithId(users: seq<User>, id: int): (r: Option<nat>)
    ensures r.Some? ==> r.value < |users| && users[r.value].id == id
    ensures r.Some? ==> forall j | 0 <= j < r.value :: users[j].id != id
    ensures r.None? <==> forall j | 0 <= j < |users| :: users[j].id != id
  {
    FindFirst(users, (u: User) => u.id == id)
  }

  function FindEmail(st: AppState, email: string): (r: Option<nat>)
    requires WellFormed(st)
    ensures r.Some? ==> FirstWithEmail(st, email, r.value)
    ensures r.None? <==> NoneWithEmail(st, email)
  {
    FindFirst(StoredUsers(st), (u: User) => u.email == email)
  }

  /**
   * `handleLogin` with the delayed callbacks run at once: the email field is trimmed, the
   * password is not; the first stored user with that exact email must have that exact
   * password; success signs that user in and shows the dashboard.
   */
  function Login(st: AppState, emailField: string, password: string, rememberMe: bool, loginTime: string, known: set<string>)
    : (r: Handled<LoginOutcome>)
    requires WellFormed(st)
    ensures r.outcome != LoggedIn ==> r.state == st
    ensures r.outcome == MissingFields <==> Trim(emailField) == [] || password == []
    ensures r.outcome == NoAccount <==>
      Trim(emailField) != [] && password != [] && NoneWithEmail(st, Trim(emailField))
    ensures r.outcome == WrongPassword <==>
      && Trim(emailField) != [] && password != []
      && exists k :: FirstWithEmail(st, Trim(emailField), k) && StoredUsers(st)[k].password != password
    ensures r.outcome == LoggedIn ==>
      && r.state.heap == st.heap && r.state.users == st.users
      && r.state.page == Router.ShowPage(st.page, true, "dashboard", known)
      && exists k :: FirstWithEmail(st, Trim(emailField), k)
           && StoredUsers(st)[k].password == password
           && r.state.current == Some(st.users[k])
           && r.state.session == Some(Session(StoredUsers(st)[k].id, loginTime, rememberMe))
  {
    var email := Trim(emailField);
    if email == [] || password == [] then
      Handled(st, MissingFields)
    else
      match FindEmail(st, email)
      case None => Handled(st, NoAccount)
      case Some(k) =>
        var user := StoredUsers(st)[k];
        if user.password != password then
          Handled(st, WrongPassword)
        else
          var signedIn := st.(current := Some(st.users[k]), session := Some(Session(user.id, loginTime, rememberMe)));
          Handled(Navigate(signedIn, "dashboard", known), LoggedIn)
  }

  // ----- Signup -----

  datatype SignupOutcome = SignedUp | Invalid(errors: map<SignupForm.Field, string>) | EmailTaken

  /** `formData[key]`, with the empty string for an absent entry. */
  function Entry(data: SignupForm.FormData, key: string): string {
    SignupForm.Lookup(data, key).GetOr("")
  }

  /** The account object `handleSignup` builds from a validated form. */
  function NewUser(data: SignupForm.FormData, id: int, joinDate: string): User {
    User(
      id := id,
      firstName := Entry(data, SignupForm.Name(SignupForm.FirstName)),
      lastName := Entry(data, SignupForm.Name(SignupForm.LastName)),
      email := EmailOf(data),
      phone := Entry(data, SignupForm.Name(SignupForm.Phone)),
      organization := Entry(data, SignupForm.Name(SignupForm.Organization)),
      userType := Entry(data, SignupForm.Name(SignupForm.UserType)),
      experience := Entry(data, SignupForm.Name(SignupForm.Experience)),
      specialization := Entry(data, "specialization"),
      password := Entry(data, SignupForm.Name(SignupForm.Password)),
      joinDate := joinDate,
      newsletter := SignupForm.Lookup(data, "newsletter") == Some("on"))
  }

  /** `formData.email`, or the empty string when the form has no such entry. */
  function EmailOf(data: SignupForm.FormData): string {
    Entry(data, SignupForm.Name(SignupForm.Email))
  }

  /** Appends a new user object to the heap and the list and signs it in, page unchanged. */
  function Register(st: AppState, user: User, session: Session): (r: AppState)
    requires WellFormed(st)
    ensures WellFormed(r)
    ensures StoredUsers(r) == StoredUsers(st) + [user]
    ensures CurrentUser(r) == Some(user)
    ensures r.session == Some(session) && r.page == st.page
    ensures |r.heap| == |st.heap| + 1 && r.heap[..|st.heap|] == st.heap
    ensures r.heap == st.heap + [user] && r.users == st.users + [|st.heap|] && r.current == Some(|st.heap|)
  {
    var ref := |st.heap|;
    var r := AppState(st.heap + [user], st.users + [ref], Some(ref), Some(session), st.page);
    assert StoredUsers(r) == StoredUsers(st) + [user];
    r
  }

  /**
   * `handleSignup` with the delayed callbacks run at once: an invalid form or an email some
   * stored user already has changes nothing; otherwise the new account is appended, signed
   * in with `rememberMe` false, and the dashboard is shown.
   */
  function Signup(st: AppState, data: SignupForm.FormData, id: int, joinDate: string, loginTime: string, known: set<string>)
    : (r: Handled<SignupOutcome>)
    requires WellFormed(st)
    ensures WellFormed(r.state)
    ensures r.outcome.Invalid? <==> !SignupForm.Acceptable(data)
    ensures r.outcome.Invalid? ==> r.outcome.errors == SignupForm.ValidateSignupForm(data).errors && r.outcome.errors != map[]
    ensures r.outcome == EmailTaken <==>
      SignupForm.Acceptable(data) && !NoneWithEmail(st, EmailOf(data))
    ensures !r.outcome.SignedUp? ==> r.state == st
    ensures r.outcome.SignedUp? ==>
      && SignupForm.Acceptable(data)
      && NoneWithEmail(st, EmailOf(data))
      && StoredUsers(r.state) == StoredUsers(st) + [NewUser(data, id, joinDate)]
      && CurrentUser(r.state) == Some(NewUser(data, id, joinDate))
      && r.state.heap == st.heap + [NewUser(data, id, joinDate)]
      && r.state.users == st.users + [|st.heap|]
      && r.state.current == Some(|st.heap|)
      && r.state.session == Some(Session(id, loginTime, false))
      && r.state.page == Router.ShowPage(st.page, true, "dashboard", known)
  {
    var v := SignupForm.ValidateSignupForm(data);
    if !v.isValid then
      Handled(st, Invalid(v.errors))
    else
      match FindEmail(st, EmailOf(data))
      case Some(_) => Handled(st, EmailTaken)
      case None =>
        var created := Register(st, NewUser(data, id, joinDate), Session(id, loginTime, false));
        Handled(Navigate(created, "dashboard", known), SignedUp)
  }

  // ----- Profile update -----

  /** The current user's object after the edit form's values are copied into it. */
  function Edited(u: User, firstNameField: string, lastNameField: string, phoneField: string, specialization: string): User {
    u.(firstName := Trim(firstNameField), lastName := Trim(lastNameField), phone := Trim(phoneField), specialization := specialization)
  }

  /**
   * `handleProfileUpdate`: nothing happens without a current user. Otherwise the current
   * user's object is edited in place (names and phone trimmed, specialization as typed), and
   * that object is then written into the first slot of the list whose user has the same id.
   */
  function UpdateProfile(st: AppState, firstNameField: string, lastNameField: string, phoneField: string, specialization: string)
    : (r: AppState)
    requires WellFormed(st)
    ensures WellFormed(r)
    ensures st.current.None? ==> r == st
    ensures r.current == st.current && r.session == st.session && r.page == st.page
    ensures |r.heap| == |st.heap| && |r.users| == |st.users|
    ensures forall i | 0 <= i < |st.heap| && Some(i) != st.current :: r.heap[i] == st.heap[i]
    ensures st.current.Some? ==>
      r.heap[st.current.value] == Edited(st.heap[st.current.value], firstNameField, lastNameField, phoneField, specialization)
    ensures st.current.Some? ==>
      forall i | 0 <= i < |st.users| && StoredUsers(st)[i].id != st.heap[st.current.value].id ::
        StoredUsers(r)[i] == StoredUsers(st)[i]
  {
    match st.current
    case None => st
    case Some(c) =>
      var edited := Edited(st.heap[c], firstNameField, lastNameField, phoneField, specialization);
      var mid := st.(heap := st.heap[c := edited]);
      match FirstWithId(StoredUsers(mid), edited.id)
      case None => mid
      case Some(j) => mid.(users := st.users[j := c])
  }

  /**
   * The whole stored list after a profile update, whatever the ids: a slot shows the edited
   * object when it refers to the current user's object (edited in place) or when it is the
   * first slot whose user has the current user's id (where that object is written); every
   * other slot is unchanged.
   */
  lemma UpdateProfileWrites(st: AppState, firstNameField: string, lastNameField: string, phoneField: string, specialization: string)
    requires WellFormed(st)
    ensures st.current.Some? ==>
      var c := st.current.value;
      var first := FirstWithId(StoredUsers(st), st.heap[c].id);
      && UpdateProfile(st, firstNameField, lastNameField, phoneField, specialization).heap
           == st.heap[c := Edited(st.heap[c], firstNameField, lastNameField, phoneField, specialization)]
      && UpdateProfile(st, firstNameField, lastNameField, phoneField, specialization).users
           == (if first.Some? then st.users[first.value := c] else st.users)
      && forall i | 0 <= i < |st.users| ::
        StoredUsers(UpdateProfile(st, firstNameField, lastNameField, phoneField, specialization))[i] ==
          if st.users[i] == c || first == Some(i) then Edited(st.heap[c], firstNameField, lastNameField, phoneField, specialization)
          else StoredUsers(st)[i]
  {
    if st.current.Some? {
      var c := st.current.value;
      var edited := Edited(st.heap[c], firstNameField, lastNameField, phoneField, specialization);
      var mid := st.(heap := st.heap[c := edited]);
      var first := FirstWithId(StoredUsers(st), st.heap[c].id);
      FirstIdAgrees(StoredUsers(mid), StoredUsers(st), edited.id);
      var users := if first.Some? then st.users[first.value := c] else st.users;
      assert UpdateProfile(st, firstNameField, lastNameField, phoneField, specialization) == mid.(users := users);
      WriteBackView(st, c, edited, first);
    }
  }

  /**
   * The list seen after object `c` becomes `e` and, when `first` names a slot, that slot is
   * pointed at `c`.
   */
  lemma WriteBackView(st: AppState, c: Ref, e: User, first: Option<nat>)
    requires WellFormed(st) && c < |st.heap| && (first.Some? ==> first.value < |st.users|)
    ensures var users := if first.Some? then st.users[first.value := c] else st.users;
      var after := st.(heap := st.heap[c := e], users := users);
      && WellFormed(after)
      && forall i | 0 <= i < |st.users| ::
           StoredUsers(after)[i] == if st.users[i] == c || first == Some(i) then e else StoredUsers(st)[i]
  {
  }

  /** Two lists whose entries carry the same ids agree on the first entry with a given id. */
  lemma FirstIdAgrees(a: seq<User>, b: seq<User>, id: int)
    requires |a| == |b| && forall k | 0 <= k < |a| :: a[k].id == b[k].id
    ensures FirstWithId(a, id) == FirstWithId(b, id)
  {
  }

  // ----- Logout and startup -----

  /** `logout`: no current user, no session, and the home page. */
  function Logout(st: AppState, known: set<string>): (r: AppState)
    ensures r.current.None? && r.session.None?
    ensures r.heap == st.heap && r.users == st.users
    ensures r.page == if Router.Home in known then Router.Home else st.page
  {
    Navigate(st.(current := None, session := None), Router.Home, known)
  }

  /**
   * Construction and `init`: the stored list and session are loaded, a session whose user
   * id is found makes the first user with that id current, a session whose id is not found
   * is cleared by `logout`, and the home page is shown last.
   */
  function Startup(stored: seq<User>, storedSession: Option<Session>, known: set<string>): (r: AppState)
    ensures Consistent(r)
    ensures StoredUsers(r) == stored
    ensures r.heap == stored && r.users == Range(|stored|)
    ensures r.page == Router.Home
    ensures storedSession.None? ==> r.current.None? && r.session.None?
    ensures storedSession.Some? ==>
      match FirstWithId(stored, storedSession.value.userId)
      case Some(k) => r.session == storedSession && r.current == Some(k) && CurrentUser(r) == Some(stored[k])
      case None => r.current.None? && r.session.None?
  {
    var base := AppState(stored, Range(|stored|), None, storedSession, Router.Home);
    assert StoredUsers(base) == stored;
    var restored :=
      match storedSession
      case None => base
      case Some(s) =>
        match FirstWithId(stored, s.userId)
        case Some(k) =>
          assert base.users[k] == k;
          base.(current := Some(k))
        case None => Logout(base, known);
    Navigate(restored, Router.Home, known)
  }

  // ----- Properties -----

  /** No two stored users share an id. */
  predicate UniqueIds(users: seq<User>) {
    forall i, j | 0 <= i < j < |users| :: users[i].id != users[j].id
  }

  /** No two stored users share an email: the rule signup's email check maintains. */
  predicate UniqueEmails(users: seq<User>) {
    forall i, j | 0 <= i < j < |users| :: users[i].email != users[j].email
  }

  /** The stored index of the current user. */
  lemma CurrentSlot(st: AppState) returns (i: nat)
    requires Consistent(st) && st.current.Some?
    ensures i < |st.users| && st.users[i] == st.current.value
    ensures StoredUsers(st)[i] == st.heap[st.current.value]
  {
    i :| 0 <= i < |st.users| && st.users[i] == st.current.value;
  }

  lemma LoginKeepsConsistent(st: AppState, emailField: string, password: string, rememberMe: bool, loginTime: string, known: set<string>)
    requires Consistent(st)
    ensures Consistent(Login(st, emailField, password, rememberMe, loginTime, known).state)
  {
    var r := Login(st, emailField, password, rememberMe, loginTime, known);
    if r.outcome == LoggedIn {
      var k :| FirstWithEmail(st, Trim(emailField), k)
           && StoredUsers(st)[k].password == password
           && r.state.current == Some(st.users[k])
           && r.state.session == Some(Session(StoredUsers(st)[k].id, loginTime, rememberMe));
      assert r.state.current.value in r.state.users;
    }
  }

  lemma SignupKeepsConsistent(st: AppState, data: SignupForm.FormData, id: int, joinDate: string, loginTime: string, known: set<string>)
    requires Consistent(st)
    ensures Consistent(Signup(st, data, id, joinDate, loginTime, known).state)
  {
    var r := Signup(st, data, id, joinDate, loginTime, known);
    if r.outcome.SignedUp? {
      var n := |st.users|;
      assert StoredUsers(r.state)[n] == NewUser(data, id, joinDate);
      assert r.state.users[n] == r.state.current.value;
    }
  }

  lemma UpdateProfileKeepsConsistent(st: AppState, firstNameField: string, lastNameField: string, phoneField: string, specialization: string)
    requires Consistent(st)
    ensures Consistent(UpdateProfile(st, firstNameField, lastNameField, phoneField, specialization))
  {
    var r := UpdateProfile(st, firstNameField, lastNameField, phoneField, specialization);
    if st.current.Some? {
      var c := st.current.value;
      var i := CurrentSlot(st);
      assert r.users[i] == c;
    }
  }

  lemma LogoutKeepsConsistent(st: AppState, known: set<string>)
    requires WellFormed(st)
    ensures Consistent(Logout(st, known))
  {
  }

  lemma LogoutIdempotent(st: AppState, known: set<string>)
    ensures Logout(Logout(st, known), known) == Logout(st, known)
  {
  }

  /**
   * With unique ids, a profile update replaces exactly the current user's stored entry by the
   * edited object and leaves the list's other entries and its order alone.
   */
  lemma UpdateProfileEditsOwnEntry(st: AppState, firstNameField: string, lastNameField: string, phoneField: string, specialization: string)
    returns (i: nat)
    requires Consistent(st) && st.current.Some? && UniqueIds(StoredUsers(st))
    ensures i < |st.users| && StoredUsers(st)[i] == st.heap[st.current.value]
    ensures StoredUsers(UpdateProfile(st, firstNameField, lastNameField, phoneField, specialization))
         == StoredUsers(st)[i := Edited(st.heap[st.current.value], firstNameField, lastNameField, phoneField, specialization)]
  {
    var c := st.current.value;
    i := CurrentSlot(st);
    var edited := Edited(st.heap[c], firstNameField, lastNameField, phoneField, specialization);
    var mid := st.(heap := st.heap[c := edited]);
    var view := StoredUsers(mid);
    assert view[i].id == edited.id;
    forall k | 0 <= k < |st.users| && k != i
      ensures st.users[k] != c && view[k] == StoredUsers(st)[k] && view[k].id != edited.id
    {
    }
    var found := FirstWithId(view, edited.id);
    assert found == Some(i);
    var r := UpdateProfile(st, firstNameField, lastNameField, phoneField, specialization);
    assert r == mid.(users := st.users[i := c]);
    assert st.users[i := c] == st.users;
    assert StoredUsers(r) == StoredUsers(st)[i := edited];
  }

  /** Signup keeps stored emails unique: it stores an account only when its email is new. */
  lemma SignupKeepsUniqueEmails(st: AppState, data: SignupForm.FormData, id: int, joinDate: string, loginTime: string, known: set<string>)
    requires WellFormed(st) && UniqueEmails(StoredUsers(st))
    ensures UniqueEmails(StoredUsers(Signup(st, data, id, joinDate, loginTime, known).state))
  {
    var r := Signup(st, data, id, joinDate, loginTime, known);
    if r.outcome.SignedUp? {
      AppendFreshEmail(StoredUsers(st), NewUser(data, id, joinDate));
    }
  }

  /** Appending a user whose email no listed user has keeps emails unique. */
  lemma AppendFreshEmail(users: seq<User>, u: User)
    requires UniqueEmails(users) && forall i | 0 <= i < |users| :: users[i].email != u.email
    ensures UniqueEmails(users + [u])
  {
  }

  /**
   * With unique ids, a profile update keeps stored emails unique: it edits one entry and
   * never its email.
   */
  lemma UpdateProfileKeepsUniqueEmails(st: AppState, firstNameField: string, lastNameField: string, phoneField: string, specialization: string)
    requires Consistent(st) && UniqueIds(StoredUsers(st)) && UniqueEmails(StoredUsers(st))
    ensures UniqueEmails(StoredUsers(UpdateProfile(st, firstNameField, lastNameField, phoneField, specialization)))
  {
    if st.current.Some? {
      var i := UpdateProfileEditsOwnEntry(st, firstNameField, lastNameField, phoneField, specialization);
      var after := StoredUsers(UpdateProfile(st, firstNameField, lastNameField, phoneField, specialization));
      assert forall k | 0 <= k < |after| :: after[k].email == StoredUsers(st)[k].email;
    }
  }

  /**
   * Reloading the page restores what was persisted: startup from the stored list and session
   * of a consistent state with unique ids brings back the same list, session and current user.
   */
  lemma ReloadRestoresSession(st: AppState, known: set<string>)
    requires Consistent(st) && UniqueIds(StoredUsers(st))
    ensures var r := Startup(StoredUsers(st), st.session, known);
      && StoredUsers(r) == StoredUsers(st)
      && r.session == st.session
      && CurrentUser(r) == CurrentUser(st)
  {
    if st.current.Some? {
      var stored := StoredUsers(st);
      var i := CurrentSlot(st);
      var id := st.session.value.userId;
      var found := FirstWithId(stored, id);
      assert stored[i].id == id;
      assert found == Some(i);
    }
  }

  /** An accepted form's email has no white space to trim and its password is not empty. */
  lemma AcceptedCredentials(data: SignupForm.FormData)
    requires SignupForm.Acceptable(data)
    ensures Trim(EmailOf(data)) == EmailOf(data) != []
    ensures Entry(data, SignupForm.Name(SignupForm.Password)) != []
  {
    var email := SignupForm.Name(SignupForm.Email);
    var password := SignupForm.Name(SignupForm.Password);
    assert email in data && EmailFormat.ValidateEmailFormat(data[email]);
    assert password in data && PasswordRules.ValidatePassword(data[password]).isValid;
    EmailFormat.AcceptedHasNoSpace(data[email]);
    TrimNoSpace(data[email]);
    PasswordRules.ValidMeansRules(data[password]);
  }

  /** Login finds an account whose address no earlier account has. */
  lemma LoginFindsLast(st: AppState, email: string, password: string, rememberMe: bool, loginTime: string, known: set<string>)
    requires WellFormed(st) && |st.users| > 0
    requires Trim(email) == email != [] && password != []
    requires StoredUsers(st)[|st.users| - 1].email == email
    requires StoredUsers(st)[|st.users| - 1].password == password
    requires forall i | 0 <= i < |st.users| - 1 :: StoredUsers(st)[i].email != email
    ensures Login(st, email, password, rememberMe, loginTime, known).outcome == LoggedIn
    ensures CurrentUser(Login(st, email, password, rememberMe, loginTime, known).state) == Some(StoredUsers(st)[|st.users| - 1])
  {
    var n := |st.users| - 1;
    var found := FindEmail(st, email);
    assert StoredUsers(st)[n].email == email;
    assert found == Some(n);
    var signedIn := st.(current := Some(st.users[n]), session := Some(Session(StoredUsers(st)[n].id, loginTime, rememberMe)));
    assert Login(st, email, password, rememberMe, loginTime, known) == Handled(Navigate(signedIn, "dashboard", known), LoggedIn);
  }

  /**
   * An account just created can sign in again after a logout: the address it was created
   * with, typed into the login form, and its password find it and sign it in. An accepted
   * form with an address no stored account has is, by `Signup`'s contract, exactly a signup
   * that succeeds; the lemmas below take that as their premise.
   */
  lemma SignedUpUserCanLogIn(st: AppState, data: SignupForm.FormData, id: int, joinDate: string, loginTime: string,
                             rememberMe: bool, logoutKnown: set<string>, known: set<string>)
    requires WellFormed(st)
    requires SignupForm.Acceptable(data) && NoneWithEmail(st, EmailOf(data))
    ensures var out := Logout(Signup(st, data, id, joinDate, loginTime, known).state, logoutKnown);
      var r := Login(out, EmailOf(data), NewUser(data, id, joinDate).password, rememberMe, loginTime, known);
      && r.outcome == LoggedIn
      && CurrentUser(r.state) == Some(NewUser(data, id, joinDate))
  {
    var out := Logout(Signup(st, data, id, joinDate, loginTime, known).state, logoutKnown);
    SignedUpThenOut(st, data, id, joinDate, loginTime, logoutKnown, known);
    AcceptedCredentials(data);
    LoginFindsLast(out, EmailOf(data), NewUser(data, id, joinDate).password, rememberMe, loginTime, known);
  }

  /**
   * After a signup and a logout the new account is the last stored one and no earlier
   * account has its address.
   */
  lemma SignedUpThenOut(st: AppState, data: SignupForm.FormData, id: int, joinDate: string, loginTime: string,
                        logoutKnown: set<string>, known: set<string>)
    requires WellFormed(st)
    requires SignupForm.Acceptable(data) && NoneWithEmail(st, EmailOf(data))
    ensures var out := Logout(Signup(st, data, id, joinDate, loginTime, known).state, logoutKnown);
      && WellFormed(out)
      && |out.users| == |st.users| + 1
      && StoredUsers(out)[|st.users|] == NewUser(data, id, joinDate)
      && (forall i | 0 <= i < |st.users| :: StoredUsers(out)[i].email != EmailOf(data))
  {
    SignedUpStore(st, data, id, joinDate, loginTime, logoutKnown, known);
  }

  lemma SignedUpStore(st: AppState, data: SignupForm.FormData, id: int, joinDate: string, loginTime: string,
                      logoutKnown: set<string>, known: set<string>)
    requires WellFormed(st)
    requires SignupForm.Acceptable(data) && NoneWithEmail(st, EmailOf(data))
    ensures var out := Logout(Signup(st, data, id, joinDate, loginTime, known).state, logoutKnown);
      WellFormed(out) && StoredUsers(out) == StoredUsers(st) + [NewUser(data, id, joinDate)]
  {
    var signed := Signup(st, data, id, joinDate, loginTime, known);
    assert StoredUsers(Logout(signed.state, logoutKnown)) == StoredUsers(signed.state);
  }

  /**
   * Submitting the same form again after a successful signup is refused because the address
   * is now taken, and nothing changes: the account is not stored twice.
   */
  lemma SecondSignupRejected(st: AppState, data: SignupForm.FormData, id: int, id': int, joinDate: string, joinDate': string,
                             loginTime: string, loginTime': string, known: set<string>)
    requires WellFormed(st)
    requires SignupForm.Acceptable(data) && NoneWithEmail(st, EmailOf(data))
    ensures var once := Signup(st, data, id, joinDate, loginTime, known).state;
      var again := Signup(once, data, id', joinDate', loginTime', known);
      && again.outcome == EmailTaken
      && again.state == once
      && |StoredUsers(again.state)| == |StoredUsers(st)| + 1
  {
    var once := Signup(st, data, id, joinDate, loginTime, known).state;
    var n := |st.users|;
    assert StoredUsers(once)[n] == NewUser(data, id, joinDate);
    assert !NoneWithEmail(once, EmailOf(data));
  }

  /**
   * After a signup and a logout, a login with the new account's address and any other
   * password is refused as a wrong password and leaves nobody signed in.
   */
  lemma WrongPasswordAfterSignup(st: AppState, data: SignupForm.FormData, id: int, joinDate: string, loginTime: string,
                                 password: string, rememberMe: bool, logoutKnown: set<string>, known: set<string>)
    requires WellFormed(st)
    requires SignupForm.Acceptable(data) && NoneWithEmail(st, EmailOf(data))
    requires password != [] && password != Entry(data, SignupForm.Name(SignupForm.Password))
    ensures var out := Logout(Signup(st, data, id, joinDate, loginTime, known).state, logoutKnown);
      var r := Login(out, EmailOf(data), password, rememberMe, loginTime, known);
      && r.outcome == WrongPassword
      && r.state == out
      && r.state.current.None? && r.state.session.None?
  {
    var out := Logout(Signup(st, data, id, joinDate, loginTime, known).state, logoutKnown);
    SignedUpThenOut(st, data, id, joinDate, loginTime, logoutKnown, known);
    AcceptedCredentials(data);
    var n := |st.users|;
    assert FirstWithEmail(out, EmailOf(data), n);
  }

  /**
   * Two stored accounts that share an id: editing the second one's profile writes it over the
   * first slot with that id, so the first account disappears from the list and the edited one
   * is listed twice.
   */
  lemma SharedIdOverwritesFirst(a: User, b: User, firstNameField: string, lastNameField: string, phoneField: string,
                                specialization: string, session: Session, page: string)
    requires a.id == b.id == session.userId
    requires a != Edited(b, firstNameField, lastNameField, phoneField, specialization)
    ensures var st := AppState([a, b], [0, 1], Some(1), Some(session), page);
      var e := Edited(b, firstNameField, lastNameField, phoneField, specialization);
      var r := UpdateProfile(st, firstNameField, lastNameField, phoneField, specialization);
      && Consistent(st)
      && StoredUsers(r) == [e, e]
      && a !in StoredUsers(r)
      && !UniqueEmails(StoredUsers(r))
  {
    var e := Edited(b, firstNameField, lastNameField, phoneField, specialization);
    SharedIdUpdate(a, b, firstNameField, lastNameField, phoneField, specialization, session, page);
    SharedIdStates(a, b, e, session, page);
  }

  lemma SharedIdUpdate(a: User, b: User, firstNameField: string, lastNameField: string, phoneField: string,
                       specialization: string, session: Session, page: string)
    requires a.id == b.id
    ensures var e := Edited(b, firstNameField, lastNameField, phoneField, specialization);
      StoredUsers(UpdateProfile(AppState([a, b], [0, 1], Some(1), Some(session), page), firstNameField, lastNameField, phoneField, specialization))
        == [e, e]
  {
    var st := AppState([a, b], [0, 1], Some(1), Some(session), page);
    assert StoredUsers(st)[0] == a;
    UpdateProfileWrites(st, firstNameField, lastNameField, phoneField, specialization);
  }

  lemma SharedIdStates(a: User, b: User, e: User, session: Session, page: string)
    requires a.id == b.id == e.id == session.userId && a != e
    ensures Consistent(AppState([a, b], [0, 1], Some(1), Some(session), page))
    ensures a !in [e, e]
    ensures !UniqueEmails([e, e])
  {
    assert AppState([a, b], [0, 1], Some(1), Some(session), page).users[1] == 1;
    assert [e, e][0].email == [e, e][1].email;
  }
}
