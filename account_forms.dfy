/** The sign-up and login forms of accounts/forms.py: the uniqueness checks
    on email and username, the field copy in the sign-up form's `save`, and
    the login form's rejection rule. Authentication itself is a parameter. */
module AccountForms {
  import opened Models
  import opened Db

  /** A field cleaner either returns the cleaned value or raises a
      ValidationError with a message. */
  datatype Cleaned<T> = Clean(value: T) | ValidationError(message: string)

  const EmailTaken := "A user with this email already exists."
  const UsernameTaken := "A user with this username already exists."
  const InvalidLogin := "Invalid username or password."

  datatype UserField = EmailField | UsernameField

  function FieldOf(u: User, f: UserField): string {
    match f
    case EmailField => u.email
    case UsernameField => u.username
  }

  /** `User.objects.filter(<field>=value).exclude(pk=pk).exists()`. With no
      primary key (a user not saved yet) nothing is excluded. */
  function TakenByOther(users: seq<User>, f: UserField, value: string, pk: Option<nat>): (r: bool)
    ensures r <==> exists k :: 0 <= k < |users| && FieldOf(users[k], f) == value && Some(k) != pk
    decreases |users|
  {
    if users == [] then false
    else
      var n := |users| - 1;
      var before := TakenByOther(users[..n], f, value, pk);
      assert forall k :: 0 <= k < n ==> users[..n][k] == users[k];
      before || (FieldOf(users[n], f) == value && Some(n) != pk)
  }

  /** CustomUserCreationForm.clean_email for the form's instance `pk`. */
  function CleanEmail(users: seq<User>, email: string, pk: Option<nat>): (r: Cleaned<string>)
    ensures r.ValidationError? <==> exists k :: 0 <= k < |users| && users[k].email == email && Some(k) != pk
    ensures r.ValidationError? ==> r.message == EmailTaken
    ensures r.Clean? ==> r.value == email
  {
    if TakenByOther(users, EmailField, email, pk) then ValidationError(EmailTaken) else Clean(email)
  }

  /** CustomUserCreationForm.clean_username for the form's instance `pk`. */
  function CleanUsername(users: seq<User>, username: string, pk: Option<nat>): (r: Cleaned<string>)
    ensures r.ValidationError? <==> exists k :: 0 <= k < |users| && users[k].username == username && Some(k) != pk
    ensures r.ValidationError? ==> r.message == UsernameTaken
    ensures r.Clean? ==> r.value == username
  {
    if TakenByOther(users, UsernameField, username, pk) then ValidationError(UsernameTaken) else Clean(username)
  }

  /** Re-validating a saved user's own email and username passes when no
      other user holds them: the user's own row is excluded. */
  lemma OwnValuesPass(users: seq<User>, pk: nat)
    requires pk < |users|
    requires forall k :: 0 <= k < |users| && k != pk ==> users[k].email != users[pk].email
    requires forall k :: 0 <= k < |users| && k != pk ==> users[k].username != users[pk].username
    ensures CleanEmail(users, users[pk].email, Some(pk)) == Clean(users[pk].email)
    ensures CleanUsername(users, users[pk].username, Some(pk)) == Clean(users[pk].username)
  {
  }

  /** The same values submitted for a new, unsaved user are rejected. */
  lemma ExistingValuesRejectedForNewUser(users: seq<User>, pk: nat)
    requires pk < |users|
    ensures CleanEmail(users, users[pk].email, None) == ValidationError(EmailTaken)
    ensures CleanUsername(users, users[pk].username, None) == ValidationError(UsernameTaken)
  {
    assert users[pk].email == users[pk].email && Some(pk) != None;
  }

  // ---------------------------------------------------------------------
  // CustomUserCreationForm.save

  /** The form's cleaned data. `phone` is None when the key is absent. */
  datatype SignupData = SignupData(
    username: string,
    email: string,
    firstName: string,
    lastName: string,
    phone: Option<string>,
    userType: UserType)

  /** `cleaned_data.get('phone', '')` */
  function PhoneOrEmpty(phone: Option<string>): (r: string)
    ensures phone.None? ==> r == ""
    ensures phone.Some? ==> r == phone.value
  {
    match phone
    case None => ""
    case Some(p) => p
  }

  /** CustomUserCreationForm.save: builds the user from the form (the base
      form's `save(commit=False)` sets the username and the user type), copies
      email, first and last name and phone from the cleaned data, and writes
      the user to the store only when `commit` is true. */
  method SaveSignup(db: Store, instance: User, pk: Option<nat>, data: SignupData, commit: bool)
    returns (u: User, savedPk: Option<nat>)
    requires pk.Some? ==> pk.value < |db.users|
    modifies db
    ensures db.OnlyChanged({Users})
    ensures u.username == data.username && u.userType == data.userType
    ensures u.email == data.email && u.firstName == data.firstName && u.lastName == data.lastName
    ensures u.phone == PhoneOrEmpty(data.phone)
    ensures !commit ==> db.users == old(db.users) && savedPk == pk
    ensures commit ==> savedPk.Some? && savedPk.value < |db.users| && db.users[savedPk.value] == u
    ensures commit && pk.None? ==> db.users == old(db.users) + [u]
    ensures commit && pk.Some? ==> db.users == old(db.users)[pk.value := u]
  {
    u := instance.(username := data.username, userType := data.userType);
    u := u.(email := data.email);
    u := u.(firstName := data.firstName);
    u := u.(lastName := data.lastName);
    u := u.(phone := PhoneOrEmpty(data.phone));
    savedPk := pk;
    if commit {
      var id := db.SaveUser(u, pk);
      savedPk := Some(id);
    }
  }

  // ---------------------------------------------------------------------
  // CustomLoginForm.clean

  /** The outcome of the login form's `clean`: the cleaned data is kept and
      `user_cache` holds the authenticated user, if authentication ran. */
  datatype LoginOutcome =
    | LoginClean(userCache: Option<nat>)
    | LoginRejected(message: string)
    | LoginNotAllowed(user: nat)

  /** A submitted field is used only when present and non-empty. */
  predicate Given(field: Option<string>) {
    field.Some? && field.value != ""
  }

  /** CustomLoginForm.clean. `authenticate` is the identity provider and
      `allowed` the base form's confirm_login_allowed check (an active user). */
  function LoginCheck(username: Option<string>, password: Option<string>,
                      authenticate: (string, string) -> Option<nat>, allowed: nat -> bool): (r: LoginOutcome)
    ensures !Given(username) || !Given(password) ==> r == LoginClean(None)
    ensures Given(username) && Given(password) ==>
      (r.LoginRejected? <==> authenticate(username.value, password.value).None?)
    ensures r.LoginRejected? ==> r.message == InvalidLogin
    ensures Given(username) && Given(password) && authenticate(username.value, password.value).Some? ==>
      var u := authenticate(username.value, password.value).value;
      && (allowed(u) ==> r == LoginClean(Some(u)))
      && (!allowed(u) ==> r == LoginNotAllowed(u))
    ensures r.LoginClean? && r.userCache.Some? ==>
      Given(username) && Given(password) && authenticate(username.value, password.value) == r.userCache
      && allowed(r.userCache.value)
  {
    if Given(username) && Given(password) then
      match authenticate(username.value, password.value)
      case None => LoginRejected(InvalidLogin)
      case Some(user) => if allowed(user) then LoginClean(Some(user)) else LoginNotAllowed(user)
    else LoginClean(None)
  }

  /** With a field missing, no authentication is attempted: the outcome is the
      same whatever the identity provider would answer. */
  lemma MissingFieldSkipsAuthentication(username: Option<string>, password: Option<string>,
                                        auth1: (string, string) -> Option<nat>, auth2: (string, string) -> Option<nat>,
                                        allowed: nat -> bool)
    requires !Given(username) || !Given(password)
    ensures LoginCheck(username, password, auth1, allowed) == LoginCheck(username, password, auth2, allowed)
  {
  }
}
