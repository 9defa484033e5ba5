/** The user request models and the stored user record of
    schemas/users/user_schema.py, each as a parser from the raw request dict
    to the model or the first error. */
module UserSchema {
  import opened Common
  import opened ConvertToJson
  import opened Validation

  const UsernameLength: Constraint := Length(3, 16)
  const PasswordLength: Constraint := Length(8, 16)
  const DescriptionLength: Constraint := Length(0, 60)

  // ---------------------------------------------------------------------
  // UserCreate and UserLogin
  // ---------------------------------------------------------------------

  datatype UserCreate = UserCreate(username: string, email: string, password: string)

  function ParseUserCreate(values: map<string, Value>): Result<UserCreate, Error>
  {
    var username := RequiredText(values, "username", UsernameLength);
    var email := RequiredText(values, "email", Unbounded);
    var password := RequiredText(values, "password", PasswordLength);
    if username.Err? then Err(username.error)
    else if email.Err? then Err(email.error)
    else if password.Err? then Err(password.error)
    else Ok(UserCreate(username.value, email.value, password.value))
  }

  /** Sign-up accepts exactly a 3 to 16 character username, an email string
      and an 8 to 16 character password, and keeps them as given. */
  lemma UserCreateIff(values: map<string, Value>)
    ensures ParseUserCreate(values).Ok? <==>
      && "username" in values && values["username"].Str? && 3 <= |values["username"].s| <= 16
      && "email" in values && values["email"].Str?
      && "password" in values && values["password"].Str? && 8 <= |values["password"].s| <= 16
    ensures ParseUserCreate(values).Ok? ==>
      ParseUserCreate(values).value ==
        UserCreate(values["username"].s, values["email"].s, values["password"].s)
  {
  }

  datatype UserLogin = UserLogin(username: string, password: string)

  function ParseUserLogin(values: map<string, Value>): Result<UserLogin, Error>
  {
    var username := RequiredText(values, "username", UsernameLength);
    var password := RequiredText(values, "password", PasswordLength);
    if username.Err? then Err(username.error)
    else if password.Err? then Err(password.error)
    else Ok(UserLogin(username.value, password.value))
  }

  /** Login applies the same two length ranges as sign-up. */
  lemma UserLoginIff(values: map<string, Value>)
    ensures ParseUserLogin(values).Ok? <==>
      && "username" in values && values["username"].Str? && 3 <= |values["username"].s| <= 16
      && "password" in values && values["password"].Str? && 8 <= |values["password"].s| <= 16
    ensures ParseUserCreate(values).Ok? ==>
      ParseUserLogin(values) == Ok(UserLogin(ParseUserCreate(values).value.username, ParseUserCreate(values).value.password))
  {
  }

  // ---------------------------------------------------------------------
  // UserUpdate
  // ---------------------------------------------------------------------

  /** check_at_least_one_field, run on the raw values before any field. */
  function CheckUserUpdate(values: map<string, Value>): Result<map<string, Value>, Error>
  {
    if !AnyTruthy(values) then Err(NoFieldProvided)
    else if ("new_password" in values || "old_password" in values)
         && (IsNone(values, "new_password") || IsNone(values, "old_password")) then
      Err(PasswordPairIncomplete)
    else Ok(values)
  }

  /** The root validator passes exactly when some value is truthy and, if
      either password key is present, both passwords are given; it then
      returns the values unchanged. Emptiness is checked first. */
  lemma CheckUserUpdateIff(values: map<string, Value>)
    ensures CheckUserUpdate(values).Ok? <==>
      AnyTruthy(values) &&
      (("new_password" in values || "old_password" in values) ==>
         !IsNone(values, "new_password") && !IsNone(values, "old_password"))
    ensures CheckUserUpdate(values).Ok? ==> CheckUserUpdate(values).value == values
    ensures !AnyTruthy(values) ==> CheckUserUpdate(values) == Err(NoFieldProvided)
  {
  }

  /** Nothing truthy is refused as empty even when the password pair is
      also incomplete: `{"old_password": ""}` gets the emptiness error. */
  lemma EmptinessCheckedFirst()
    ensures CheckUserUpdate(map["old_password" := Str("")]) == Err(NoFieldProvided)
    ensures CheckUserUpdate(map["old_password" := Str("secret12")]) == Err(PasswordPairIncomplete)
  {
    var v := map["old_password" := Str("")];
    assert forall k :: k in v ==> k == "old_password";
    var w := map["old_password" := Str("secret12")];
    assert Truthy(w["old_password"]);
  }

  datatype UserUpdate = UserUpdate(
    username: Option<string>,
    email: Option<string>,
    description: Option<string>,
    oldPassword: Option<string>,
    newPassword: Option<string>,
    profileImage: Option<string>)

  function ParseUserUpdate(values: map<string, Value>): Result<UserUpdate, Error>
  {
    var checked := CheckUserUpdate(values);
    if checked.Err? then Err(checked.error)
    else
      var username := OptionalText(values, "username", UsernameLength);
      var email := OptionalText(values, "email", Unbounded);
      var description := OptionalText(values, "description", DescriptionLength);
      var oldPassword := OptionalText(values, "old_password", PasswordLength);
      var newPassword := OptionalText(values, "new_password", PasswordLength);
      var profileImage := OptionalText(values, "profile_image", Unbounded);
      if username.Err? then Err(username.error)
      else if email.Err? then Err(email.error)
      else if description.Err? then Err(description.error)
      else if oldPassword.Err? then Err(oldPassword.error)
      else if newPassword.Err? then Err(newPassword.error)
      else if profileImage.Err? then Err(profileImage.error)
      else Ok(UserUpdate(username.value, email.value, description.value,
                         oldPassword.value, newPassword.value, profileImage.value))
  }

  /** An accepted update carries both passwords or neither, each 8 to 16
      characters, a username of 3 to 16 and a description of at most 60. */
  lemma UserUpdateAccepted(values: map<string, Value>)
    requires ParseUserUpdate(values).Ok?
    ensures var u := ParseUserUpdate(values).value;
      && AnyTruthy(values)
      && (u.newPassword.Some? <==> u.oldPassword.Some?)
      && (u.newPassword.Some? ==> 8 <= |u.newPassword.value| <= 16 && 8 <= |u.oldPassword.value| <= 16)
      && (u.username.Some? ==> 3 <= |u.username.value| <= 16)
      && (u.description.Some? ==> |u.description.value| <= 60)
  {
  }

  /** An update is accepted exactly when it passes the root validator and
      each field is absent, null, or a string within its bounds; every
      given field is kept as sent. */
  lemma UserUpdateIff(values: map<string, Value>)
    ensures ParseUserUpdate(values).Ok? <==>
      && CheckUserUpdate(values).Ok?
      && OptionalTextOk(values, "username", UsernameLength)
      && OptionalTextOk(values, "email", Unbounded)
      && OptionalTextOk(values, "description", DescriptionLength)
      && OptionalTextOk(values, "old_password", PasswordLength)
      && OptionalTextOk(values, "new_password", PasswordLength)
      && OptionalTextOk(values, "profile_image", Unbounded)
    ensures ParseUserUpdate(values).Ok? ==>
      var u := ParseUserUpdate(values).value;
      && (!IsNone(values, "username") ==> u.username == Some(values["username"].s))
      && (!IsNone(values, "email") ==> u.email == Some(values["email"].s))
      && (!IsNone(values, "description") ==> u.description == Some(values["description"].s))
      && (!IsNone(values, "old_password") ==> u.oldPassword == Some(values["old_password"].s))
      && (!IsNone(values, "new_password") ==> u.newPassword == Some(values["new_password"].s))
      && (!IsNone(values, "profile_image") ==> u.profileImage == Some(values["profile_image"].s))
  {
  }

  // ---------------------------------------------------------------------
  // User
  // ---------------------------------------------------------------------

  /** The stored user: inbox lists of chat and group references. */
  datatype User = User(
    username: string,
    email: string,
    password: string,
    description: Option<string>,
    status: Option<string>,
    createdAt: Timestamp,
    profileImage: Option<string>,
    inbox: map<string, seq<Value>>)

  function DefaultInbox(): (inbox: map<string, seq<Value>>)
    ensures inbox.Keys == {"chats", "groups"}
    ensures forall k :: k in inbox ==> inbox[k] == []
  {
    map["chats" := [], "groups" := []]
  }

  /** A user built from the three required fields; the creation time comes
      from the clock and is an input. */
  function NewUser(username: string, email: string, password: string, now: Timestamp): (u: User)
    ensures u.username == username && u.email == email && u.password == password
    ensures u.description.None? && u.status.None? && u.profileImage.None?
    ensures u.inbox == DefaultInbox() && u.createdAt == now
  {
    User(username, email, password, None, None, now, None, DefaultInbox())
  }
}
