/** The POST branches of the `register` and `login` views, as pure functions
    of the submitted form and the store: which check rejects the request, and
    what the store looks like afterwards. Framework collaborators
    (`validate_email`, password encoding, SHA-256) come in through `Env`. */
module Views {
  import opened Hashing
  import opened Tokens
  import opened Models

  /** The framework services the views call but this model does not define. */
  datatype Env = Env(
    digest: string -> string,      // hashlib.sha256(..).hexdigest()
    emailValid: string -> bool,    // django.core.validators.validate_email succeeds
    makePassword: string -> string // how create_user encodes the primary password
  )

  /** The fields of `request.POST`; an absent `graphical_password` is "". */
  datatype RegisterForm = RegisterForm(
    username: string, email: string, password: string, graphicalPassword: string)

  datatype LoginForm = LoginForm(username: string, password: string, graphicalPassword: string)

  /** Every way a request is sent back to its form, one per error message. */
  datatype AuthError =
    | InvalidEmail
    | MissingGraphicalPassword
    | InvalidSequenceLength
    | DuplicateUsername
    | DuplicateEmail
    | InvalidCredentials
    | CredentialNotConfigured
    | InvalidGraphicalPassword

  /** `Accepted`: registration redirects to login, or login starts a session. */
  datatype Outcome = Accepted | Rejected(error: AuthError)

  /** The persisted store: user accounts by username, and graphical-password
      records by the username of their owner. */
  datatype State = State(users: map<string, User>, credentials: map<string, GraphicalPassword>)

  /** The store's invariant: accounts are filed under their own username, and
      each record belongs to exactly one existing user, filed under that user
      (so a user has at most one record), and fits its columns. */
  predicate Valid(st: State)
    ensures Valid(st) ==> st.credentials.Keys <= st.users.Keys
  {
    && (forall u :: u in st.users ==> st.users[u].username == u)
    && (forall u :: u in st.credentials ==>
          u in st.users && st.credentials[u].owner == u && FitsColumns(st.credentials[u]))
  }

  /** `User.objects.filter(email=email).exists()` */
  predicate EmailTaken(users: map<string, User>, email: string) {
    exists u :: u in users && users[u].email == email
  }

  /** No two accounts share an email address. The store does not enforce
      this; registration keeps it (RegisterKeepsEmailsUnique). */
  predicate EmailsUnique(users: map<string, User>) {
    forall u, v :: u in users && v in users && users[u].email == users[v].email ==> u == v
  }

  /** Number of images in a submitted selection, as the register view counts them. */
  function ImageCount(graphicalPassword: string): nat {
    |Split(graphicalPassword)|
  }

  // ---------------------------------------------------------------------------
  // Ordered checks

  /** The order in which the register view runs its checks. */
  const RegisterOrder: seq<AuthError> :=
    [InvalidEmail, MissingGraphicalPassword, InvalidSequenceLength, DuplicateUsername, DuplicateEmail]

  /** The order in which the login view runs its checks. */
  const LoginOrder: seq<AuthError> :=
    [MissingGraphicalPassword, InvalidCredentials, CredentialNotConfigured, InvalidGraphicalPassword]

  // ---------------------------------------------------------------------------
  // register

  /** Whether the register view's check for `e`, taken on its own, fails. */
  predicate RegisterFails(env: Env, users: map<string, User>, f: RegisterForm, e: AuthError) {
    match e
    case InvalidEmail => !env.emailValid(f.email)
    case MissingGraphicalPassword => f.graphicalPassword == ""
    case InvalidSequenceLength => !(4 <= ImageCount(f.graphicalPassword) <= 6)
    case DuplicateUsername => f.username in users
    case DuplicateEmail => EmailTaken(users, f.email)
    case _ => false
  }

  /** The decision the register view takes, with its early returns. */
  function RegisterCheck(env: Env, users: map<string, User>, f: RegisterForm): (r: Outcome)
    ensures r.Rejected? ==> r.error in RegisterOrder && RegisterFails(env, users, f, r.error)
    ensures r == Accepted ==> f.username !in users && !EmailTaken(users, f.email)
  {
    if !env.emailValid(f.email) then Rejected(InvalidEmail)
    else if f.graphicalPassword == "" then Rejected(MissingGraphicalPassword)
    else if ImageCount(f.graphicalPassword) < 4 || ImageCount(f.graphicalPassword) > 6 then
      Rejected(InvalidSequenceLength)
    else if f.username in users then Rejected(DuplicateUsername)
    else if EmailTaken(users, f.email) then Rejected(DuplicateEmail)
    else Accepted
  }

  /** The account `User.objects.create_user` adds. */
  function NewUser(env: Env, f: RegisterForm): User {
    User(f.username, f.email, env.makePassword(f.password))
  }

  /** The record `GraphicalPassword.objects.create` adds. */
  function NewCredential(env: Env, f: RegisterForm, salt: string, now: int): (gp: GraphicalPassword)
    ensures gp.owner == f.username && gp.salt == salt && gp.createdAt == gp.updatedAt == now
    ensures IsDigestFunction(env.digest) && IsSalt(salt) ==> FitsColumns(gp)
  {
    Created(f.username, HashImageSequence(env.digest, f.graphicalPassword, salt), salt, now)
  }

  /** The first of the two store updates: the account alone. */
  function WithUser(st: State, user: User): State {
    st.(users := st.users[user.username := user])
  }

  /** The second store update: the graphical-password record. */
  function WithCredential(st: State, gp: GraphicalPassword): State {
    st.(credentials := st.credentials[gp.owner := gp])
  }

  /** The store after a register request, with `salt` the value
      `secrets.token_hex(16)` returned and `now` the clock reading. */
  function AfterRegister(env: Env, st: State, f: RegisterForm, salt: string, now: int): (post: State)
    ensures forall u :: u in st.users ==> u in post.users && post.users[u] == st.users[u]
    ensures post.users.Keys - st.users.Keys <= {f.username}
    ensures st.credentials.Keys <= post.credentials.Keys
    ensures post.credentials.Keys - st.credentials.Keys <= {f.username}
  {
    if RegisterCheck(env, st.users, f).Accepted? then
      WithCredential(WithUser(st, NewUser(env, f)), NewCredential(env, f, salt, now))
    else st
  }

  /** Deleting an account: `on_delete=CASCADE` deletes its graphical-password
      record with it. */
  function WithoutUser(st: State, username: string): (post: State)
    ensures username !in post.users && username !in post.credentials
    ensures forall u :: u in post.users ==> u in st.users && post.users[u] == st.users[u]
    ensures forall u :: u in post.credentials ==> u in st.credentials && post.credentials[u] == st.credentials[u]
    ensures Valid(st) ==> Valid(post)
  {
    State(st.users - {username}, st.credentials - {username})
  }

  // ---------------------------------------------------------------------------
  // login

  /** `authenticate(username=..., password=...)` returns a user. */
  predicate Authenticates(env: Env, users: map<string, User>, username: string, password: string)
    ensures Authenticates(env, users, username, password) ==> username in users
  {
    username in users && users[username].password == env.makePassword(password)
  }

  /** Whether the login view's check for `e`, taken on its own, fails. */
  predicate LoginFails(env: Env, st: State, f: LoginForm, e: AuthError) {
    match e
    case MissingGraphicalPassword => f.graphicalPassword == ""
    case InvalidCredentials => !Authenticates(env, st.users, f.username, f.password)
    case CredentialNotConfigured => f.username !in st.credentials
    case InvalidGraphicalPassword =>
      f.username in st.credentials &&
      HashImageSequence(env.digest, f.graphicalPassword, st.credentials[f.username].salt)
        != st.credentials[f.username].imageSequenceHash
    case _ => false
  }

  /** The decision the login view takes, with its early returns. */
  function LoginDecision(env: Env, st: State, f: LoginForm): (r: Outcome)
    ensures r.Rejected? ==> r.error in LoginOrder && LoginFails(env, st, f, r.error)
    ensures r == Accepted ==> f.username in st.users && f.username in st.credentials
  {
    if f.graphicalPassword == "" then Rejected(MissingGraphicalPassword)
    else if !Authenticates(env, st.users, f.username, f.password) then Rejected(InvalidCredentials)
    else if f.username !in st.credentials then Rejected(CredentialNotConfigured)
    else
      var gp := st.credentials[f.username];
      if HashImageSequence(env.digest, f.graphicalPassword, gp.salt) == gp.imageSequenceHash then Accepted
      else Rejected(InvalidGraphicalPassword)
  }
}
