/** The account store as the views use it: the user table and the
    graphical-password table, updated in place. `Register` and `Login` are the
    POST branches of the two views; `DeleteUser` is the cascade the model
    declares. */
module Store {
  import opened Hashing
  import opened Tokens
  import opened Models
  import opened Views
  import Properties

  class AccountStore {
    /** `User` rows, by username. */
    var users: map<string, User>
    /** `GraphicalPassword` rows, by the username of their owner. */
    var credentials: map<string, GraphicalPassword>
    /** The framework services the views call. */
    const env: Env

    /** The tables as a value. */
    function Snapshot(): State
      reads this
    {
      State(users, credentials)
    }

    ghost predicate Valid()
      reads this
    {
      Views.Valid(Snapshot()) && IsDigestFunction(env.digest)
    }

    constructor (env: Env)
      requires IsDigestFunction(env.digest)
      ensures Valid()
      ensures this.env == env && users == map[] && credentials == map[]
    {
      this.env := env;
      users := map[];
      credentials := map[];
    }

    /** The POST branch of the `register` view. `salt` is what
        `secrets.token_hex(16)` returned and `now` the clock reading. */
    method Register(form: RegisterForm, salt: string, now: int) returns (r: Outcome)
      requires Valid()
      requires IsSalt(salt)
      modifies this
      ensures Valid()
      ensures r == RegisterCheck(env, old(users), form)
      ensures Snapshot() == AfterRegister(env, old(Snapshot()), form, salt, now)
    {
      Properties.RegisterKeepsValid(env, Snapshot(), form, salt, now);
      if !env.emailValid(form.email) {
        return Rejected(InvalidEmail);
      }
      if form.graphicalPassword == "" {
        return Rejected(MissingGraphicalPassword);
      }
      var images := Split(form.graphicalPassword);
      if |images| < 4 || |images| > 6 {
        return Rejected(InvalidSequenceLength);
      }
      if form.username in users {
        return Rejected(DuplicateUsername);
      } else if EmailTaken(users, form.email) {
        return Rejected(DuplicateEmail);
      }
      // Two separate writes, with no transaction around them.
      var user := User(form.username, form.email, env.makePassword(form.password));
      users := users[user.username := user];
      assert Views.Valid(Snapshot());
      var hashed := HashImageSequence(env.digest, form.graphicalPassword, salt);
      credentials := credentials[user.username := Created(user.username, hashed, salt, now)];
      r := Accepted;
    }

    /** The POST branch of the `login` view; `Accepted` is where it calls
        `auth.login`. It reads the tables and changes none of the modelled
        fields (the `last_login` write of `auth.login` is not modelled). */
    method Login(form: LoginForm) returns (r: Outcome)
      ensures r == LoginDecision(env, Snapshot(), form)
    {
      if form.graphicalPassword == "" {
        return Rejected(MissingGraphicalPassword);
      }
      if !Authenticates(env, users, form.username, form.password) {
        return Rejected(InvalidCredentials);
      }
      if form.username !in credentials {
        return Rejected(CredentialNotConfigured);
      }
      var gp := credentials[form.username];
      var hashedInput := HashImageSequence(env.digest, form.graphicalPassword, gp.salt);
      if hashedInput == gp.imageSequenceHash {
        r := Accepted;
      } else {
        r := Rejected(InvalidGraphicalPassword);
      }
    }

    /** Deleting a user row; `on_delete=CASCADE` deletes its record too. */
    method DeleteUser(username: string)
      requires Valid()
      modifies this
      ensures Valid()
      ensures Snapshot() == WithoutUser(old(Snapshot()), username)
    {
      users := users - {username};
      credentials := credentials - {username};
    }
  }
}
