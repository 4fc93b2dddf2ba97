/** The concrete cases the repository's tests exercise, stated for every
    choice of the framework services that the cases depend on. */
module Scenarios {
  import opened Hashing
  import opened Tokens
  import opened Views
  import opened Store
  import Properties

  const FourImages: seq<string> := ["anonymity.png", "bitcoin.png", "blackcoin.png", "block_chain.png"]
  const TwoImages: seq<string> := ["anonymity.png", "bitcoin.png"]
  const SevenImages: seq<string> := ["a.png", "b.png", "c.png", "d.png", "e.png", "f.png", "g.png"]

  /** Python's split keeps empty pieces: a string of commas alone, or one with
      a doubled comma, counts as four images and passes the count check. */
  lemma EmptyPiecesCount()
    ensures ImageCount(",,,") == 4 && ImageCount("a,,b,c") == 4
    ensures Split(",,,") == ["", "", "", ""]
  {
  }

  /** Two images are too few and seven too many; both are refused with the
      count error once the email is valid, and no account is created. */
  lemma CountBoundsRefused(env: Env, st: State, salt: string, now: int)
    requires env.emailValid("test3@example.com") && env.emailValid("test4@example.com")
    ensures var few := RegisterForm("testuser3", "test3@example.com", "TestPassword123", Join(TwoImages));
      && RegisterCheck(env, st.users, few) == Rejected(InvalidSequenceLength)
      && AfterRegister(env, st, few, salt, now) == st
    ensures var many := RegisterForm("testuser4", "test4@example.com", "TestPassword123", Join(SevenImages));
      && RegisterCheck(env, st.users, many) == Rejected(InvalidSequenceLength)
      && AfterRegister(env, st, many, salt, now) == st
  {
    ImageCountOfJoin(TwoImages);
    ImageCountOfJoin(SevenImages);
  }

  /** An empty image string is refused as missing, and no account is created. */
  lemma EmptySelectionRefused(env: Env, st: State, salt: string, now: int)
    requires env.emailValid("test2@example.com")
    ensures var f := RegisterForm("testuser2", "test2@example.com", "TestPassword123", "");
      && RegisterCheck(env, st.users, f) == Rejected(MissingGraphicalPassword)
      && AfterRegister(env, st, f, salt, now) == st
  {
  }

  /** A taken username is refused even with a fresh email; the store keeps
      its single account of that name and gains no record. */
  lemma DuplicateUsernameRefused(env: Env, st: State, salt: string, now: int)
    requires env.emailValid("second@example.com")
    requires "duplicate" in st.users
    ensures var f := RegisterForm("duplicate", "second@example.com", "pass456", Join(FourImages));
      && RegisterCheck(env, st.users, f) == Rejected(DuplicateUsername)
      && AfterRegister(env, st, f, salt, now) == st
  {
    ImageCountOfJoin(FourImages);
  }

  /** Register a user with four images, then log in: the same string and
      password succeed, the images reversed are refused as the wrong
      graphical password, and a wrong password is refused first. */
  method RegisterAndLogIn(env: Env, salt: string, now: int)
    returns (registered: Outcome, exact: Outcome, reversed: Outcome, wrongPassword: Outcome)
    requires IsDigestFunction(env.digest)
    requires IsSalt(salt)
    requires env.emailValid("test@example.com")
    requires env.makePassword("WrongPassword123") != env.makePassword("TestPassword123")
    requires Distinguishes(env.digest, Join(Reverse(FourImages)) + salt, Join(FourImages) + salt)
    ensures registered == Accepted
    ensures exact == Accepted
    ensures reversed == Rejected(InvalidGraphicalPassword)
    ensures wrongPassword == Rejected(InvalidCredentials)
  {
    var store := new AccountStore(env);
    var gp := Join(FourImages);
    var form := RegisterForm("testuser", "test@example.com", "TestPassword123", gp);
    ImageCountOfJoin(FourImages);
    var before := store.Snapshot();
    registered := store.Register(form, salt, now);
    Properties.RegisterThenLogin(env, before, form, salt, now);
    exact := store.Login(LoginForm("testuser", "TestPassword123", gp));
    assert Reverse(FourImages) == ["block_chain.png", "blackcoin.png", "bitcoin.png", "anonymity.png"];
    Properties.ReversedSelectionRefused(env, before, form, FourImages, salt, now);
    reversed := store.Login(LoginForm("testuser", "TestPassword123", Join(Reverse(FourImages))));
    wrongPassword := store.Login(LoginForm("testuser", "WrongPassword123", gp));
  }
}
