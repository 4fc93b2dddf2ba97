/** What the register and login views promise, proved about their
    specifications in module Views. */
module Properties {
  import opened Hashing
  import opened Tokens
  import opened Models
  import opened Views

  // ---------------------------------------------------------------------------
  // The order of the checks

  /** Registration rejects with the k-th check of RegisterOrder exactly when
      that check fails and every earlier one passes, whatever the later ones say. */
  lemma {:induction false} RegisterCheckOrder(env: Env, users: map<string, User>, f: RegisterForm, k: nat)
    requires k < |RegisterOrder|
    ensures RegisterCheck(env, users, f) == Rejected(RegisterOrder[k])
            <==> RegisterFails(env, users, f, RegisterOrder[k])
                 && forall j :: 0 <= j < k ==> !RegisterFails(env, users, f, RegisterOrder[j])
  {
    var o := RegisterOrder;
    var passed := forall j :: 0 <= j < k ==> !RegisterFails(env, users, f, o[j]);
    var email := !RegisterFails(env, users, f, o[0]);
    var present := !RegisterFails(env, users, f, o[1]);
    var count := !RegisterFails(env, users, f, o[2]);
    var name := !RegisterFails(env, users, f, o[3]);
    if k == 0 {
      assert passed;
    } else if k == 1 {
      assert passed <==> email;
    } else if k == 2 {
      assert passed <==> email && present;
    } else if k == 3 {
      assert passed <==> email && present && count;
    } else {
      assert passed <==> email && present && count && name;
    }
  }

  /** Registration is accepted exactly when none of its checks fails. */
  lemma RegisterAcceptedIff(env: Env, users: map<string, User>, f: RegisterForm)
    ensures RegisterCheck(env, users, f) == Accepted
            <==> forall e :: !RegisterFails(env, users, f, e)
  {
    if forall e :: !RegisterFails(env, users, f, e) {
      assert !RegisterFails(env, users, f, InvalidEmail);
      assert !RegisterFails(env, users, f, MissingGraphicalPassword);
      assert !RegisterFails(env, users, f, InvalidSequenceLength);
      assert !RegisterFails(env, users, f, DuplicateUsername);
      assert !RegisterFails(env, users, f, DuplicateEmail);
    }
  }

  /** Login rejects with the k-th check of LoginOrder exactly when that check
      fails and every earlier one passes; it accepts exactly when none fails. */
  lemma {:induction false} LoginDecisionOrder(env: Env, st: State, f: LoginForm, k: nat)
    requires k < |LoginOrder|
    ensures LoginDecision(env, st, f) == Rejected(LoginOrder[k])
            <==> LoginFails(env, st, f, LoginOrder[k])
                 && forall j :: 0 <= j < k ==> !LoginFails(env, st, f, LoginOrder[j])
    ensures LoginDecision(env, st, f) == Accepted
            <==> forall e :: !LoginFails(env, st, f, e)
  {
    var o := LoginOrder;
    assert o[0] == MissingGraphicalPassword && o[1] == InvalidCredentials;
    assert o[2] == CredentialNotConfigured && o[3] == InvalidGraphicalPassword;
    if forall e :: !LoginFails(env, st, f, e) {
      assert !LoginFails(env, st, f, o[0]) && !LoginFails(env, st, f, o[1]);
      assert !LoginFails(env, st, f, o[2]) && !LoginFails(env, st, f, o[3]);
    }
  }

  // ---------------------------------------------------------------------------
  // Registration

  /** Each early return of the register view leaves the store as it was; a
      selection that is empty or whose comma-split count is outside 4..6 is
      never accepted. */
  lemma RejectedRegistrationChangesNothing(env: Env, st: State, f: RegisterForm, salt: string, now: int)
    ensures RegisterCheck(env, st.users, f).Rejected? ==> AfterRegister(env, st, f, salt, now) == st
    ensures RegisterCheck(env, st.users, f) == Accepted
            ==> f.graphicalPassword != "" && 4 <= ImageCount(f.graphicalPassword) <= 6
  {
  }

  /** A successful registration adds exactly one account, filed under the new
      username, and exactly one graphical-password record, owned by it, whose
      salt is the 32 hex characters drawn and whose hash is the 64-hex digest
      of the submitted string with that salt appended. Nothing else changes. */
  lemma AcceptedRegistrationEffect(env: Env, st: State, f: RegisterForm, salt: string, now: int)
    requires Valid(st)
    requires IsDigestFunction(env.digest)
    requires IsSalt(salt)
    requires RegisterCheck(env, st.users, f) == Accepted
    ensures var post := AfterRegister(env, st, f, salt, now);
      && f.username !in st.users && f.username !in st.credentials
      && post.users.Keys == st.users.Keys + {f.username}
      && post.credentials.Keys == st.credentials.Keys + {f.username}
      && |post.users| == |st.users| + 1
      && |post.credentials| == |st.credentials| + 1
      && post.users[f.username] == User(f.username, f.email, env.makePassword(f.password))
      && post.credentials[f.username].owner == f.username
      && post.credentials[f.username].salt == salt
      && IsHexOfLength(post.credentials[f.username].imageSequenceHash, DigestLength)
      && post.credentials[f.username].imageSequenceHash == env.digest(f.graphicalPassword + salt)
      && post.credentials[f.username].createdAt == post.credentials[f.username].updatedAt == now
      && (forall u :: u in st.users ==> post.users[u] == st.users[u])
      && (forall u :: u in st.credentials ==> post.credentials[u] == st.credentials[u])
  {
    var post := AfterRegister(env, st, f, salt, now);
    var gp := NewCredential(env, f, salt, now);
    assert f.username !in st.credentials;
    assert post.users == st.users[f.username := NewUser(env, f)];
    assert post.credentials == st.credentials[f.username := gp];
    assert post.credentials[f.username] == gp;
    assert gp.imageSequenceHash == env.digest(f.graphicalPassword + salt);
  }

  /** Registration keeps the store's invariant: in particular the new record
      fits its columns, a 32-character salt and a 64-character digest. */
  lemma RegisterKeepsValid(env: Env, st: State, f: RegisterForm, salt: string, now: int)
    requires Valid(st)
    requires IsDigestFunction(env.digest)
    requires IsSalt(salt)
    ensures Valid(AfterRegister(env, st, f, salt, now))
  {
    if RegisterCheck(env, st.users, f) == Accepted {
      AcceptedRegistrationEffect(env, st, f, salt, now);
    }
  }

  /** The store does not enforce unique emails, but registration never
      introduces a second account with an email already in use. */
  lemma RegisterKeepsEmailsUnique(env: Env, st: State, f: RegisterForm, salt: string, now: int)
    requires EmailsUnique(st.users)
    ensures EmailsUnique(AfterRegister(env, st, f, salt, now).users)
  {
    var post := AfterRegister(env, st, f, salt, now).users;
    if RegisterCheck(env, st.users, f) == Accepted {
      assert !EmailTaken(st.users, f.email);
      assert post == st.users[f.username := NewUser(env, f)];
    }
  }

  /** The first of the two store updates alone (the view does not wrap them
      in a transaction) leaves a consistent store in which the new user's
      login is refused as having no graphical password configured. */
  lemma InterruptedRegistration(env: Env, st: State, f: RegisterForm, gp: string)
    requires Valid(st)
    requires RegisterCheck(env, st.users, f) == Accepted
    requires gp != ""
    ensures Valid(WithUser(st, NewUser(env, f)))
    ensures LoginDecision(env, WithUser(st, NewUser(env, f)), LoginForm(f.username, f.password, gp))
            == Rejected(CredentialNotConfigured)
  {
  }

  /** Deleting an account takes its graphical-password record with it, and
      the store stays consistent. */
  lemma DeleteCascades(st: State, username: string)
    requires Valid(st)
    ensures var post := WithoutUser(st, username);
      && Valid(post)
      && username !in post.users && username !in post.credentials
      && post.users.Keys == st.users.Keys - {username}
      && post.credentials.Keys == st.credentials.Keys - {username}
      && (forall u :: u in post.users ==> post.users[u] == st.users[u])
      && (forall u :: u in post.credentials ==> post.credentials[u] == st.credentials[u])
  {
  }

  // ---------------------------------------------------------------------------
  // Login

  /** Login succeeds exactly when the selection is non-empty, the primary
      password authenticates, the user has a record, and the digest of the
      submitted string with the stored salt equals the stored hash. */
  lemma LoginAcceptedIff(env: Env, st: State, f: LoginForm)
    ensures LoginDecision(env, st, f) == Accepted
            <==> && f.graphicalPassword != ""
                 && Authenticates(env, st.users, f.username, f.password)
                 && f.username in st.credentials
                 && env.digest(f.graphicalPassword + st.credentials[f.username].salt)
                    == st.credentials[f.username].imageSequenceHash
  {
  }

  /** Registering and then logging in with the same username, password and
      image string succeeds. */
  lemma RegisterThenLogin(env: Env, st: State, f: RegisterForm, salt: string, now: int)
    requires Valid(st)
    requires RegisterCheck(env, st.users, f) == Accepted
    ensures LoginDecision(env, AfterRegister(env, st, f, salt, now),
                          LoginForm(f.username, f.password, f.graphicalPassword)) == Accepted
  {
    var post := AfterRegister(env, st, f, salt, now);
    assert post.credentials[f.username] == NewCredential(env, f, salt, now);
  }

  /** After registering, a different non-empty image string is refused as
      the wrong graphical password, provided the hash tells the two salted
      strings apart. */
  lemma OtherSelectionRefused(env: Env, st: State, f: RegisterForm, salt: string, now: int, other: string)
    requires Valid(st)
    requires RegisterCheck(env, st.users, f) == Accepted
    requires other != "" && other != f.graphicalPassword
    requires Distinguishes(env.digest, other + salt, f.graphicalPassword + salt)
    ensures LoginDecision(env, AfterRegister(env, st, f, salt, now),
                          LoginForm(f.username, f.password, other)) == Rejected(InvalidGraphicalPassword)
  {
    var post := AfterRegister(env, st, f, salt, now);
    assert post.credentials[f.username] == NewCredential(env, f, salt, now);
    SaltedInputInjective(other, salt, f.graphicalPassword, salt);
  }

  /** Order is part of the secret: after registering a selection of
      comma-free image names, the same images in reverse order (when that is
      a different order) are refused, provided the hash tells the two salted
      strings apart. */
  lemma ReversedSelectionRefused(env: Env, st: State, f: RegisterForm, images: seq<string>,
                                 salt: string, now: int)
    requires Valid(st)
    requires |images| >= 1 && AllCommaFree(images)
    requires f.graphicalPassword == Join(images)
    requires RegisterCheck(env, st.users, f) == Accepted
    requires Reverse(images) != images
    requires Distinguishes(env.digest, Join(Reverse(images)) + salt, Join(images) + salt)
    ensures LoginDecision(env, AfterRegister(env, st, f, salt, now),
                          LoginForm(f.username, f.password, Join(Reverse(images))))
            == Rejected(InvalidGraphicalPassword)
  {
    var reversed := Reverse(images);
    assert AllCommaFree(reversed) by {
      forall i | 0 <= i < |reversed| ensures CommaFree(reversed[i]) {
        assert reversed[i] == images[|images| - 1 - i];
      }
    }
    JoinInjective(reversed, images);
    assert |images| >= 2;
    assert Join(reversed) == reversed[0] + [Comma] + Join(reversed[1..]);
    OtherSelectionRefused(env, st, f, salt, now, Join(reversed));
  }

  /** A wrong primary password is refused before the graphical password is
      looked at, even when the image string is the registered one. */
  lemma WrongPasswordRefused(env: Env, st: State, f: RegisterForm, salt: string, now: int, password: string)
    requires Valid(st)
    requires RegisterCheck(env, st.users, f) == Accepted
    requires f.graphicalPassword != ""
    requires env.makePassword(password) != env.makePassword(f.password)
    ensures LoginDecision(env, AfterRegister(env, st, f, salt, now),
                          LoginForm(f.username, password, f.graphicalPassword)) == Rejected(InvalidCredentials)
  {
  }
}
