/** Registration and login over the user table. The password hasher is a
    deterministic function the service is given; its algorithm is not part
    of this model. */
module Users {
  import opened Entities
  import opened Sequences

  /** What `SingleOrDefault` on the email finds: no row (null), one row, or
      more than one (it throws). */
  datatype Lookup = NotFound | Found(user: User) | Ambiguous

  /** The outcome of a registration: the stored user, or the email is
      already taken (the service throws). */
  datatype RegisterOutcome = Registered(user: User) | EmailAlreadyExists

  /** The `Where` test of the email lookup. */
  function EmailIs(email: string): User -> bool {
    (u: User) => u.email == email
  }

  /** `GetByEmailAsync`: the rows with that email, read by `SingleOrDefault`. */
  function GetByEmail(users: seq<User>, email: string): (found: Lookup)
    ensures found.NotFound? <==> forall i :: 0 <= i < |users| ==> users[i].email != email
    ensures found.Found? ==> found.user in users && found.user.email == email
  {
    var matches := Filter(users, EmailIs(email));
    assert matches != [] ==> matches[0] in matches;
    if |matches| == 0 then NotFound
    else if |matches| == 1 then Found(matches[0])
    else Ambiguous
  }

  /** No two rows share an email. */
  ghost predicate UniqueEmails(users: seq<User>) {
    forall i, j :: 0 <= i < |users| && 0 <= j < |users| && i != j ==> users[i].email != users[j].email
  }

  /** `SingleOrDefault`'s three outcomes in terms of the rows: it throws
      exactly when two rows carry the email, and finds a row exactly when
      that row is the only one carrying it. */
  lemma GetByEmailOutcomes(users: seq<User>, email: string)
    ensures GetByEmail(users, email).Ambiguous? <==>
              exists i, j :: 0 <= i < j < |users| && users[i].email == email && users[j].email == email
    ensures GetByEmail(users, email).Found? <==>
              exists i :: 0 <= i < |users| && users[i].email == email &&
                forall j :: 0 <= j < |users| && j != i ==> users[j].email != email
  {
    var matches := Filter(users, EmailIs(email));
    if i, j :| 0 <= i < j < |users| && users[i].email == email && users[j].email == email {
      FilterKeepsBothPositions(users, EmailIs(email), i, j);
    }
    if |matches| >= 2 {
      var idx := FilterEmbeds(users, EmailIs(email));
      assert users[idx[0]] == matches[0] && users[idx[1]] == matches[1];
      assert matches[0] in matches && matches[1] in matches;
    }
    if |matches| == 1 {
      var idx := FilterEmbeds(users, EmailIs(email));
      assert users[idx[0]] == matches[0] && matches[0] in matches;
      forall j | 0 <= j < |users| && j != idx[0]
        ensures users[j].email != email
      {
        if j < idx[0] {
          FilterKeepsBoth(users, EmailIs(email), j, idx[0]);
        } else {
          FilterKeepsBoth(users, EmailIs(email), idx[0], j);
        }
      }
    }
  }

  /** Without repeated emails, at most one row carries a given email. */
  lemma AtMostOneMatch(users: seq<User>, email: string)
    requires UniqueEmails(users)
    ensures |Filter(users, EmailIs(email))| <= 1
  {
    GetByEmailOutcomes(users, email);
  }

  /** In a table without repeated emails the lookup never throws, and what it
      finds is the one row with that email. */
  lemma UniqueEmailsNeverAmbiguous(users: seq<User>, email: string)
    requires UniqueEmails(users)
    ensures !GetByEmail(users, email).Ambiguous?
    ensures forall i :: 0 <= i < |users| && users[i].email == email ==> GetByEmail(users, email) == Found(users[i])
  {
    AtMostOneMatch(users, email);
  }

  /** `ValidateUserAsync`: an unknown email answers null (`NotFound`);
      a known one answers its user exactly when the password hashes to the
      stored hash, and null otherwise. A lookup that throws throws here too. */
  function ValidateUser(users: seq<User>, hash: string -> string, email: string, password: string): (r: Lookup)
    ensures r.Ambiguous? <==> GetByEmail(users, email).Ambiguous?
    ensures r.Found? ==> r.user in users && r.user.email == email && r.user.passwordHash == hash(password)
    ensures GetByEmail(users, email).NotFound? ==> r.NotFound?
    ensures GetByEmail(users, email).Found? ==>
              (r.Found? <==> hash(password) == GetByEmail(users, email).user.passwordHash)
  {
    match GetByEmail(users, email)
    case NotFound => NotFound
    case Ambiguous => Ambiguous
    case Found(user) => if hash(password) == user.passwordHash then Found(user) else NotFound
  }

  /** Any password that hashes differently from the stored one is refused. */
  lemma WrongPasswordIsRefused(users: seq<User>, hash: string -> string, email: string, password: string, u: User)
    requires UniqueEmails(users)
    requires u in users && u.email == email && hash(password) != u.passwordHash
    ensures ValidateUser(users, hash, email, password) == NotFound
  {
    var i :| 0 <= i < |users| && users[i] == u;
    UniqueEmailsNeverAmbiguous(users, email);
  }

  /** A user registered with an email that was free logs in with the same
      password afterwards, and is the only row with that email. */
  lemma RegisteredUserAuthenticates(users: seq<User>, hash: string -> string, email: string, password: string, role: string)
    requires GetByEmail(users, email).NotFound?
    ensures var saved := User(|users| + 1, email, hash(password), role);
            ValidateUser(users + [saved], hash, email, password) == Found(saved)
  {
    var saved := User(|users| + 1, email, hash(password), role);
    FilterAppend(users, [saved], EmailIs(email));
    assert Filter([saved], EmailIs(email)) == [saved] by {
      assert [saved][1..] == [];
    }
  }

  /** Adding a user whose email is free keeps the emails unique. */
  lemma AddingFreeEmailKeepsUnique(users: seq<User>, u: User)
    requires UniqueEmails(users)
    requires GetByEmail(users, u.email).NotFound?
    ensures UniqueEmails(users + [u])
  {
  }

  class UserService {
    var users: seq<User>
    const hash: string -> string

    /** The table never holds an email twice, since registration is the
        only way in. */
    ghost predicate Valid()
      reads this
    {
      UniqueEmails(users)
    }

    constructor (hash: string -> string)
      ensures Valid() && users == [] && this.hash == hash
    {
      this.users := [];
      this.hash := hash;
    }

    /** `RegisterAsync`: a taken email is refused and changes nothing;
        otherwise exactly one user is added, with the given email and role and
        the hash of the password, never the password itself. */
    method Register(email: string, password: string, role: string) returns (outcome: RegisterOutcome)
      requires Valid()
      modifies this
      ensures Valid()
      ensures GetByEmail(old(users), email).Found? ==>
                outcome == EmailAlreadyExists && users == old(users)
      ensures GetByEmail(old(users), email).NotFound? ==>
                && outcome == Registered(User(|old(users)| + 1, email, hash(password), role))
                && users == old(users) + [outcome.user]
    {
      UniqueEmailsNeverAmbiguous(users, email);
      var existing := GetByEmail(users, email);
      if !existing.NotFound? {
        return EmailAlreadyExists;
      }
      var user := User(|users| + 1, email, hash(password), role);
      AddingFreeEmailKeepsUnique(users, user);
      users := users + [user];
      return Registered(user);
    }
  }
}
