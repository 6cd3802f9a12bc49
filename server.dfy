/**
 * The Auth0 strategy's verify callback: find-or-create a local user from a federated
 * profile and hand the principal `{ id }` to `done`.
 *
 * The callback's promise chain is modelled as sequential steps. Its possible endings are:
 *   - `Done(p)`: `done(null, p)` is called, with `p` holding only the local user id;
 *   - `Hung`: `done` is never called, because the lookup rejected, or because no row has
 *     the key and then either the profile lacks an email (whose access throws inside a
 *     `.then` handler) or the create rejected;
 *   - `Threw`: the database handle is not attached yet, or the profile has no identity,
 *     so `db.find_user(...)` or reading `identities[0].user_id` throws before any store
 *     query is issued.
 */
module Server {
  import opened Wrappers
  import opened UserTable

  datatype Identity = Identity(userId: string)
  datatype Email = Email(value: string)

  /** The parts of the provider profile that the callback reads. */
  datatype Profile = Profile(displayName: string, emails: seq<Email>, picture: string, identities: seq<Identity>)

  /** What the callback hands to `done`: the local id and nothing else. */
  datatype Principal = Principal(id: nat)

  datatype Outcome = Done(principal: Principal) | Hung | Threw

  /** Which of the two store queries reject on this call. */
  datatype StoreFaults = StoreFaults(lookupFails: bool, createFails: bool)

  const NoFaults := StoreFaults(false, false)

  datatype LoginResult = LoginResult(outcome: Outcome, table: Table)

  /** The lookup key of a profile: the id of its first provider identity. */
  function IdentityKey(p: Profile): string
    requires |p.identities| > 0
  {
    p.identities[0].userId
  }

  /** Some row of `rows` has identity id `key` and local id `id`. */
  ghost predicate HasUser(rows: seq<UserRow>, key: string, id: nat) {
    exists i :: 0 <= i < |rows| && rows[i].authId == key && rows[i].id == id
  }

  /**
   * The effect of one call of the verify callback on the user table `t`: its outcome
   * and the table afterwards.
   */
  function Login(t: Table, p: Profile, f: StoreFaults): (r: LoginResult)
    ensures |t.rows| <= |r.table.rows| <= |t.rows| + 1
    ensures r.table.rows[..|t.rows|] == t.rows
    ensures r.table.nextId >= t.nextId
    ensures r.outcome.Done? ==> |p.identities| > 0 && HasUser(r.table.rows, IdentityKey(p), r.outcome.principal.id)
    ensures !r.outcome.Done? ==> r.table == t
  {
    if |p.identities| == 0 then LoginResult(Threw, t)
    else
      var key := IdentityKey(p);
      if f.lookupFails then LoginResult(Hung, t)
      else
        var found := FindUserRows(t.rows, key);
        if |found| > 0 then
          assert found[0] in found;
          LoginResult(Done(Principal(found[0].id)), t)
        else if |p.emails| == 0 then LoginResult(Hung, t)
        else if f.createFails then LoginResult(Hung, t)
        else
          var created := CreateUserRow(t, p.displayName, p.emails[0].value, p.picture, key);
          assert created.0.rows[|t.rows|] == created.1[0];
          LoginResult(Done(Principal(created.1[0].id)), created.0)
  }

  /**
   * The verify callback against the store `db`, step by step. `db` is `null` while the
   * database connection has not yet resolved and attached its handle.
   */
  method VerifyCallback(db: UserStore?, profile: Profile, faults: StoreFaults) returns (outcome: Outcome)
    requires db != null ==> db.Valid()
    modifies db
    ensures db == null ==> outcome == Threw
    ensures db != null ==> db.Valid()
    ensures db != null ==> LoginResult(outcome, db.State()) == Login(old(db.State()), profile, faults)
  {
    if db == null || |profile.identities| == 0 {
      return Threw;
    }
    var key := profile.identities[0].userId;
    var user := db.FindUser(key, faults.lookupFails);
    if user.None? {
      return Hung;
    }
    if |user.value| > 0 {
      return Done(Principal(user.value[0].id));
    }
    if |profile.emails| == 0 {
      return Hung;
    }
    var created := db.CreateUser(profile.displayName, profile.emails[0].value, profile.picture, key, faults.createFails);
    if created.None? {
      return Hung;
    }
    return Done(Principal(created.value[0].id));
  }

  /**
   * A returning user, whatever the profile's emails and whether or not the create would
   * reject: the principal is the id of the first row the lookup returns and the table is
   * untouched. With unique identity ids that row is the user's own.
   */
  lemma ExistingUserFound(t: Table, p: Profile, f: StoreFaults, i: nat)
    requires !f.lookupFails
    requires |p.identities| > 0 && i < |t.rows| && t.rows[i].authId == IdentityKey(p)
    ensures FindUserRows(t.rows, IdentityKey(p)) != []
    ensures Login(t, p, f) == LoginResult(Done(Principal(FindUserRows(t.rows, IdentityKey(p))[0].id)), t)
    ensures UniqueAuthIds(t.rows) ==> Login(t, p, f) == LoginResult(Done(Principal(t.rows[i].id)), t)
  {
    assert t.rows[i] in FindUserRows(t.rows, IdentityKey(p));
    if UniqueAuthIds(t.rows) {
      FindUserRowsUnique(t.rows, i);
    }
  }

  /**
   * A first login: exactly one row is appended, built from the display name, the first
   * email, the picture and the identity id, and the principal is the new row's id.
   */
  lemma NewUserCreated(t: Table, p: Profile)
    requires |p.identities| > 0 && |p.emails| > 0
    requires forall j :: 0 <= j < |t.rows| ==> t.rows[j].authId != IdentityKey(p)
    ensures Login(t, p, NoFaults) == LoginResult(
      Done(Principal(t.nextId)),
      Table(t.rows + [UserRow(t.nextId, p.displayName, p.emails[0].value, p.picture, IdentityKey(p))], t.nextId + 1))
  {
    FindUserRowsNone(t.rows, IdentityKey(p));
  }

  /**
   * Logging in again with the same identity id returns the same principal and adds no
   * row, whatever the other profile fields now say. On a table that already holds several
   * rows with this identity id, this rests on `find_user` returning them in table order.
   */
  lemma {:induction false} LoginIdempotent(t: Table, p: Profile, q: Profile)
    requires Login(t, p, NoFaults).outcome.Done?
    requires |q.identities| > 0 && IdentityKey(q) == IdentityKey(p)
    ensures Login(Login(t, p, NoFaults).table, q, NoFaults) == Login(t, p, NoFaults)
  {
    var first := Login(t, p, NoFaults);
    var key := IdentityKey(p);
    var found := FindUserRows(t.rows, key);
    if |found| == 0 {
      var row := UserRow(t.nextId, p.displayName, p.emails[0].value, p.picture, key);
      FindUserRowsAppend(t.rows, [row], key);
      assert FindUserRows([row], key) == [row];
    }
  }

  /** The outcome depends on the identity id, never on the email address. */
  lemma KeyedByIdentity(t: Table, p: Profile, q: Profile, f: StoreFaults)
    requires |p.identities| > 0 && |q.identities| > 0 && IdentityKey(p) == IdentityKey(q)
    requires |p.emails| > 0 <==> |q.emails| > 0
    ensures Login(t, p, f).outcome == Login(t, q, f).outcome
  {
  }

  /** A rejected store query is never turned into a result: `done` is not called. */
  lemma StoreFaultHangs(t: Table, p: Profile, f: StoreFaults)
    requires |p.identities| > 0
    requires f.lookupFails || (f.createFails && FindUserRows(t.rows, IdentityKey(p)) == [])
    ensures Login(t, p, f) == LoginResult(Hung, t)
  {
  }

  /** The table stays a valid serial-keyed table with unique identity ids. */
  lemma {:induction false} LoginPreservesInvariants(t: Table, p: Profile, f: StoreFaults)
    requires TableValid(t) && UniqueAuthIds(t.rows)
    ensures TableValid(Login(t, p, f).table) && UniqueAuthIds(Login(t, p, f).table.rows)
  {
    var r := Login(t, p, f);
    if r.table != t {
      var key := IdentityKey(p);
      assert FindUserRows(t.rows, key) == [];
      forall j | 0 <= j < |t.rows| ensures t.rows[j].authId != key {
        assert t.rows[j] in t.rows;
      }
      assert r.table.rows == t.rows + [r.table.rows[|t.rows|]];
    }
  }
}
