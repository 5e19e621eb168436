/**
 * The user table: rows keyed by an auto-incremented id, with the email as a unique
 * column. A user without its password is what leaves the server.
 */
module Users {
  import opened Wrappers
  import opened Tables

  datatype User = User(id: nat, name: string, email: string, password: string, createdAt: int, updatedAt: int)

  /** A user with the password field taken out: `const { password, ...safeUser } = user`. */
  datatype SafeUser = SafeUser(id: nat, name: string, email: string, createdAt: int, updatedAt: int)

  function WithoutPassword(u: User): (s: SafeUser)
    ensures s.id == u.id && s.name == u.name && s.email == u.email
    ensures s.createdAt == u.createdAt && s.updatedAt == u.updatedAt
  {
    SafeUser(u.id, u.name, u.email, u.createdAt, u.updatedAt)
  }

  /** Two users look the same once the password is removed exactly when they differ at most in their passwords. */
  lemma WithoutPasswordForgets(u: User, v: User)
    ensures WithoutPassword(u) == WithoutPassword(v) <==> u.(password := v.password) == v
  {
  }

  /** No two users share an email. */
  predicate UniqueEmails(rows: map<nat, User>)
  {
    forall i, j :: i in rows && j in rows && rows[i].email == rows[j].email ==> i == j
  }

  /** What `create` on the user table gives: the new row, or the unique-constraint error (P2002). */
  datatype CreateOutcome = Inserted(user: User) | UniqueViolation

  datatype UserTable = UserTable(rows: map<nat, User>, nextId: nat) {

    predicate Valid()
    {
      && (forall id :: id in rows ==> 1 <= id < nextId && rows[id].id == id)
      && UniqueEmails(rows)
      && nextId >= 1
    }

    function Rows(): seq<User>
    {
      Ascending(rows, nextId)
    }

    /** The sequence view holds exactly the stored users. */
    lemma RowsMembers()
      requires Valid()
      ensures forall x :: x in Rows() <==> x.id in rows && rows[x.id] == x
    {
      forall x ensures x in Rows() <==> x.id in rows && rows[x.id] == x {
        AscendingMembers(rows, nextId, x);
      }
    }

    /** `findUnique({ where: { email } })`. */
    function ByEmail(email: string): (r: Option<User>)
      requires Valid()
      ensures r.Some? ==> r.value.id in rows && rows[r.value.id] == r.value && r.value.email == email
      ensures r.None? ==> forall id :: id in rows ==> rows[id].email != email
    {
      RowsMembers();
      FirstWhere(Rows(), (u: User) => u.email == email)
    }

    /**
     * `create({ data: { name, email, password } })` at time `now`: a new row under the
     * next id, or P2002 when the email is taken, with the table unchanged.
     */
    function Create(name: string, email: string, password: string, now: int): (r: (CreateOutcome, UserTable))
      requires Valid()
      ensures r.1.Valid()
      ensures r.0.UniqueViolation? <==> exists id :: id in rows && rows[id].email == email
      ensures r.0.UniqueViolation? ==> r.1 == this
      ensures r.0.Inserted? ==>
        && r.0.user == User(nextId, name, email, password, now, now)
        && nextId !in rows
        && r.1.rows == rows[nextId := r.0.user]
        && r.1.nextId == nextId + 1
    {
      if exists id :: id in rows && rows[id].email == email then (UniqueViolation, this)
      else
        var u := User(nextId, name, email, password, now, now);
        (Inserted(u), UserTable(rows[nextId := u], nextId + 1))
    }
  }

  /** A created user can be found by the email it was created with. */
  lemma CreateThenByEmail(t: UserTable, name: string, email: string, password: string, now: int)
    requires t.Valid()
    requires t.Create(name, email, password, now).0.Inserted?
    ensures var (r, t') := t.Create(name, email, password, now);
      t'.ByEmail(email) == Some(r.user)
  {
    var (r, t') := t.Create(name, email, password, now);
    var found := t'.ByEmail(email);
    assert t'.rows[t.nextId].email == email;
    assert found.Some?;
  }

  /** An empty user table. */
  const NoUsers := UserTable(map[], 1)

  /** The store's `prisma.user` delegate. */
  class UserStore {
    var rows: map<nat, User>
    var nextId: nat

    function Snapshot(): UserTable
      reads this
    {
      UserTable(rows, nextId)
    }

    predicate Valid()
      reads this
    {
      Snapshot().Valid()
    }

    constructor ()
      ensures Valid() && Snapshot() == NoUsers
    {
      rows := map[];
      nextId := 1;
    }

    method FindUniqueByEmail(email: string) returns (r: Option<User>)
      requires Valid()
      ensures r == Snapshot().ByEmail(email)
    {
      r := Snapshot().ByEmail(email);
    }

    method FindUniqueById(id: int) returns (r: Option<User>)
      ensures r == ById(Snapshot().rows, id)
    {
      r := ById(Snapshot().rows, id);
    }

    method Create(name: string, email: string, password: string, now: int) returns (r: CreateOutcome)
      requires Valid()
      modifies this
      ensures Valid()
      ensures (r, Snapshot()) == old(Snapshot()).Create(name, email, password, now)
    {
      if exists id :: id in rows && rows[id].email == email {
        return UniqueViolation;
      }
      var u := User(nextId, name, email, password, now, now);
      rows := rows[nextId := u];
      nextId := nextId + 1;
      r := Inserted(u);
    }
  }
}
