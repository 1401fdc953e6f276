/**
 * The seeder that hashes every stored password that is not hashed yet. The hash
 * function is a parameter: a bcrypt hash whose salt is not modelled.
 */
module HashPasswordsSeeder {
  import opened Optional
  import opened Schema
  import Tables
  import Database

  /** The prefix of a bcrypt hash as PHP writes it. */
  const BcryptPrefix: string := "$2y$"

  /** `str_starts_with(password, '$2y$')`. */
  predicate IsHashed(password: string) {
    BcryptPrefix <= password
  }

  /** The user after one visit of the loop body. */
  function Rehash(u: User, hash: string -> string): (r: User)
    ensures r.id == u.id && r.name == u.name
    ensures IsHashed(u.password) ==> r == u
    ensures !IsHashed(u.password) ==> r.password == hash(u.password)
  {
    if IsHashed(u.password) then u else u.(password := hash(u.password))
  }

  /** The users table after the seeder: every user rehashed, in place. */
  function Rehashed(users: seq<User>, hash: string -> string): (r: seq<User>)
    ensures |r| == |users|
    ensures forall j :: 0 <= j < |users| ==> r[j].id == users[j].id && r[j].name == users[j].name
    ensures forall j :: 0 <= j < |users| && IsHashed(users[j].password) ==> r[j] == users[j]
    ensures forall j :: 0 <= j < |users| && !IsHashed(users[j].password) ==>
      r[j].password == hash(users[j].password)
    ensures (forall p :: IsHashed(hash(p))) ==> forall j :: 0 <= j < |r| ==> IsHashed(r[j].password)
  {
    seq(|users|, j requires 0 <= j < |users| => Rehash(users[j], hash))
  }

  /** `UPDATE users SET password = ? WHERE id = ?`. */
  function SetPassword(users: seq<User>, id: Id, password: string): (r: seq<User>)
    ensures |r| == |users|
    ensures forall j :: 0 <= j < |users| ==> r[j].id == users[j].id && r[j].name == users[j].name
    ensures forall x: Id :: x != id ==> FindUser(r, x) == FindUser(users, x)
    ensures FindUser(r, id).Some? <==> FindUser(users, id).Some?
    ensures FindUser(r, id).Some? ==> FindUser(r, id).value.password == password
  {
    var r := seq(|users|, j requires 0 <= j < |users| =>
      if users[j].id == id then users[j].(password := password) else users[j]);
    Tables.FindSameKeysEverywhere(r, users, UserKey);
    r
  }

  /** `SetPassword`'s definition unfolded row by row, for the loop invariant of `Run`:
      rows with the id get the new password, the others are kept. */
  lemma SetPasswordRows(users: seq<User>, id: Id, password: string)
    ensures var r := SetPassword(users, id, password);
      forall j :: 0 <= j < |users| ==>
        r[j] == if users[j].id == id then users[j].(password := password) else users[j]
  {
  }

  /** One loop iteration for the snapshot row `u`, applied to the current table. */
  function Step(table: seq<User>, u: User, hash: string -> string): seq<User> {
    if IsHashed(u.password) then table else SetPassword(table, u.id, hash(u.password))
  }

  /** The loop run over the snapshot rows `ops`, in the order given. */
  function RunOver(table: seq<User>, ops: seq<User>, hash: string -> string): (r: seq<User>)
    ensures |r| == |table|
    ensures forall j :: 0 <= j < |table| ==> r[j].id == table[j].id && r[j].name == table[j].name
    decreases |ops|
  {
    if ops == [] then table else RunOver(Step(table, ops[0], hash), ops[1..], hash)
  }

  /** What the loop over `ops` does to one row: the snapshot row with the same id, if
      any, decides whether and from what the password is rehashed. */
  function Effect(row: User, ops: seq<User>, hash: string -> string): User {
    match Tables.Find(ops, UserKey, row.id)
    case None => row
    case Some(k) =>
      if IsHashed(ops[k].password) then row else row.(password := hash(ops[k].password))
  }

  /** Updates to different ids do not interfere: each row of the result depends only
      on the snapshot row that shares its id. */
  lemma {:induction false} RunOverAt(table: seq<User>, ops: seq<User>, hash: string -> string, j: nat)
    requires Tables.Distinct(ops, UserKey) && j < |table|
    ensures |RunOver(table, ops, hash)| == |table|
    ensures RunOver(table, ops, hash)[j] == Effect(table[j], ops, hash)
    decreases |ops|
  {
    if ops != [] {
      var o := ops[0];
      var next := Step(table, o, hash);
      assert Tables.Distinct(ops[1..], UserKey);
      RunOverAt(next, ops[1..], hash, j);
      assert forall i :: 1 <= i < |ops| ==> ops[i] == ops[1..][i - 1];
      if table[j].id == o.id {
        assert Tables.Find(ops, UserKey, table[j].id) == Some(0);
        assert Tables.Find(ops[1..], UserKey, next[j].id).None?;
      } else {
        assert next[j] == table[j];
        match Tables.Find(ops[1..], UserKey, table[j].id)
        case None =>
        case Some(k) =>
          assert ops[k + 1] == ops[1..][k];
      }
    }
  }

  /** Running the loop over the snapshot of the table rehashes every user once. */
  lemma RunOverSnapshot(users: seq<User>, hash: string -> string)
    requires Tables.Distinct(users, UserKey)
    ensures RunOver(users, users, hash) == Rehashed(users, hash)
  {
    var r := RunOver(users, users, hash);
    forall j | 0 <= j < |users| ensures r[j] == Rehash(users[j], hash) {
      RunOverAt(users, users, hash, j);
      Tables.FindUnique(users, UserKey, j);
    }
  }

  /** Visiting the snapshot rows in any order gives the same table. */
  lemma OrderIndependent(users: seq<User>, ops: seq<User>, hash: string -> string)
    requires Tables.Distinct(users, UserKey) && Tables.Distinct(ops, UserKey)
    requires forall u :: u in ops <==> u in users
    ensures RunOver(users, ops, hash) == Rehashed(users, hash)
  {
    var r := RunOver(users, ops, hash);
    forall j | 0 <= j < |users| ensures r[j] == Rehash(users[j], hash) {
      RunOverAt(users, ops, hash, j);
      assert users[j] in ops;
      var m :| 0 <= m < |ops| && ops[m] == users[j];
      Tables.FindUnique(ops, UserKey, m);
    }
  }

  /** When every hash starts with "$2y$", a second run changes nothing. */
  lemma {:induction false} RunTwiceIsRunOnce(users: seq<User>, hash: string -> string)
    requires forall p :: IsHashed(hash(p))
    ensures Rehashed(Rehashed(users, hash), hash) == Rehashed(users, hash)
  {
    var once := Rehashed(users, hash);
    forall j | 0 <= j < |users| ensures Rehash(once[j], hash) == once[j] {
      assert IsHashed(once[j].password);
    }
  }

  /** `run`: walks a snapshot of the users table and rewrites, by id, each password
      that does not start with "$2y$". Ids, names and the other tables stay as they are. */
  method Run(db: Database.Db, hash: string -> string)
    requires db.Valid()
    modifies db
    ensures db.Valid()
    ensures db.users == Rehashed(old(db.users), hash)
    ensures db.articles == old(db.articles) && db.comments == old(db.comments)
    ensures db.nextArticleId == old(db.nextArticleId) && db.nextCommentId == old(db.nextCommentId)
  {
    var snapshot := db.users;
    Tables.IncreasingIsDistinct(snapshot, UserKey);
    for i := 0 to |snapshot|
      invariant |db.users| == |snapshot|
      invariant forall j :: 0 <= j < |snapshot| ==>
        db.users[j] == if j < i then Rehash(snapshot[j], hash) else snapshot[j]
      invariant db.articles == old(db.articles) && db.comments == old(db.comments)
      invariant db.nextArticleId == old(db.nextArticleId) && db.nextCommentId == old(db.nextCommentId)
    {
      var user := snapshot[i];
      if !IsHashed(user.password) {
        SetPasswordRows(db.users, user.id, hash(user.password));
        db.users := SetPassword(db.users, user.id, hash(user.password));
      }
    }
    assert db.users == Rehashed(snapshot, hash);
    forall i | 0 <= i < |snapshot| ensures db.users[i].id == snapshot[i].id { }
    Tables.FindSameKeysEverywhere(db.users, snapshot, UserKey);
  }
}
