/** The store operations of `utils.py` over the four tables. Each one is a
    single transaction; SQLite does not enforce the foreign keys, so adding
    a reading or a meter checks nothing, and deleting cascades to nothing. */
module ReadingStore {
  import opened Wrappers
  import opened Tables
  import opened Calendar
  import opened Schema
  import opened CsvImport
  import Consumption

  /** Position `i` holds the first user named `username`. */
  ghost predicate FirstNamed(users: seq<Keyed<User>>, username: string, i: int)
  {
    && 0 <= i < |users|
    && users[i].row.username == username
    && forall j :: 0 <= j < i ==> users[j].row.username != username
  }

  /** `u` is the first user named `username`. */
  ghost predicate FirstMatch(users: seq<Keyed<User>>, username: string, u: Keyed<User>)
  {
    exists i :: FirstNamed(users, username, i) && users[i] == u
  }

  /** The user lookup by name: the first user in table order with that name. */
  function FindUser(users: seq<Keyed<User>>, username: string): (r: Option<Keyed<User>>)
    ensures r.Some? ==> r.value in users && r.value.row.username == username
    ensures r.Some? ==> FirstMatch(users, username, r.value)
    ensures r.None? <==> forall i :: 0 <= i < |users| ==> users[i].row.username != username
  {
    if users == [] then None
    else if users[0].row.username == username then
      assert FirstNamed(users, username, 0) && users[0] == users[0];
      Some(users[0])
    else
      var r := FindUser(users[1..], username);
      if r.None? then r
      else
        FirstNamedCons(users, username, r.value);
        r
  }

  lemma FirstNamedCons(users: seq<Keyed<User>>, username: string, u: Keyed<User>)
    requires users != [] && users[0].row.username != username
    requires FirstMatch(users[1..], username, u)
    ensures FirstMatch(users, username, u)
  {
    var i :| FirstNamed(users[1..], username, i) && users[1..][i] == u;
    forall j | 0 < j < i + 1 ensures users[j].row.username != username {
      assert users[j] == users[1..][j - 1];
    }
    assert FirstNamed(users, username, i + 1);
  }

  /** `get_meters(mosque_id)`: the meters of one mosque, in table order. */
  function MetersOf(meters: seq<Keyed<Meter>>, mosqueId: int): (r: seq<Keyed<Meter>>)
    ensures forall i :: 0 <= i < |r| ==> r[i] in meters && r[i].row.mosqueId == mosqueId
    ensures forall i :: 0 <= i < |meters| && meters[i].row.mosqueId == mosqueId ==> meters[i] in r
  {
    if meters == [] then []
    else (if meters[0].row.mosqueId == mosqueId then [meters[0]] else []) + MetersOf(meters[1..], mosqueId)
  }

  class Store {
    /** `hash_password`: SHA-256 of the password, as hex text. */
    const hash: string -> string
    var mosques: seq<Keyed<Mosque>>
    var meters: seq<Keyed<Meter>>
    var readings: seq<Keyed<Reading>>
    var users: seq<Keyed<User>>

    function Snapshot(): Db
      reads this
    {
      Db(mosques, meters, readings, users)
    }

    ghost predicate Valid()
      reads this
    {
      ValidDb(Snapshot())
    }

    constructor(hash: string -> string)
      ensures Valid()
      ensures this.hash == hash
      ensures mosques == [] && meters == [] && readings == [] && users == []
    {
      this.hash := hash;
      mosques, meters, readings, users := [], [], [], [];
    }

    /** `add_reading`: one new row. */
    method AddReading(meterId: int, date: Date, value: real, cost: real) returns (ok: bool)
      requires Valid()
      modifies this
      ensures Valid() && ok
      ensures readings == Insert(old(readings), Reading(meterId, date, value, cost))
      ensures Rows(readings) == Rows(old(readings)) + [Reading(meterId, date, value, cost)]
      ensures mosques == old(mosques) && meters == old(meters) && users == old(users)
    {
      InsertWellFormed(readings, Reading(meterId, date, value, cost));
      readings := Insert(readings, Reading(meterId, date, value, cost));
      ok := true;
    }

    /** `create_mosque`. */
    method CreateMosque(name: string, location: string, capacity: int) returns (ok: bool)
      requires Valid()
      modifies this
      ensures Valid() && ok
      ensures mosques == Insert(old(mosques), Mosque(name, location, capacity))
      ensures Find(mosques, NextId(old(mosques))) == Some(Mosque(name, location, capacity))
      ensures meters == old(meters) && readings == old(readings) && users == old(users)
    {
      var m := Mosque(name, location, capacity);
      InsertWellFormed(mosques, m);
      FindAppended(mosques, m);
      mosques := Insert(mosques, m);
      ok := true;
    }

    /** `delete_mosque`: only the mosque row goes; its meters stay, but no
        reading of theirs joins any more. */
    method DeleteMosque(mosqueId: int) returns (ok: bool)
      requires Valid()
      modifies this
      ensures Valid() && ok
      ensures mosques == Delete(old(mosques), mosqueId)
      ensures Find(mosques, mosqueId) == None
      ensures forall r :: r in Consumption.Join(Snapshot()) ==> r.mosqueId != mosqueId
      ensures meters == old(meters) && readings == old(readings) && users == old(users)
    {
      DeleteWellFormed(mosques, mosqueId);
      mosques := Delete(mosques, mosqueId);
      ok := true;
    }

    /** `create_meter`. */
    method CreateMeter(mosqueId: int, kind: Utility) returns (ok: bool)
      requires Valid()
      modifies this
      ensures Valid() && ok
      ensures meters == Insert(old(meters), Meter(mosqueId, kind))
      ensures Find(meters, NextId(old(meters))) == Some(Meter(mosqueId, kind))
      ensures mosques == old(mosques) && readings == old(readings) && users == old(users)
    {
      InsertWellFormed(meters, Meter(mosqueId, kind));
      FindAppended(meters, Meter(mosqueId, kind));
      meters := Insert(meters, Meter(mosqueId, kind));
      ok := true;
    }

    /** `delete_meter`: only the meter row goes; its readings stay in the
        table but drop out of the join. */
    method DeleteMeter(meterId: int) returns (ok: bool)
      requires Valid()
      modifies this
      ensures Valid() && ok
      ensures meters == Delete(old(meters), meterId)
      ensures Find(meters, meterId) == None
      ensures forall r :: r in Consumption.Join(Snapshot()) ==> r.meterId != meterId
      ensures mosques == old(mosques) && readings == old(readings) && users == old(users)
    {
      DeleteWellFormed(meters, meterId);
      meters := Delete(meters, meterId);
      ok := true;
    }

    /** `create_user`: refused when the name is taken; otherwise one new
        user with the hashed password, who can then log in. */
    method CreateUser(username: string, password: string, role: string) returns (created: bool)
      requires Valid()
      modifies this
      ensures Valid()
      ensures created <==> forall i :: 0 <= i < |old(users)| ==> old(users)[i].row.username != username
      ensures created ==> users == Insert(old(users), User(username, hash(password), role))
      ensures !created ==> users == old(users)
      ensures created ==> LoginUser(username, password) == Some(Keyed(NextId(old(users)), User(username, hash(password), role)))
      ensures mosques == old(mosques) && meters == old(meters) && readings == old(readings)
    {
      var found := FindUser(users, username);
      if found.Some? {
        assert found.value in users && found.value.row.username == username;
        return false;
      }
      assert forall i :: 0 <= i < |users| ==> users[i].row.username != username;
      var u := User(username, hash(password), role);
      InsertWellFormed(users, u);
      InsertUnique(users, u);
      FindUserAppended(users, u);
      var db := Snapshot();
      users := Insert(users, u);
      assert Snapshot() == db.(users := users);
      created := true;
    }

    /** `login_user`: the first user with that name, if the password's hash
        matches the stored one. */
    function LoginUser(username: string, password: string): (r: Option<Keyed<User>>)
      reads this
      ensures r.Some? ==> r.value in users && r.value.row.username == username
                          && r.value.row.passwordHash == hash(password)
      ensures r.Some? ==> FirstMatch(users, username, r.value)
    {
      match FindUser(users, username)
      case None => None
      case Some(u) => if hash(password) == u.row.passwordHash then Some(u) else None
    }

    /** `process_csv_upload`: all rows or none. */
    method ProcessCsvUpload(upload: Result<Frame, string>, p: CellParsers) returns (ok: bool, msg: string)
      requires Valid()
      modifies this
      ensures Valid()
      ensures ok <==> Upload(upload, p).Success?
      ensures ok ==> readings == InsertAll(old(readings), Upload(upload, p).value)
                     && msg == SuccessMessage(|Upload(upload, p).value|)
      ensures !ok ==> readings == old(readings) && msg == Upload(upload, p).error
      ensures mosques == old(mosques) && meters == old(meters) && users == old(users)
    {
      if upload.Failure? {
        return false, upload.error;
      }
      var t := upload.value;
      if !HasRequired(t) {
        return false, MissingColumns;
      }
      FrameHasCells(t);
      var batch := BuildBatch(t.rows, "cost" in t.columns, p);
      if batch.Failure? {
        return false, batch.error;
      }
      InsertAllWellFormed(readings, batch.value);
      readings := InsertAll(readings, batch.value);
      return true, SuccessMessage(|batch.value|);
    }
  }

  // ---- Helpers about the tables ------------------------------------------

  lemma FindAppended<T>(t: seq<Keyed<T>>, x: T)
    requires WellFormed(t)
    ensures Find(Insert(t, x), NextId(t)) == Some(x)
  {
    FindSnoc(t, Keyed(NextId(t), x));
  }

  lemma {:induction false} FindSnoc<T>(t: seq<Keyed<T>>, k: Keyed<T>)
    requires forall i :: 0 <= i < |t| ==> t[i].id != k.id
    ensures Find(t + [k], k.id) == Some(k.row)
  {
    if t != [] {
      assert (t + [k])[1..] == t[1..] + [k];
      FindSnoc(t[1..], k);
    }
  }

  /** A user whose name no one has keeps the names unique. */
  lemma InsertUnique(users: seq<Keyed<User>>, u: User)
    requires UniqueUsernames(users)
    requires forall i :: 0 <= i < |users| ==> users[i].row.username != u.username
    ensures UniqueUsernames(Insert(users, u))
  {
    var t := Insert(users, u);
    forall i, j | 0 <= i < j < |t| ensures t[i].row.username != t[j].row.username {
      assert t[i] == users[i];
      if j < |users| {
        assert t[j] == users[j];
      }
    }
  }

  lemma {:induction false} FindUserAppended(users: seq<Keyed<User>>, u: User)
    requires forall i :: 0 <= i < |users| ==> users[i].row.username != u.username
    ensures FindUser(Insert(users, u), u.username) == Some(Keyed(NextId(users), u))
  {
    FindUserSnoc(users, Keyed(NextId(users), u));
  }

  lemma {:induction false} FindUserSnoc(users: seq<Keyed<User>>, k: Keyed<User>)
    requires forall i :: 0 <= i < |users| ==> users[i].row.username != k.row.username
    ensures FindUser(users + [k], k.row.username) == Some(k)
  {
    if users != [] {
      assert (users + [k])[1..] == users[1..] + [k];
      FindUserSnoc(users[1..], k);
    }
  }

  /** With unique names, login succeeds exactly for a stored name whose
      stored hash is the password's. */
  lemma LoginComplete(s: Store, username: string, password: string)
    requires s.Valid()
    ensures s.LoginUser(username, password).Some? <==>
              exists i :: 0 <= i < |s.users| && s.users[i].row.username == username
                          && s.users[i].row.passwordHash == s.hash(password)
  {
    var users := s.users;
    if exists i :: 0 <= i < |users| && users[i].row.username == username
                   && users[i].row.passwordHash == s.hash(password) {
      var i :| 0 <= i < |users| && users[i].row.username == username
               && users[i].row.passwordHash == s.hash(password);
      var u := FindUser(users, username).value;
      var j :| 0 <= j < |users| && users[j] == u;
      assert users[i].row.username == users[j].row.username;
      assert i == j;
    }
  }
}
