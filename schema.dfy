/** The stored entities: facilities (mosques), their meters, the cumulative
    meter readings and the users, each table keyed by an integer id. */
module Schema {
  import opened Tables
  import opened Calendar

  datatype Utility = Electricity | Water

  datatype Mosque = Mosque(name: string, location: string, capacity: int)

  datatype Meter = Meter(mosqueId: int, kind: Utility)

  /** One cumulative reading; `cost` is 0 when the reading was not priced. */
  datatype Reading = Reading(meterId: int, date: Date, value: real, cost: real)

  datatype User = User(username: string, passwordHash: string, role: string)

  /** A snapshot of the four tables. */
  datatype Db = Db(
    mosques: seq<Keyed<Mosque>>,
    meters: seq<Keyed<Meter>>,
    readings: seq<Keyed<Reading>>,
    users: seq<Keyed<User>>)

  /** Usernames are unique (the column is declared UNIQUE). */
  ghost predicate UniqueUsernames(users: seq<Keyed<User>>)
  {
    forall i, j :: 0 <= i < j < |users| ==> users[i].row.username != users[j].row.username
  }

  ghost predicate ValidDb(db: Db)
  {
    && WellFormed(db.mosques)
    && WellFormed(db.meters)
    && WellFormed(db.readings)
    && WellFormed(db.users)
    && UniqueUsernames(db.users)
  }
}
