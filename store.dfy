/**
 * The pinhole measurement table: the record `findPinhole` builds, the table
 * keyed by image name that the database session stands for, and the mapped
 * schema the record is constructed against.
 */
module PinholeDb {
  import opened Common

  /** A FITS header value: a number or a string. */
  datatype HeaderValue = Num(x: real) | Text(s: string)

  /** One pinhole measurement, with the fields `findPinhole` supplies. */
  datatype Measurement = Measurement(
    imagename: string,
    instrument: string,
    altitude: HeaderValue,
    azimut: HeaderValue,
    xcenter: Option<real>,
    ycenter: Option<real>,
    dateobs: string,
    foctemp: real,
    telescopeidentifier: string,
    crpix1: int,
    crpix2: int)

  /** A table keyed by image name, the primary key of the mapped class. */
  type Table = map<string, Measurement>

  /** Every row is filed under its own image name. */
  ghost predicate Keyed(t: Table) {
    forall k :: k in t ==> t[k].imagename == k
  }

  /** `session.merge(m)`: insert, or replace the row with the same primary key. */
  function Upsert(t: Table, m: Measurement): (r: Table)
    ensures m.imagename in r && r[m.imagename] == m
    ensures r.Keys == t.Keys + {m.imagename}
    ensures forall k :: k in t && k != m.imagename ==> r[k] == t[k]
  {
    t[m.imagename := m]
  }

  lemma UpsertKeepsKeyed(t: Table, m: Measurement)
    requires Keyed(t)
    ensures Keyed(Upsert(t, m))
  {
  }

  /**
   * The database session: committed rows and rows merged since the last
   * commit. Sessions are made with autoflush off, so a query sees only the
   * committed rows.
   */
  class Store {
    var rows: Table
    var pending: Table

    ghost predicate Valid()
      reads this
    {
      Keyed(rows) && Keyed(pending)
    }

    constructor (committed: Table)
      requires Keyed(committed)
      ensures Valid()
      ensures rows == committed && pending == map[]
    {
      rows := committed;
      pending := map[];
    }

    /** `doesRecordExists`: is a row with this primary key committed? */
    method RecordExists(filename: string) returns (b: bool)
      ensures b <==> filename in rows
    {
      b := filename in rows;
    }

    /** `session.merge(m)`; `fails` stands for an error the session raises. */
    method Merge(m: Measurement, fails: bool)
      requires Valid()
      modifies this
      ensures Valid()
      ensures rows == old(rows)
      ensures pending == if fails then old(pending) else Upsert(old(pending), m)
    {
      if !fails {
        pending := Upsert(pending, m);
      }
    }

    /** `session.commit()`; `fails` stands for an error the database raises,
        which leaves the committed rows as they were. */
    method Commit(fails: bool) returns (ok: bool)
      requires Valid()
      modifies this
      ensures Valid()
      ensures ok == !fails
      ensures ok ==> rows == old(rows) + old(pending) && pending == map[]
      ensures !ok ==> rows == old(rows) && pending == old(pending)
    {
      if fails {
        return false;
      }
      rows := rows + pending;
      pending := map[];
      return true;
    }
  }

  // ---------------------------------------------------------------------------
  // The mapped class and its declarative constructor

  /** The columns `PinholeMeasurement` declares. */
  const DeclaredColumns: set<string> :=
    {"imagename", "instrument", "altitude", "azimut", "xcenter", "ycenter", "dateobs", "foctemp"}

  /** The declared columns plus the three `findPinhole` also supplies. */
  const ExtendedColumns: set<string> := DeclaredColumns + {"telescopeidentifier", "crpix1", "crpix2"}

  /** The keyword arguments `findPinhole` passes, in order. */
  const SuppliedKeywords: seq<string> :=
    ["imagename", "instrument", "altitude", "azimut", "xcenter", "ycenter", "dateobs", "foctemp",
     "telescopeidentifier", "crpix1", "crpix2"]

  datatype Construction = Built | TypeError(keyword: string)

  /** The declarative base's constructor: keywords are taken in order, and the
      first one that is not a mapped attribute raises `TypeError`. */
  function Construct(columns: set<string>, keywords: seq<string>): (r: Construction)
    ensures r.Built? <==> forall i :: 0 <= i < |keywords| ==> keywords[i] in columns
    ensures r.TypeError? ==> r.keyword !in columns
    decreases |keywords|
  {
    if |keywords| == 0 then Built
    else if keywords[0] !in columns then TypeError(keywords[0])
    else
      var rest := Construct(columns, keywords[1..]);
      assert forall i :: 1 <= i < |keywords| ==> keywords[i] == keywords[1..][i - 1];
      rest
  }

  /** The keyword reported is the first unmapped one. */
  lemma {:induction false} ConstructReportsFirst(columns: set<string>, keywords: seq<string>, n: nat)
    requires n < |keywords| && keywords[n] !in columns
    requires forall j :: 0 <= j < n ==> keywords[j] in columns
    ensures Construct(columns, keywords) == TypeError(keywords[n])
    decreases n
  {
    if n > 0 {
      ConstructReportsFirst(columns, keywords[1..], n - 1);
    }
  }

  /** As declared, the schema refuses the record `findPinhole` builds: the
      ninth keyword, `telescopeidentifier`, is not a column. */
  lemma DeclaredSchemaRejectsRecord()
    ensures Construct(DeclaredColumns, SuppliedKeywords) == TypeError("telescopeidentifier")
  {
    ConstructReportsFirst(DeclaredColumns, SuppliedKeywords, 8);
  }

  /** With the three extra columns every supplied keyword is mapped, so the
      record is built. */
  lemma ExtendedSchemaAcceptsRecord()
    ensures Construct(ExtendedColumns, SuppliedKeywords) == Built
  {
  }
}
