/**
 * The versioned-sync walk-through: a table with a version column, a cold
 * counter and an empty table, four inserts, a pull from watermark 0, a soft
 * delete, and a pull from the first watermark.
 */
module Scenario {

  import opened Store
  import opened Entity
  import opened Query

  /** An insert on a warm counter takes the next stamp, whatever the generator yields. */
  method WarmInsert(rd: Redis, db: Db, d: Data, rec: Record, id: string) returns (r: string)
    requires d.Version != "" && id != "" && rd.Counter(d.VersionKey()) > 0
    modifies rd, db
    ensures rd.Counter(d.VersionKey()) == old(rd.Counter(d.VersionKey())) + 1
  {
    assert ChosenId(db.Rows(d.Table).Keys, (n: nat) => id) == id;
    r := d.Insert(rd, db, rec, (n: nat) => id, true, true);
  }

  /** An insert into an empty table on a cold counter takes stamp 1. */
  method ColdInsert(rd: Redis, db: Db, d: Data, rec: Record, id: string) returns (r: string)
    requires d.Version != "" && id != "" && rd.Counter(d.VersionKey()) == 0 && db.Rows(d.Table) == map[]
    modifies rd, db
    ensures rd.Counter(d.VersionKey()) == 1
  {
    assert Versions(map[], d.Version) == {};
    assert ChosenId(db.Rows(d.Table).Keys, (n: nat) => id) == id;
    r := d.Insert(rd, db, rec, (n: nat) => id, true, true);
  }

  /** A soft delete on a warm counter takes the next stamp. */
  method WarmDelete(rd: Redis, db: Db, d: Data, id: string) returns (ok: bool)
    requires d.Version != "" && id != "" && d.Deleted != d.Id && rd.Counter(d.VersionKey()) > 0
    modifies rd, db
    ensures rd.Counter(d.VersionKey()) == old(rd.Counter(d.VersionKey())) + 1
  {
    assert IdOf(DeleteRecord(d.Deleted, d.Id, id), d.Id) == id;
    ok := d.Delete(rd, db, id, true, true);
  }

  /** A successful pull behind a warm counter reports the counter. */
  method Pull(rd: Redis, db: Db, d: Data, where: string, minVersion: nat) returns (v: nat)
    requires minVersion < rd.Counter(d.VersionKey())
    ensures v == rd.Counter(d.VersionKey())
  {
    var list := new List(d);
    list := list.Where(where, []);
    var sent;
    v, sent := list.QueryByVersion(rd, db, SliceTarget, minVersion, 0, true, true, true);
  }

  /** The first pull reports 4 (one stamp per insert); the pull after the delete reports 5. */
  method VersionSync() returns (first: nat, second: nat)
    ensures first == 4 && second == 5
  {
    var rd := new Redis(map[]);
    var db := new Db(map[]);
    var d := NewDataWithVersion("d2", "id,name");
    var r := ColdInsert(rd, db, d, map["type" := Str("A"), "name" := Str("1")], "i1");
    r := WarmInsert(rd, db, d, map["type" := Str("B"), "name" := Str("2")], "i2");
    r := WarmInsert(rd, db, d, map["type" := Str("A"), "name" := Str("11")], "i3");
    r := WarmInsert(rd, db, d, map["type" := Str("A"), "name" := Str("111")], "i4");
    first := Pull(rd, db, d, "`type`='A'", 0);
    var ok := WarmDelete(rd, db, d, "i4");
    second := Pull(rd, db, d, "`type`='A'", first);
  }
}
