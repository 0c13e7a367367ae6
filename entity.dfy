/**
 * One logical table of the versioned record store (the `Data` type): its
 * descriptor, the per-table version counter, and the point writes that stamp
 * soft-delete and version metadata into the rows they send.
 */
module Entity {

  import opened Wrappers
  import opened Text
  import opened Fields
  import opened Store

  /** Insert asks the id generator at most this many times. */
  const MaxIdAttempts: nat := 10000

  /** The counter cache key of a table is this prefix followed by the table name. */
  const VersionKeyPrefix: string := "_DATA_VERSION_"

  // ------------------------------------------------------------------
  // Table descriptor

  /**
   * The default projection NewDataBy leaves behind: the normalised list, with
   * ",`<deleted>`" appended when the table is versioned, has a delete flag,
   * and the list ALREADY names that column.
   */
  function Projection(fields: string, deleted: string, version: string): (r: string)
    requires fields != ""
    ensures QuotedFields(fields) <= r
  {
    var f := QuotedFields(fields);
    if version != "" && deleted != "" && f != "" && Contains(f, Quote(deleted)) then f + "," + Quote(deleted)
    else f
  }

  /** The delete column is appended exactly under the three conditions; otherwise the list is only normalised. */
  lemma ProjectionAppendsIff(fields: string, deleted: string, version: string)
    requires fields != ""
    ensures Projection(fields, deleted, version) == QuotedFields(fields)
            || Projection(fields, deleted, version) == QuotedFields(fields) + "," + Quote(deleted)
    ensures Projection(fields, deleted, version) != QuotedFields(fields)
            <==> version != "" && deleted != "" && Contains(QuotedFields(fields), Quote(deleted))
  {
    var f := QuotedFields(fields);
    if version != "" && deleted != "" && Contains(f, Quote(deleted)) {
      assert |f + "," + Quote(deleted)| > |f|;
    }
  }

  /** An unversioned table never gets the delete column appended. */
  lemma UnversionedProjection(fields: string, deleted: string)
    requires fields != ""
    ensures Projection(fields, deleted, "") == QuotedFields(fields)
  {
  }

  /** When the column is appended it is then named twice in the projection. */
  lemma ProjectionRepeatsDeleted(fields: string, deleted: string, version: string)
    requires fields != "" && version != "" && deleted != ""
    requires Contains(QuotedFields(fields), Quote(deleted))
    ensures var p := Projection(fields, deleted, version);
            exists i: nat, j: nat :: i < j && MatchAt(p, Quote(deleted), i) && MatchAt(p, Quote(deleted), j)
  {
    var f := QuotedFields(fields);
    var q := Quote(deleted);
    var p := f + "," + q;
    assert Projection(fields, deleted, version) == p;
    var i := IndexOf(f, q).value;
    assert MatchAt(f, q, i);
    assert p[i..i + |q|] == f[i..i + |q|];
    assert MatchAt(p, q, i);
    assert p[|f| + 1..|f| + 1 + |q|] == q;
    assert MatchAt(p, q, |f| + 1);
  }

  // ------------------------------------------------------------------
  // Version counter

  /**
   * The stamp getVersion hands out, given the counter before INCR (0 when
   * absent) and MAX(version) of the table: the incremented counter when it
   * exceeds 1, otherwise the table maximum plus one. The counter is left
   * equal to the stamp in both cases.
   */
  function NextVersion(counter: int, dbMax: nat): (v: int)
    ensures v >= 1 && v > counter
    ensures counter <= 0 || counter >= dbMax ==> v > dbMax
  {
    if counter + 1 > 1 then counter + 1 else dbMax + 1
  }

  /** Two stamps in a row with nothing in between are consecutive. */
  lemma SuccessiveVersions(counter: int, dbMax1: nat, dbMax2: nat)
    ensures NextVersion(NextVersion(counter, dbMax1), dbMax2) == NextVersion(counter, dbMax1) + 1
  {
  }

  /** The counter is at or above every version stored in the table. */
  predicate CounterCovers(counter: int, rows: map<string, Record>, field: string) {
    forall k :: k in rows ==> VersionOf(rows[k], field) <= counter
  }

  /**
   * From a covering counter, the next stamp is above every stored version,
   * whatever MAX(version) read as (even 0 after a failed query).
   */
  lemma FreshStampAboveAll(counter: int, rows: map<string, Record>, field: string, dbMax: nat)
    requires CounterCovers(counter, rows, field)
    ensures forall k :: k in rows ==> VersionOf(rows[k], field) < NextVersion(counter, dbMax)
  {
  }

  /** On a cold counter a failed MAX query stamps 1, whatever the table holds. */
  lemma ColdFailedReadStampsOne(counter: int, rows: map<string, Record>, field: string)
    requires counter <= 0
    ensures NextVersion(counter, MaxRead(rows, field, false)) == 1
  {
  }

  // ------------------------------------------------------------------
  // Write payloads

  /** The id generator's answer is already a stored primary key (the probe finds a row). */
  predicate Taken(ids: set<string>, id: string) {
    id != "" && id in ids
  }

  /**
   * The attempt at which Insert's id loop stops, counting from `i`: the first
   * attempt whose id is not taken, or the last attempt allowed.
   */
  function FirstFreeAttempt(ids: set<string>, idMaker: nat -> string, i: nat): (k: nat)
    requires i < MaxIdAttempts
    ensures i <= k < MaxIdAttempts
    ensures forall j :: i <= j < k ==> Taken(ids, idMaker(j))
    ensures k < MaxIdAttempts - 1 ==> !Taken(ids, idMaker(k))
    decreases MaxIdAttempts - i
  {
    if !Taken(ids, idMaker(i)) || i == MaxIdAttempts - 1 then i
    else FirstFreeAttempt(ids, idMaker, i + 1)
  }

  /** The stopping attempt is determined by the two conditions it meets. */
  lemma {:induction false} FirstFreeAttemptUnique(ids: set<string>, idMaker: nat -> string, i: nat, k: nat)
    requires i <= k < MaxIdAttempts
    requires forall j :: i <= j < k ==> Taken(ids, idMaker(j))
    requires k == MaxIdAttempts - 1 || !Taken(ids, idMaker(k))
    ensures FirstFreeAttempt(ids, idMaker, i) == k
    decreases k - i
  {
    if i < k {
      FirstFreeAttemptUnique(ids, idMaker, i + 1, k);
    }
  }

  /** The id Insert ends up with (the last one generated). */
  function ChosenId(ids: set<string>, idMaker: nat -> string): (r: string)
    ensures exists k :: 0 <= k < MaxIdAttempts && r == idMaker(k)
    ensures !Taken(ids, r) || forall j :: 0 <= j < MaxIdAttempts ==> Taken(ids, idMaker(j))
  {
    var k := FirstFreeAttempt(ids, idMaker, 0);
    idMaker(k)
  }

  /** The version field set to the stamp, when there is one. */
  function Stamped(row: Record, versionField: string, stamp: Option<int>): Record {
    match stamp
    case None => row
    case Some(v) => row[versionField := Int(v)]
  }

  /** The row Insert sends: the caller's fields, then the id, the delete flag 0 and the stamp. */
  function InsertPayload(rec: Record, idField: string, deletedField: string, versionField: string,
                         stamp: Option<int>, id: string): (r: Record)
    ensures idField in r && deletedField in r && rec.Keys <= r.Keys
    ensures stamp.Some? ==> versionField in r && r[versionField] == Int(stamp.value)
  {
    Stamped(rec[idField := Str(id)][deletedField := Int(0)], versionField, stamp)
  }

  /** With distinct column names, the inserted row keeps the caller's other fields and is live. */
  lemma InsertPayloadFields(rec: Record, idField: string, deletedField: string, versionField: string,
                            stamp: Option<int>, id: string)
    requires idField != deletedField
    requires stamp.Some? ==> versionField != idField && versionField != deletedField
    ensures var r := InsertPayload(rec, idField, deletedField, versionField, stamp, id);
            && r.Keys == rec.Keys + {idField, deletedField} + (if stamp.Some? then {versionField} else {})
            && r[idField] == Str(id)
            && Live(r, deletedField)
            && (stamp.Some? ==> r[versionField] == Int(stamp.value))
            && forall k :: k in rec && k != idField && k != deletedField && (stamp.None? || k != versionField)
                 ==> r[k] == rec[k]
  {
  }

  /** The primary key Update reads from the record; a missing key reads as "". */
  function IdOf(rec: Record, idField: string): (r: string)
    ensures idField in rec && rec[idField].Str? ==> r == rec[idField].s
    ensures r == "" <==> idField !in rec || rec[idField] == Null || rec[idField] == Str("")
  {
    if idField in rec then ToText(rec[idField]) else ""
  }

  /** The payload Update sends: the record without the primary key, plus the stamp. */
  function UpdatePayload(rec: Record, idField: string, versionField: string, stamp: Option<int>): (r: Record)
    ensures r.Keys <= (rec.Keys - {idField}) + {versionField}
    ensures stamp.None? ==> idField !in r
    ensures stamp.Some? ==> versionField in r && r[versionField] == Int(stamp.value)
  {
    Stamped(rec - {idField}, versionField, stamp)
  }

  lemma UpdatePayloadFields(rec: Record, idField: string, versionField: string, stamp: Option<int>)
    requires stamp.Some? ==> versionField != idField
    ensures var r := UpdatePayload(rec, idField, versionField, stamp);
            && idField !in r
            && r.Keys == (rec.Keys - {idField}) + (if stamp.Some? then {versionField} else {})
            && (stamp.Some? ==> r[versionField] == Int(stamp.value))
            && forall k :: k in rec && k != idField && (stamp.None? || k != versionField) ==> r[k] == rec[k]
  {
  }

  /** Update's where clause. */
  function UpdateWhere(deleted: string, idField: string): (r: string)
    ensures |r| == |deleted| + |idField| + 13
    ensures r[..|deleted| + 9] == "`" + deleted + "`=0 AND "
    ensures r[|r| - 3..] == "`=?"
  {
    "`" + deleted + "`=0 AND `" + idField + "`=?"
  }

  /** UpdateBy's where clause: the caller's clause after the delete filter and a stray backtick. */
  function UpdateByWhere(deleted: string, where: string): (r: string)
    ensures |r| == |deleted| + |where| + 10
    ensures r[..|deleted| + 9] == "`" + deleted + "`=0 AND "
    ensures r[|r| - |where|..] == where
  {
    "`" + deleted + "`=0 AND `" + where
  }

  /** Because of the stray backtick, UpdateBy needs a clause without its opening backtick to match Update. */
  lemma UpdateByWhereStrayBacktick(deleted: string, idField: string)
    ensures UpdateByWhere(deleted, idField + "`=?") == UpdateWhere(deleted, idField)
    ensures UpdateByWhere(deleted, "`" + idField + "`=?") != UpdateWhere(deleted, idField)
  {
    assert |UpdateByWhere(deleted, "`" + idField + "`=?")| == |UpdateWhere(deleted, idField)| + 1;
  }

  /** The record Delete hands to Update. */
  function DeleteRecord(deleted: string, idField: string, id: string): (r: Record)
    ensures r.Keys == {deleted, idField}
    ensures r[idField] == Str(id)
    ensures deleted != idField ==> r[deleted] == Int(1) && !Live(r, deleted)
  {
    map[deleted := Int(1), idField := Str(id)]
  }

  /** Delete's payload is just the delete flag set to 1, plus the stamp. */
  lemma DeletePayloadIsTombstone(deleted: string, idField: string, versionField: string,
                                 stamp: Option<int>, id: string)
    requires deleted != idField
    ensures IdOf(DeleteRecord(deleted, idField, id), idField) == id
    ensures UpdatePayload(DeleteRecord(deleted, idField, id), idField, versionField, stamp)
            == Stamped(map[deleted := Int(1)], versionField, stamp)
  {
    assert DeleteRecord(deleted, idField, id) - {idField} == map[deleted := Int(1)];
  }

  /** After the tombstone is applied, a live lookup of that id finds nothing. */
  lemma TombstoneHidesRow(rows: map<string, Record>, deleted: string, versionField: string,
                          stamp: Option<int>, id: string)
    requires stamp.Some? ==> versionField != deleted
    ensures LiveRow(Patch(rows, Stamped(map[deleted := Int(1)], versionField, stamp), {id}), deleted, id) == None
  {
    var payload := Stamped(map[deleted := Int(1)], versionField, stamp);
    assert payload[deleted] == Int(1);
  }

  /** The rows among `ids` that are present and not soft-deleted. */
  function LiveIds(rows: map<string, Record>, deleted: string, ids: set<string>): (r: set<string>)
    ensures r <= ids && r <= rows.Keys
    ensures forall k :: k in r ==> Live(rows[k], deleted)
    ensures forall k :: k in ids && k in rows && Live(rows[k], deleted) ==> k in r
  {
    set k | k in ids && k in rows && Live(rows[k], deleted)
  }

  /** Get's query. */
  function GetQuery(fields: string, table: string, deleted: string, idField: string, id: string): (r: Statement)
    ensures r.args == [Str(id)]
    ensures "SELECT " + fields <= r.sql
    ensures |UpdateWhere(deleted, idField)| <= |r.sql|
            && r.sql[|r.sql| - |UpdateWhere(deleted, idField)|..] == UpdateWhere(deleted, idField)
  {
    Statement("SELECT " + fields + " FROM `" + table + "` WHERE `" + deleted + "`=0 AND `" + idField + "`=?", [Str(id)])
  }

  /** Counters after a write: the table's key holds the stamp, if one was taken. */
  function CountersAfter(counters: map<string, int>, key: string, stamp: Option<int>): map<string, int> {
    match stamp
    case None => counters
    case Some(v) => counters[key := v]
  }

  /**
   * When the caller's clause has no top-level OR, the delete filter applies to
   * all of it, so the selected rows are the live ones among those the clause
   * matches, and an UPDATE leaves every soft-deleted row as it was.
   */
  lemma UpdateByFilterHolds(rows: map<string, Record>, payload: Record, deleted: string, m: set<string>)
    ensures forall k :: k in rows && !Live(rows[k], deleted) ==> Patch(rows, payload, LiveIds(rows, deleted, m))[k] == rows[k]
  {
  }

  /**
   * With a top-level OR ("type`='A' OR `type`='B'" becomes
   * (`deleted`=0 AND `type`='A') OR `type`='B'), a soft-deleted row can be
   * selected; it then takes the payload, version stamp included.
   */
  lemma UpdateByOrEscapesFilter(rows: map<string, Record>, payload: Record, deleted: string,
                                matches: set<string>, k: string)
    requires k in rows && k in matches && !Live(rows[k], deleted)
    ensures k !in LiveIds(rows, deleted, matches)
    ensures Patch(rows, payload, matches)[k] == rows[k] + payload
  {
  }

  /** A patch stamped above every stored version keeps the stamp covering the table. */
  lemma PatchKeepsCover(rows: map<string, Record>, payload: Record, selected: set<string>,
                        field: string, counter: int, v: int)
    requires forall k :: k in rows ==> VersionOf(rows[k], field) < v
    requires field in payload && payload[field] == Int(v)
    ensures CounterCovers(v, Patch(rows, payload, selected), field)
  {
  }

  // ------------------------------------------------------------------
  // The table accessor

  class Data {
    var Table: string
    var Id: string
    var Deleted: string
    var Version: string
    var DefaultFields: string

    /** A descriptor written out field by field, as a struct literal does. */
    constructor (table: string, id: string, deleted: string, version: string, defaultFields: string)
      ensures Table == table && Id == id && Deleted == deleted && Version == version
      ensures DefaultFields == defaultFields
    {
      Table, Id, Deleted, Version, DefaultFields := table, id, deleted, version, defaultFields;
    }

    function VersionKey(): string
      reads this
    {
      VersionKeyPrefix + Table
    }

    /** The stamp a write takes: none for an unversioned table. */
    ghost function StampFor(counter: int, rows: map<string, Record>, maxOk: bool): (r: Option<int>)
      reads this
      ensures r.Some? <==> Version != ""
      ensures r.Some? ==> r.value >= 1 && r.value > counter
      ensures r.Some? && counter <= 0 && maxOk ==> forall k :: k in rows ==> VersionOf(rows[k], Version) < r.value
    {
      if Version != "" then Some(NextVersion(counter, MaxRead(rows, Version, maxOk))) else None
    }

    /**
     * getVersion: INCR the table's counter; on a cold counter fall back to
     * MAX(version)+1 and SET it. `maxOk` is the outcome of the MAX query,
     * whose error the code does not read: a failed query reads 0.
     */
    method GetVersion(rd: Redis, db: Db, maxOk: bool) returns (v: int)
      modifies rd
      ensures v == NextVersion(old(rd.Counter(VersionKey())), MaxRead(db.Rows(Table), Version, maxOk))
      ensures rd.counters == old(rd.counters)[VersionKey() := v]
    {
      var version := rd.Incr(VersionKeyPrefix + Table);
      if version > 1 {
        return version;
      }
      var maxVersion := db.QueryMaxVersion(Table, Version, maxOk);
      rd.Set(VersionKeyPrefix + Table, maxVersion + 1);
      return maxVersion + 1;
    }

    /** Get: the live row with that primary key, if the query succeeds. */
    method Get(db: Db, id: string, queryOk: bool) returns (ok: bool, row: Option<Record>, sent: Statement)
      ensures sent == GetQuery(DefaultFields, Table, Deleted, Id, id)
      ensures row == if queryOk then LiveRow(db.Rows(Table), Deleted, id) else None
      ensures ok == row.Some?
    {
      sent := Statement("SELECT " + DefaultFields + " FROM `" + Table + "` WHERE `" + Deleted + "`=0 AND `" + Id + "`=?", [Str(id)]);
      row := if queryOk then LiveRow(db.Rows(Table), Deleted, id) else None;
      ok := row.Some?;
    }

    /**
     * Insert: pick an id (at most MaxIdAttempts calls of the generator,
     * stopping at the first id with no row), force the id, delete flag and
     * stamp into the record, and send the row. "" on an empty id or a failed
     * insert; the id otherwise.
     */
    method Insert(rd: Redis, db: Db, rec: Record, idMaker: nat -> string, maxOk: bool, insertOk: bool) returns (id: string)
      modifies rd, db
      ensures var rows := old(db.Rows(Table));
              var chosen := ChosenId(rows.Keys, idMaker);
              if chosen == "" then
                id == "" && rd.counters == old(rd.counters) && db.tables == old(db.tables) && db.writes == old(db.writes)
              else
                var stamp := StampFor(old(rd.Counter(VersionKey())), rows, maxOk);
                var row := InsertPayload(rec, Id, Deleted, Version, stamp, chosen);
                && rd.counters == CountersAfter(old(rd.counters), VersionKey(), stamp)
                && db.writes == old(db.writes) + [InsertRow(Table, row)]
                && id == (if insertOk && chosen !in rows then chosen else "")
                && db.tables == if id != "" then old(db.tables)[Table := rows[chosen := row]] else old(db.tables)
      ensures Version != "" && CounterCovers(old(rd.Counter(VersionKey())), old(db.Rows(Table)), Version)
              ==> CounterCovers(rd.Counter(VersionKey()), db.Rows(Table), Version)
    {
      ghost var rows := db.Rows(Table);
      ghost var counter := rd.Counter(VersionKey());
      id := "";
      var i := 0;
      ghost var last := 0;
      while i < MaxIdAttempts
        invariant 0 <= i <= MaxIdAttempts
        invariant forall j :: 0 <= j < i ==> Taken(rows.Keys, idMaker(j))
        invariant i > 0 ==> last == i - 1 && id == idMaker(last)
        invariant i == 0 ==> id == ""
      {
        id := idMaker(i);
        last := i;
        // SELECT `id` FROM the table WHERE `id`=? : the first cell, "" when no row
        var found := if id in db.Rows(Table) then id else "";
        if found == "" {
          break;
        }
        i := i + 1;
      }
      FirstFreeAttemptUnique(rows.Keys, idMaker, 0, last);
      if id == "" {
        return "";
      }
      id := SendInsert(rd, db, rec, id, maxOk, insertOk);
    }

    /** The second half of Insert: stamp the row, send it, and report the id or "". */
    method SendInsert(rd: Redis, db: Db, rec: Record, chosen: string, maxOk: bool, insertOk: bool) returns (id: string)
      requires chosen != ""
      modifies rd, db
      ensures var rows := old(db.Rows(Table));
              var stamp := StampFor(old(rd.Counter(VersionKey())), rows, maxOk);
              var row := InsertPayload(rec, Id, Deleted, Version, stamp, chosen);
              && rd.counters == CountersAfter(old(rd.counters), VersionKey(), stamp)
              && db.writes == old(db.writes) + [InsertRow(Table, row)]
              && id == (if insertOk && chosen !in rows then chosen else "")
              && db.tables == if id != "" then old(db.tables)[Table := rows[chosen := row]] else old(db.tables)
      ensures Version != "" && CounterCovers(old(rd.Counter(VersionKey())), old(db.Rows(Table)), Version)
              ==> CounterCovers(rd.Counter(VersionKey()), db.Rows(Table), Version)
    {
      ghost var rows := db.Rows(Table);
      ghost var counter := rd.Counter(VersionKey());
      var insertData := rec[Id := Str(chosen)];
      insertData := insertData[Deleted := Int(0)];
      if Version != "" {
        var v := GetVersion(rd, db, maxOk);
        insertData := insertData[Version := Int(v)];
        if CounterCovers(counter, rows, Version) {
          FreshStampAboveAll(counter, rows, Version, MaxRead(rows, Version, maxOk));
        }
      }
      var success := db.Insert(Table, chosen, insertData, insertOk);
      id := if success then chosen else "";
    }

    /** What Update does with a record: the statement it sends and the state it leaves. */
    twostate predicate UpdateDone(rd: Redis, db: Db, rec: Record, maxOk: bool, updateOk: bool, ok: bool)
      reads this, rd, db
    {
      var id := IdOf(rec, Id);
      if id == "" then
        !ok && rd.counters == old(rd.counters) && db.tables == old(db.tables) && db.writes == old(db.writes)
      else
        var rows := old(db.Rows(Table));
        var stamp := StampFor(old(rd.Counter(VersionKey())), rows, maxOk);
        var payload := UpdatePayload(rec, Id, Version, stamp);
        && rd.counters == CountersAfter(old(rd.counters), VersionKey(), stamp)
        && db.writes == old(db.writes) + [UpdateRows(Table, payload, UpdateWhere(Deleted, Id), [Str(id)])]
        && ok == updateOk
        && db.tables == if updateOk then old(db.tables)[Table := Patch(rows, payload, LiveIds(rows, Deleted, {id}))]
                        else old(db.tables)
    }

    /**
     * Update: refuse a record without a primary key; otherwise drop the key
     * from the payload, stamp it, and update the live row with that key.
     */
    method Update(rd: Redis, db: Db, rec: Record, maxOk: bool, updateOk: bool) returns (ok: bool)
      modifies rd, db
      ensures UpdateDone(rd, db, rec, maxOk, updateOk, ok)
      ensures Version != "" && CounterCovers(old(rd.Counter(VersionKey())), old(db.Rows(Table)), Version)
              ==> CounterCovers(rd.Counter(VersionKey()), db.Rows(Table), Version)
    {
      var updateData := rec;
      var id := IdOf(updateData, Id);
      if id == "" {
        return false;
      }
      ghost var rows := db.Rows(Table);
      ghost var counter := rd.Counter(VersionKey());
      updateData := updateData - {Id};
      if Version != "" {
        var v := GetVersion(rd, db, maxOk);
        updateData := updateData[Version := Int(v)];
        if CounterCovers(counter, rows, Version) {
          FreshStampAboveAll(counter, rows, Version, MaxRead(rows, Version, maxOk));
          PatchKeepsCover(rows, updateData, LiveIds(rows, Deleted, {id}), Version, counter, v);
        }
      }
      ok := db.Update(Table, updateData, "`" + Deleted + "`=0 AND `" + Id + "`=?", [Str(id)],
                      LiveIds(db.Rows(Table), Deleted, {id}), updateOk);
    }

    /**
     * UpdateBy: stamp the record and update the rows the statement's clause
     * selects. `matches` stands for the rows the whole text
     * "`deleted`=0 AND `" + where selects; it is not narrowed to live rows,
     * because a top-level OR in `where` escapes the filter (see
     * UpdateByFilterHolds and UpdateByOrEscapesFilter).
     */
    method UpdateBy(rd: Redis, db: Db, rec: Record, where: string, args: seq<Value>,
                    matches: set<string>, maxOk: bool, updateOk: bool) returns (ok: bool)
      modifies rd, db
      ensures var rows := old(db.Rows(Table));
              var stamp := StampFor(old(rd.Counter(VersionKey())), rows, maxOk);
              var payload := Stamped(rec, Version, stamp);
              && rd.counters == CountersAfter(old(rd.counters), VersionKey(), stamp)
              && db.writes == old(db.writes) + [UpdateRows(Table, payload, UpdateByWhere(Deleted, where), args)]
              && ok == updateOk
              && db.tables == if updateOk then old(db.tables)[Table := Patch(rows, payload, matches)]
                              else old(db.tables)
      ensures Version != "" && CounterCovers(old(rd.Counter(VersionKey())), old(db.Rows(Table)), Version)
              ==> CounterCovers(rd.Counter(VersionKey()), db.Rows(Table), Version)
    {
      var payload := rec;
      ghost var rows := db.Rows(Table);
      ghost var counter := rd.Counter(VersionKey());
      if Version != "" {
        var v := GetVersion(rd, db, maxOk);
        payload := payload[Version := Int(v)];
        if CounterCovers(counter, rows, Version) {
          FreshStampAboveAll(counter, rows, Version, MaxRead(rows, Version, maxOk));
          PatchKeepsCover(rows, payload, matches, Version, counter, v);
        }
      }
      ok := db.Update(Table, payload, "`" + Deleted + "`=0 AND `" + where, args, matches, updateOk);
    }

    /** Delete: an Update of the record {delete flag: 1, primary key: id}. */
    method Delete(rd: Redis, db: Db, id: string, maxOk: bool, updateOk: bool) returns (ok: bool)
      modifies rd, db
      ensures UpdateDone(rd, db, DeleteRecord(Deleted, Id, id), maxOk, updateOk, ok)
      ensures Version != "" && CounterCovers(old(rd.Counter(VersionKey())), old(db.Rows(Table)), Version)
              ==> CounterCovers(rd.Counter(VersionKey()), db.Rows(Table), Version)
    {
      ok := Update(rd, db, map[Deleted := Int(1), Id := Str(id)], maxOk, updateOk);
    }
  }

  /** NewDataBy: normalise the default projection and maybe append the delete column. */
  method NewDataBy(data: Data)
    requires data.DefaultFields != ""
    modifies data`DefaultFields
    ensures data.DefaultFields == Projection(old(data.DefaultFields), data.Deleted, data.Version)
  {
    var fields := ParseFields(data.DefaultFields);
    data.DefaultFields := fields;
    if data.Version != "" && data.Deleted != "" && data.DefaultFields != ""
       && Contains(data.DefaultFields, "`" + data.Deleted + "`")
    {
      data.DefaultFields := data.DefaultFields + ",`" + data.Deleted + "`";
    }
  }

  /** NewData: an unversioned table with primary key `id` and delete flag `deleted`. */
  method NewData(table: string, defaultFields: string) returns (data: Data)
    requires defaultFields != ""
    ensures fresh(data)
    ensures data.Table == table && data.Id == "id" && data.Deleted == "deleted" && data.Version == ""
    ensures data.DefaultFields == QuotedFields(defaultFields)
  {
    var fields := ParseFields(defaultFields);
    data := new Data(table, "id", "deleted", "", fields);
    NewDataBy(data);
    Idempotent(defaultFields);
  }

  /** NewDataWithVersion: NewData, then version column `version` and NewDataBy once more. */
  method NewDataWithVersion(table: string, defaultFields: string) returns (data: Data)
    requires defaultFields != ""
    ensures fresh(data)
    ensures data.Table == table && data.Id == "id" && data.Deleted == "deleted" && data.Version == "version"
    ensures data.DefaultFields == Projection(QuotedFields(defaultFields), "deleted", "version")
  {
    data := NewData(table, defaultFields);
    data.Version := "version";
    NewDataBy(data);
  }
}
