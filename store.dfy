/**
 * The collaborators the record store talks to, as abstract state: the shared
 * counter cache (Redis INCR/GET/SET on string keys) and the relational store
 * (tables of rows keyed by primary key, plus the log of write statements that
 * were sent to it). Records are field-name to value maps, the shape the
 * Go code's record mapper flattens a caller's struct into.
 */
module Store {

  import opened Wrappers

  /** A field value as the flattened records carry it. */
  datatype Value = Null | Bool(b: bool) | Int(i: int) | Str(s: string)

  type Record = map<string, Value>

  /** A rendered query: SQL text and its positional `?` arguments, in order. */
  datatype Statement = Statement(sql: string, args: seq<Value>)

  /** A write statement handed to the relational executor. */
  datatype Write =
    | InsertRow(table: string, row: Record)
    | UpdateRows(table: string, payload: Record, where: string, args: seq<Value>)

  function DigitChar(d: nat): char
    requires d < 10
  {
    "0123456789"[d]
  }

  /** Decimal digits of a natural number. */
  function Digits(n: nat): (r: string)
    ensures |r| >= 1
    decreases n
  {
    if n < 10 then [DigitChar(n)] else Digits(n / 10) + [DigitChar(n % 10)]
  }

  /** The text form of a value (the mapper's u.String): nil is the empty string. */
  function ToText(v: Value): (r: string)
    ensures r == "" <==> v == Null || v == Str("")
  {
    match v
    case Null => ""
    case Bool(b) => if b then "true" else "false"
    case Int(i) => if i < 0 then "-" + Digits(-i) else Digits(i)
    case Str(s) => s
  }

  /** A row's version stamp; 0 when it has none (also the value of MAX over no rows). */
  function VersionOf(row: Record, field: string): nat {
    if field in row && row[field].Int? && row[field].i > 0 then row[field].i else 0
  }

  /** The row is not soft-deleted: its delete flag is 0. */
  predicate Live(row: Record, deleted: string) {
    deleted in row && row[deleted] == Int(0)
  }

  /** The row a `deleted`=0 AND `id`=? lookup finds. */
  function LiveRow(rows: map<string, Record>, deleted: string, id: string): (r: Option<Record>)
    ensures r.Some? <==> id in rows && Live(rows[id], deleted)
    ensures r.Some? ==> r.value == rows[id]
  {
    if id in rows && Live(rows[id], deleted) then Some(rows[id]) else None
  }

  /** An UPDATE of the `selected` rows with `payload`: the payload's fields overwrite theirs. */
  function Patch(rows: map<string, Record>, payload: Record, selected: set<string>): (r: map<string, Record>)
    ensures r.Keys == rows.Keys
    ensures forall k :: k in rows && k !in selected ==> r[k] == rows[k]
    ensures forall k :: k in rows && k in selected ==> r[k] == rows[k] + payload
  {
    map k | k in rows :: if k in selected then rows[k] + payload else rows[k]
  }

  lemma HasMax(s: set<nat>)
    requires s != {}
    ensures exists m :: m in s && forall y :: y in s ==> y <= m
    decreases s
  {
    var x :| x in s;
    assert forall y :: y in s ==> y == x || y in s - {x};
    if s == {x} {
      assert forall y :: y in s ==> y <= x;
    } else {
      HasMax(s - {x});
      var m :| m in s - {x} && forall y :: y in s - {x} ==> y <= m;
      if x > m {
        assert forall y :: y in s ==> y <= x;
      } else {
        assert forall y :: y in s ==> y <= m;
      }
    }
  }

  /** The largest element, 0 for the empty set (SQL MAX over no rows reads as 0). */
  ghost function MaxOf(s: set<nat>): (m: nat)
    ensures forall y :: y in s ==> y <= m
    ensures s != {} ==> m in s
    ensures s == {} ==> m == 0
  {
    if s == {} then 0
    else
      HasMax(s);
      var m :| m in s && forall y :: y in s ==> y <= m; m
  }

  function Versions(rows: map<string, Record>, field: string): set<nat> {
    set k | k in rows :: VersionOf(rows[k], field)
  }

  /** SELECT MAX(`version`) FROM the table: some row's version, or 0 over no rows. */
  ghost function MaxVersion(rows: map<string, Record>, field: string): (m: nat)
    ensures rows == map[] ==> m == 0
    ensures rows != map[] ==> exists k :: k in rows && VersionOf(rows[k], field) == m
  {
    if rows != map[] then
      var k :| k in rows;
      assert VersionOf(rows[k], field) in Versions(rows, field);
      MaxOf(Versions(rows, field))
    else
      assert Versions(rows, field) == {};
      MaxOf(Versions(rows, field))
  }

  /** MAX(version) as the code reads it: a failed query reads 0. */
  ghost function MaxRead(rows: map<string, Record>, field: string, ok: bool): (m: nat)
    ensures ok ==> forall k :: k in rows ==> VersionOf(rows[k], field) <= m
    ensures !ok ==> m == 0
  {
    MaxVersionBounds(rows, field);
    if ok then MaxVersion(rows, field) else 0
  }

  lemma MaxVersionBounds(rows: map<string, Record>, field: string)
    ensures forall k :: k in rows ==> VersionOf(rows[k], field) <= MaxVersion(rows, field)
  {
    forall k | k in rows ensures VersionOf(rows[k], field) <= MaxVersion(rows, field) {
      assert VersionOf(rows[k], field) in Versions(rows, field);
    }
  }

  /** The shared counter cache: one integer counter per key. */
  class Redis {
    var counters: map<string, int>

    constructor (counters: map<string, int>)
      ensures this.counters == counters
    {
      this.counters := counters;
    }

    /** A missing key counts as 0. */
    function Counter(key: string): int
      reads this
    {
      if key in counters then counters[key] else 0
    }

    /** GET parsed as an unsigned number: the counter when it is not negative, and 0 otherwise. */
    function Read(key: string): (r: nat)
      reads this
      ensures Counter(key) >= 0 ==> r == Counter(key)
      ensures Counter(key) < 0 ==> r == 0
      ensures Counter(key) <= r
    {
      if Counter(key) > 0 then Counter(key) else 0
    }

    method Incr(key: string) returns (v: int)
      modifies this
      ensures v == old(Counter(key)) + 1
      ensures counters == old(counters)[key := v]
    {
      v := Counter(key) + 1;
      counters := counters[key := v];
    }

    /** GET read as an unsigned number; a failed GET reads 0. */
    method Get(key: string, ok: bool) returns (v: nat)
      ensures v == if ok then Read(key) else 0
    {
      v := if ok then Read(key) else 0;
    }

    method Set(key: string, v: int)
      modifies this
      ensures counters == old(counters)[key := v]
    {
      counters := counters[key := v];
    }
  }

  /** The relational store: rows by table and primary key, and every write sent so far. */
  class Db {
    var tables: map<string, map<string, Record>>
    var writes: seq<Write>

    constructor (tables: map<string, map<string, Record>>)
      ensures this.tables == tables && writes == []
    {
      this.tables := tables;
      writes := [];
    }

    /** A table that was never written is empty. */
    function Rows(table: string): map<string, Record>
      reads this
    {
      if table in tables then tables[table] else map[]
    }

    /** SELECT MAX(`field`) FROM `table`, scanning the rows; a failed query reads 0. */
    method QueryMaxVersion(table: string, field: string, queryOk: bool) returns (m: nat)
      ensures m == MaxRead(Rows(table), field, queryOk)
    {
      if !queryOk {
        return 0;
      }
      var rows := Rows(table);
      var todo := rows.Keys;
      m := 0;
      while todo != {}
        invariant todo <= rows.Keys
        invariant forall k :: k in rows && k !in todo ==> VersionOf(rows[k], field) <= m
        invariant m == 0 || exists k :: k in rows && k !in todo && VersionOf(rows[k], field) == m
        decreases todo
      {
        var k :| k in todo;
        if VersionOf(rows[k], field) > m {
          m := VersionOf(rows[k], field);
        }
        todo := todo - {k};
      }
      var vs := Versions(rows, field);
      assert forall v :: v in vs ==> v <= m;
      if m != 0 {
        var k :| k in rows && VersionOf(rows[k], field) == m;
        assert m in vs;
      }
    }

    /** INSERT: refused when the primary key is already present, or when the executor fails. */
    method Insert(table: string, key: string, row: Record, ok: bool) returns (success: bool)
      modifies this
      ensures writes == old(writes) + [InsertRow(table, row)]
      ensures success == (ok && key !in old(Rows(table)))
      ensures tables == if success then old(tables)[table := old(Rows(table))[key := row]] else old(tables)
    {
      writes := writes + [InsertRow(table, row)];
      success := ok && key !in Rows(table);
      if success {
        tables := tables[table := Rows(table)[key := row]];
      }
    }

    /**
     * UPDATE: the `selected` rows are the ones the where clause matches; the
     * executor reports success even when it matches none.
     */
    method Update(table: string, payload: Record, where: string, args: seq<Value>,
                  selected: set<string>, ok: bool) returns (success: bool)
      modifies this
      ensures writes == old(writes) + [UpdateRows(table, payload, where, args)]
      ensures success == ok
      ensures tables == if ok then old(tables)[table := Patch(old(Rows(table)), payload, selected)] else old(tables)
    {
      writes := writes + [UpdateRows(table, payload, where, args)];
      success := ok;
      if ok {
        tables := tables[table := Patch(Rows(table), payload, selected)];
      }
    }
  }
}
