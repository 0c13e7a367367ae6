/**
 * The query builder (`List`) of the record store: fluent mutators that
 * accumulate filter, joins, ordering and projection; one renderer shared by
 * the plain, count and version-range modes; and the incremental-sync
 * watermark decision of QueryByVersion.
 */
module Query {

  import opened Wrappers
  import opened Text
  import opened Fields
  import opened Store
  import opened Entity

  /** The builder's fields, as one value. */
  datatype ListState = ListState(sql: string, fields: string, where: string, orderBy: string,
                                 args: seq<Value>, leftJoins: seq<string>, leftJoinArgs: seq<Value>)

  /** The kind of container the caller passes to QueryByVersion. */
  datatype Target = SliceTarget | MapTarget | OtherTarget

  /** The soft-delete filter the plain and count modes put right after WHERE. */
  function DeletedFilter(deleted: string): string {
    "`" + deleted + "`=0 AND "
  }

  function JoinText(joins: seq<string>): string {
    if |joins| > 0 then " " + Join(joins, ' ') else ""
  }

  /** The arguments in binding order: the joins' before the filter's. */
  function BoundArgs(st: ListState): (r: seq<Value>)
    ensures |r| == |st.args| + (if |st.leftJoins| > 0 then |st.leftJoinArgs| else 0)
    ensures |st.leftJoins| > 0 ==> st.leftJoinArgs <= r
    ensures forall i :: 0 <= i < |st.args| ==> r[|r| - |st.args| + i] == st.args[i]
  {
    if |st.leftJoins| > 0 then st.leftJoinArgs + st.args else st.args
  }

  function Projected(st: ListState, deleted: string, tag: string): string {
    var f := if tag == "COUNT" then "COUNT(*)" else st.fields;
    if tag == "VERSION" then f + ", `" + deleted + "`" else f
  }

  /** Everything up to and including " WHERE ". */
  function SelectHead(table: string, deleted: string, st: ListState, tag: string): string {
    "SELECT " + Projected(st, deleted, tag) + " FROM `" + table + "`" + JoinText(st.leftJoins) + " WHERE "
  }

  /** What parse(tag) returns. */
  function Render(table: string, deleted: string, st: ListState, tag: string): (r: Statement)
    ensures st.sql != "" ==> r == Statement(st.sql, st.args)
    ensures st.sql == "" ==> SelectHead(table, deleted, st, tag) <= r.sql
    ensures st.sql == "" ==> |st.where + st.orderBy| <= |r.sql|
                             && r.sql[|r.sql| - |st.where + st.orderBy|..] == st.where + st.orderBy
  {
    if st.sql != "" then Statement(st.sql, st.args)
    else
      var filter := if tag == "VERSION" then "" else DeletedFilter(deleted);
      Statement(SelectHead(table, deleted, st, tag) + filter + st.where + st.orderBy, BoundArgs(st))
  }

  /** The builder after parse: the bound argument list is written back, unless the SQL is overridden. */
  function AfterParse(st: ListState): (r: ListState)
    ensures r == st.(args := r.args)
    ensures |st.args| <= |r.args| && r.args[|r.args| - |st.args|..] == st.args
  {
    if st.sql != "" then st else st.(args := BoundArgs(st))
  }

  /** An SQL override is returned as it stands, with its arguments, in every mode, and nothing changes. */
  lemma RenderOverride(table: string, deleted: string, st: ListState, tag: string)
    requires st.sql != ""
    ensures Render(table, deleted, st, tag) == Statement(st.sql, st.args)
    ensures AfterParse(st) == st
  {
  }

  /** The arguments do not depend on the mode. */
  lemma RenderArgsModeFree(table: string, deleted: string, st: ListState, tag1: string, tag2: string)
    ensures Render(table, deleted, st, tag1).args == Render(table, deleted, st, tag2).args
    ensures st.sql == "" ==> Render(table, deleted, st, tag1).args == BoundArgs(st)
  {
  }

  /** Count mode is plain mode with the projection replaced by COUNT(*). */
  lemma CountIsPlainCount(table: string, deleted: string, st: ListState)
    requires st.sql == ""
    ensures Render(table, deleted, st, "COUNT") == Render(table, deleted, st.(fields := "COUNT(*)"), "")
  {
  }

  /** In plain and count mode the delete filter text follows WHERE. */
  lemma PlainFiltersDeleted(table: string, deleted: string, st: ListState, tag: string)
    requires st.sql == "" && tag != "VERSION"
    ensures Contains(Render(table, deleted, st, tag).sql, " WHERE " + DeletedFilter(deleted))
  {
    var head := SelectHead(table, deleted, st, tag);
    var sql := Render(table, deleted, st, tag).sql;
    var pat := " WHERE " + DeletedFilter(deleted);
    var k := |head| - |" WHERE "|;
    assert sql == head + DeletedFilter(deleted) + st.where + st.orderBy;
    assert head[k..] == " WHERE ";
    assert sql[k..k + |pat|] == pat;
    assert MatchAt(sql, pat, k);
    ContainsIff(sql, pat);
  }

  /**
   * Version mode differs from plain mode (over the projection with the delete
   * column added) only in that the delete filter after WHERE is missing.
   */
  lemma VersionDropsFilter(table: string, deleted: string, st: ListState)
    requires st.sql == ""
    ensures var plain := Render(table, deleted, st.(fields := st.fields + ", `" + deleted + "`"), "").sql;
            var version := Render(table, deleted, st, "VERSION").sql;
            var k := |SelectHead(table, deleted, st, "VERSION")|;
            && 7 <= k <= |version| && version[k - 7..k] == " WHERE "
            && plain == version[..k] + DeletedFilter(deleted) + version[k..]
  {
    var head := SelectHead(table, deleted, st, "VERSION");
    var tail := st.where + st.orderBy;
    var version := Render(table, deleted, st, "VERSION").sql;
    PlainHeadIsVersionHead(table, deleted, st);
    assert version == head + tail by {
      assert st.(where := st.where) == st;
      ShorterFilterRender(table, deleted, st, st.where);
    }
    HeadEndsInWhere(table, deleted, st, "VERSION");
    assert version[..|head|] == head;
    assert version[|head|..] == tail;
  }

  /** Adding the delete flag to the fields by hand and rendering normally gives the VERSION-mode head and the filter. */
  lemma PlainHeadIsVersionHead(table: string, deleted: string, st: ListState)
    requires st.sql == ""
    ensures var plainSt := st.(fields := st.fields + ", `" + deleted + "`");
            Render(table, deleted, plainSt, "").sql
            == SelectHead(table, deleted, st, "VERSION") + DeletedFilter(deleted) + (st.where + st.orderBy)
  {
    var plainSt := st.(fields := st.fields + ", `" + deleted + "`");
    assert SelectHead(table, deleted, plainSt, "") == SelectHead(table, deleted, st, "VERSION");
  }

  /** Every rendered head closes with the WHERE keyword. */
  lemma HeadEndsInWhere(table: string, deleted: string, st: ListState, tag: string)
    ensures var head := SelectHead(table, deleted, st, tag);
            7 <= |head| && head[|head| - 7..] == " WHERE "
  {
  }

  /** Without joins parse changes no state. */
  lemma ParseWithoutJoins(st: ListState)
    requires |st.leftJoins| == 0
    ensures AfterParse(st) == st
  {
  }

  /**
   * With joins parse is not idempotent: rendering again prepends the join
   * arguments once more.
   */
  lemma ParseTwice(table: string, deleted: string, st: ListState, tag: string)
    requires st.sql == "" && |st.leftJoins| > 0
    ensures Render(table, deleted, AfterParse(st), tag).sql == Render(table, deleted, st, tag).sql
    ensures Render(table, deleted, AfterParse(st), tag).args
            == st.leftJoinArgs + Render(table, deleted, st, tag).args
    ensures |st.leftJoinArgs| > 0 ==> Render(table, deleted, AfterParse(st), tag).args != Render(table, deleted, st, tag).args
  {
    assert |Render(table, deleted, AfterParse(st), tag).args| == |st.leftJoinArgs| + |Render(table, deleted, st, tag).args|;
  }

  /** Get's query is what a fresh builder renders after Where("`<id>`=?", id). */
  lemma GetIsListWhere(fields: string, table: string, deleted: string, idField: string, id: string)
    ensures GetQuery(fields, table, deleted, idField, id)
            == Render(table, deleted, ListState("", fields, "`" + idField + "`=?", "", [Str(id)], [], []), "")
  {
    var st := ListState("", fields, "`" + idField + "`=?", "", [Str(id)], [], []);
    GetSqlIsListWhere(fields, table, deleted, idField, id, st);
    assert BoundArgs(st) == st.args;
  }

  lemma GetSqlIsListWhere(fields: string, table: string, deleted: string, idField: string, id: string, st: ListState)
    requires st == ListState("", fields, "`" + idField + "`=?", "", [Str(id)], [], [])
    ensures GetQuery(fields, table, deleted, idField, id).sql == Render(table, deleted, st, "").sql
  {
    var a := "SELECT " + fields;
    assert Render(table, deleted, st, "").sql
           == a + " FROM `" + table + "`" + "" + " WHERE " + ("`" + deleted + "`=0 AND ") + ("`" + idField + "`=?") + "";
    RegroupGetSql(a, table, deleted, idField);
  }

  /** The two spellings of Get's SQL text, literal pieces grouped differently. */
  lemma RegroupGetSql(a: string, table: string, deleted: string, idField: string)
    ensures a + " FROM `" + table + "`" + "" + " WHERE " + ("`" + deleted + "`=0 AND ") + ("`" + idField + "`=?") + ""
            == a + " FROM `" + table + "` WHERE `" + deleted + "`=0 AND `" + idField + "`=?"
  {
    var head := a + " FROM `" + table;
    assert head + "`" + "" + " WHERE " == head + "` WHERE ";
    assert "`" + deleted + "`=0 AND " + ("`" + idField + "`=?") == "`" + deleted + "`=0 AND `" + idField + "`=?";
  }

  // ------------------------------------------------------------------
  // Version-range reads

  function BetweenClause(versionField: string): string {
    " AND `" + versionField + "` BETWEEN ? AND ?"
  }

  /**
   * The statement QueryByVersion sends: version mode, the first delete
   * filter anywhere in the text removed, the BETWEEN clause appended, and the
   * range (minVersion, maxVersion] bound last.
   */
  function VersionQuery(table: string, deleted: string, versionField: string, st: ListState,
                        minVersion: nat, maxVersion: nat): (r: Statement)
    ensures |r.args| >= 2 && r.args[|r.args| - 2..] == [Int(minVersion + 1), Int(maxVersion)]
  {
    var q := Render(table, deleted, st, "VERSION");
    Statement(RemoveFirst(q.sql, DeletedFilter(deleted)) + BetweenClause(versionField),
              q.args + [Int(minVersion + 1), Int(maxVersion)])
  }

  /** The range bounds are the last two arguments, after the builder's own in binding order. */
  lemma VersionQueryRange(table: string, deleted: string, versionField: string, st: ListState,
                          minVersion: nat, maxVersion: nat)
    ensures var q := VersionQuery(table, deleted, versionField, st, minVersion, maxVersion);
            && q.args == (if st.sql == "" then BoundArgs(st) else st.args) + [Int(minVersion + 1), Int(maxVersion)]
            && |BetweenClause(versionField)| <= |q.sql|
            && q.sql[|q.sql| - |BetweenClause(versionField)|..] == BetweenClause(versionField)
  {
  }

  /**
   * When nothing in the version-mode text looks like the delete filter, the
   * BETWEEN clause is appended after the ordering clause.
   */
  lemma VersionQueryAfterOrderBy(table: string, deleted: string, versionField: string, st: ListState,
                                 minVersion: nat, maxVersion: nat)
    requires st.sql == ""
    requires !Contains(Render(table, deleted, st, "VERSION").sql, DeletedFilter(deleted))
    ensures var q := VersionQuery(table, deleted, versionField, st, minVersion, maxVersion);
            var tail := st.orderBy + BetweenClause(versionField);
            && q.sql == Render(table, deleted, st, "VERSION").sql + BetweenClause(versionField)
            && |tail| <= |q.sql| && q.sql[|q.sql| - |tail|..] == tail
  {
    var v := Render(table, deleted, st, "VERSION").sql;
    var head := SelectHead(table, deleted, st, "VERSION");
    assert v == (head + st.where) + st.orderBy;
    var s := v + BetweenClause(versionField);
    assert s == (head + st.where) + (st.orderBy + BetweenClause(versionField));
  }

  /**
   * A caller's filter that starts with the delete filter loses it: the first
   * occurrence is removed even though it is the caller's text.
   */
  lemma VersionQueryStripsCallerFilter(table: string, deleted: string, versionField: string, st: ListState,
                                       rest: string, minVersion: nat, maxVersion: nat)
    requires st.sql == "" && st.where == DeletedFilter(deleted) + rest
    requires NoMatchBefore(Render(table, deleted, st, "VERSION").sql, DeletedFilter(deleted),
                           |SelectHead(table, deleted, st, "VERSION")|)
    ensures VersionQuery(table, deleted, versionField, st, minVersion, maxVersion).sql
            == Render(table, deleted, st.(where := rest), "VERSION").sql + BetweenClause(versionField)
  {
    var head := SelectHead(table, deleted, st, "VERSION");
    var v := Render(table, deleted, st, "VERSION").sql;
    StripLeadingFilter(table, deleted, st, rest);
    ShorterFilterRender(table, deleted, st, rest);
    assert VersionQuery(table, deleted, versionField, st, minVersion, maxVersion).sql
           == RemoveFirst(v, DeletedFilter(deleted)) + BetweenClause(versionField);
  }

  /** Rendering with the shorter filter keeps the head and the ordering. */
  lemma ShorterFilterRender(table: string, deleted: string, st: ListState, rest: string)
    requires st.sql == ""
    ensures Render(table, deleted, st.(where := rest), "VERSION").sql
            == SelectHead(table, deleted, st, "VERSION") + (rest + st.orderBy)
  {
    var shorter := st.(where := rest);
    var head := SelectHead(table, deleted, st, "VERSION");
    assert SelectHead(table, deleted, shorter, "VERSION") == head;
    assert Render(table, deleted, shorter, "VERSION").sql == head + "" + rest + st.orderBy;
    assert head + "" + rest + st.orderBy == head + (rest + st.orderBy);
  }

  lemma StripLeadingFilter(table: string, deleted: string, st: ListState, rest: string)
    requires st.sql == "" && st.where == DeletedFilter(deleted) + rest
    requires NoMatchBefore(Render(table, deleted, st, "VERSION").sql, DeletedFilter(deleted),
                           |SelectHead(table, deleted, st, "VERSION")|)
    ensures RemoveFirst(Render(table, deleted, st, "VERSION").sql, DeletedFilter(deleted))
            == SelectHead(table, deleted, st, "VERSION") + (rest + st.orderBy)
  {
    var f := DeletedFilter(deleted);
    var head := SelectHead(table, deleted, st, "VERSION");
    var tail := rest + st.orderBy;
    assert Render(table, deleted, st, "VERSION").sql == head + f + tail;
    RemoveFirstAfter(head, f, tail);
  }

  /** An SQL override keeps its text except for the first delete filter it contains. */
  lemma VersionQueryOverride(table: string, deleted: string, versionField: string, st: ListState,
                             minVersion: nat, maxVersion: nat)
    requires st.sql != ""
    ensures VersionQuery(table, deleted, versionField, st, minVersion, maxVersion)
            == Statement(RemoveFirst(st.sql, DeletedFilter(deleted)) + BetweenClause(versionField),
                         st.args + [Int(minVersion + 1), Int(maxVersion)])
    ensures Contains(st.sql, DeletedFilter(deleted))
            ==> |VersionQuery(table, deleted, versionField, st, minVersion, maxVersion).sql|
                == |st.sql| - |DeletedFilter(deleted)| + |BetweenClause(versionField)|
  {
  }

  /** The ceiling of a sync pull: the caller's, else the counter, else the table maximum. */
  function ResolvedMax(maxVersion: nat, counterRead: nat, dbMax: nat): (r: nat)
    ensures r == maxVersion || r == counterRead || r == dbMax
    ensures r == 0 <==> maxVersion == 0 && counterRead == 0 && dbMax == 0
  {
    if maxVersion != 0 then maxVersion else if counterRead != 0 then counterRead else dbMax
  }

  /** The watermark QueryByVersion returns. */
  function Watermark(target: Target, minVersion: nat, resolved: nat, ok: bool): (r: nat)
    ensures r == minVersion || r == resolved
  {
    if target == OtherTarget then minVersion
    else if minVersion >= resolved then resolved
    else if ok then resolved
    else minVersion
  }

  /**
   * Feeding the returned watermark back as the next minVersion never moves
   * the cursor back, as long as the resolved ceiling does not fall.
   */
  lemma CursorNeverRegresses(target: Target, minVersion: nat, resolved1: nat, resolved2: nat, ok1: bool, ok2: bool)
    requires minVersion <= resolved1 <= resolved2
    ensures var w1 := Watermark(target, minVersion, resolved1, ok1);
            minVersion <= w1 <= Watermark(target, w1, resolved2, ok2)
  {
  }

  /** A cursor ahead of the ceiling is moved back to the ceiling without a query. */
  lemma CursorAheadRegresses(target: Target, minVersion: nat, resolved: nat, ok: bool)
    requires target != OtherTarget && minVersion > resolved
    ensures Watermark(target, minVersion, resolved, ok) == resolved < minVersion
  {
  }

  /** A failed pull reports no progress; a successful one reports the ceiling. */
  lemma PullOutcome(target: Target, minVersion: nat, resolved: nat, ok: bool)
    requires target != OtherTarget && minVersion < resolved
    ensures Watermark(target, minVersion, resolved, ok) == if ok then resolved else minVersion
  {
  }

  /**
   * With no caller ceiling and both reads failing (or reading 0), the ceiling
   * is 0 and a pull returns 0, whatever minVersion was.
   */
  lemma FailedReadsResetCursor(target: Target, minVersion: nat, ok: bool)
    requires target != OtherTarget
    ensures Watermark(target, minVersion, ResolvedMax(0, 0, 0), ok) == 0
  {
  }

  /** With a covering counter, the counter as ceiling is at or above every stored version. */
  lemma CounterCeilingCoversTable(counter: nat, rows: map<string, Record>, field: string, dbMax: nat)
    requires counter > 0 && CounterCovers(counter, rows, field)
    ensures forall k :: k in rows ==> VersionOf(rows[k], field) <= ResolvedMax(0, counter, dbMax)
  {
  }

  // ------------------------------------------------------------------
  // The builder

  class List {
    const data: Data
    var sql: string
    var fields: string
    var where: string
    var orderBy: string
    var args: seq<Value>
    var leftJoins: seq<string>
    var leftJoinArgs: seq<Value>

    function State(): ListState
      reads this
    {
      ListState(sql, fields, where, orderBy, args, leftJoins, leftJoinArgs)
    }

    /** data.List(): the table's default projection, filter "1", no joins, no arguments. */
    constructor (data: Data)
      ensures this.data == data
      ensures State() == ListState("", data.DefaultFields, "1", "", [], [], [])
    {
      this.data := data;
      sql, fields, where, orderBy := "", data.DefaultFields, "1", "";
      args, leftJoins, leftJoinArgs := [], [], [];
    }

    /** parse(tag): render, writing the join-prefixed arguments back into `args`. */
    method Parse(tag: string) returns (q: Statement)
      modifies this`args
      ensures q == Render(data.Table, data.Deleted, old(State()), tag)
      ensures State() == AfterParse(old(State()))
    {
      if sql != "" {
        return Statement(sql, args);
      }
      var leftJoinsStr := "";
      if |leftJoins| > 0 {
        leftJoinsStr := " " + Join(leftJoins, ' ');
        args := leftJoinArgs + args;
      }
      var projection := fields;
      if tag == "COUNT" {
        projection := "COUNT(*)";
      }
      var deleted := "";
      if tag == "VERSION" {
        projection := projection + ", `" + data.Deleted + "`";
      } else {
        deleted := "`" + data.Deleted + "`=0 AND ";
      }
      q := Statement("SELECT " + projection + " FROM `" + data.Table + "`" + leftJoinsStr + " WHERE "
                     + deleted + where + orderBy, args);
    }

    /** Sql: a raw statement that overrides everything else. */
    method Sql(sql: string, args: seq<Value>) returns (self: List)
      modifies this`sql, this`args
      ensures self == this
      ensures State() == old(State()).(sql := sql, args := args)
    {
      this.sql := sql;
      this.args := args;
      self := this;
    }

    /** Fields: a projection, normalised like the default one. */
    method Fields(fields: string) returns (self: List)
      requires fields != ""
      modifies this`fields
      ensures self == this
      ensures State() == old(State()).(fields := QuotedFields(fields))
    {
      this.fields := ParseFields(fields);
      self := this;
    }

    /** Where: replaces both the filter and its arguments (the last call wins). */
    method Where(where: string, args: seq<Value>) returns (self: List)
      modifies this`where, this`args
      ensures self == this
      ensures State() == old(State()).(where := where, args := args)
    {
      this.where := where;
      this.args := args;
      self := this;
    }

    method OrderBy(orderBy: string) returns (self: List)
      modifies this`orderBy
      ensures self == this
      ensures State() == old(State()).(orderBy := " ORDER BY " + orderBy)
    {
      this.orderBy := " ORDER BY " + orderBy;
      self := this;
    }

    /** LeftJoin: joins and their arguments accumulate in call order. */
    method LeftJoin(join: string, on: string, args: seq<Value>) returns (self: List)
      modifies this`leftJoins, this`leftJoinArgs
      ensures self == this
      ensures State() == old(State()).(leftJoins := old(leftJoins) + ["LEFT JOIN " + join + " ON " + on],
                                       leftJoinArgs := old(leftJoinArgs) + args)
    {
      leftJoins := leftJoins + ["LEFT JOIN " + join + " ON " + on];
      leftJoinArgs := leftJoinArgs + args;
      self := this;
    }

    /** QueryAll: the plain query; success is the executor's and the mapper's. */
    method QueryAll(queryOk: bool) returns (ok: bool, sent: Statement)
      modifies this`args
      ensures sent == Render(data.Table, data.Deleted, old(State()), "")
      ensures ok == queryOk
      ensures State() == AfterParse(old(State()))
    {
      sent := Parse("");
      ok := queryOk;
    }

    /** Count: the count query; `result` is the scalar the executor returns. */
    method Count(result: int) returns (n: int, sent: Statement)
      modifies this`args
      ensures sent == Render(data.Table, data.Deleted, old(State()), "COUNT")
      ensures n == result
      ensures State() == AfterParse(old(State()))
    {
      sent := Parse("COUNT");
      n := result;
    }

    /** QueryByPage: the plain query with " LIMIT ?,?" and [start, num] bound last. */
    method QueryByPage(start: int, num: int, queryOk: bool) returns (ok: bool, sent: Statement)
      modifies this`args
      ensures var q := Render(data.Table, data.Deleted, old(State()), "");
              sent == Statement(q.sql + " LIMIT ?,?", q.args + [Int(start), Int(num)])
      ensures ok == queryOk
      ensures State() == AfterParse(old(State()))
    {
      var q := Parse("");
      var args := q.args + [Int(start), Int(num)];
      sent := Statement(q.sql + " LIMIT ?,?", args);
      ok := queryOk;
    }

    /** The ceiling: maxVersion, else the counter, else MAX(version); a failed read is 0. */
    method Ceiling(rd: Redis, db: Db, maxVersion: nat, counterOk: bool, maxOk: bool) returns (max: nat)
      ensures max == ResolvedMax(maxVersion, if counterOk then rd.Read(VersionKeyPrefix + data.Table) else 0,
                                 MaxRead(db.Rows(data.Table), data.Version, maxOk))
    {
      max := maxVersion;
      if max == 0 {
        max := rd.Get(VersionKeyPrefix + data.Table, counterOk);
        if max == 0 {
          max := db.QueryMaxVersion(data.Table, data.Version, maxOk);
        }
      }
    }

    /**
     * QueryByVersion: resolve the ceiling (maxVersion, else a plain read of
     * the counter, else the table maximum; nothing is written back), return
     * it without a query when minVersion has reached it, and otherwise send
     * the version-range query; the result is the ceiling on success and
     * minVersion on failure or for a container that is neither a slice nor
     * a map. `counterOk` and `maxOk` are the outcomes of the two reads,
     * whose errors the code ignores: a failed read is 0.
     */
    method QueryByVersion(rd: Redis, db: Db, target: Target, minVersion: nat, maxVersion: nat,
                          counterOk: bool, maxOk: bool, queryOk: bool)
      returns (newVersion: nat, sent: Option<Statement>)
      modifies this`args
      ensures var resolved := ResolvedMax(maxVersion, if counterOk then rd.Read(VersionKeyPrefix + data.Table) else 0,
                                          MaxRead(db.Rows(data.Table), data.Version, maxOk));
              && newVersion == Watermark(target, minVersion, resolved, queryOk)
              && sent == (if target != OtherTarget && minVersion < resolved
                          then Some(VersionQuery(data.Table, data.Deleted, data.Version, old(State()), minVersion, resolved))
                          else None)
              && State() == if sent.Some? then AfterParse(old(State())) else old(State())
    {
      if target == OtherTarget {
        return minVersion, None;
      }
      var max := Ceiling(rd, db, maxVersion, counterOk, maxOk);
      if minVersion >= max {
        return max, None;
      }
      var q := Parse("VERSION");
      assert "`" + data.Deleted + "`=0 AND " == DeletedFilter(data.Deleted);
      var args := q.args + [Int(minVersion + 1), Int(max)];
      var sql := RemoveFirst(q.sql, "`" + data.Deleted + "`=0 AND ");
      var between := " AND `" + data.Version + "` BETWEEN ? AND ?";
      sent := Some(Statement(sql + between, args));
      newVersion := if queryOk then max else minVersion;
    }
  }
}
