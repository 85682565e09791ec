/** The generated SQL workload: four lists of commands (insert, select, update, delete) that are run
    against one table of a Postgres or MySQL database. */
module SqlWorkload {
  import opened Wrappers
  import opened Text

  /** `Unknown` stands for any other application type name. */
  datatype AppType = Postgres | MySql | Unknown

  datatype Command =
    | Create(table: string)
    | Insert(table: string, key: string, value: string)
    | Select(table: string, key: string)
    | Update(table: string, value: string, key: string)
    | Delete(table: string, key: string)

  datatype Workload = Workload(insert: seq<Command>, select: seq<Command>, update: seq<Command>, delete: seq<Command>)

  // ----- the text of a command -----

  function KeyColumn(app: AppType): string {
    if app.MySql? then "`key`" else "key"
  }

  function Columns(app: AppType): string {
    if app.MySql? then "\n\t\t\t`key` VARCHAR(45) NOT NULL ,\n\t\t\tvalue VARCHAR(255)\n\t\t  )"
    else "\n\t\tkey varchar(45) NOT NULL,\n\t\tvalue varchar(45) NOT NULL\n\t  )"
  }

  /** A piece of text with one part filled in and closed by `stop`. */
  function Fill(front: string, part: string, stop: char, rest: string): string {
    front + part + ([stop] + rest)
  }

  /** The text that is sent to the server. */
  function Print(app: AppType, c: Command): string {
    match c
    case Create(t) => Fill("CREATE TABLE IF NOT EXISTS ", t, ' ', "(" + Columns(app))
    case Insert(t, k, v) => Fill("INSERT INTO ", t, ' ', Fill("VALUES('", k, '\'', Fill(", '", v, '\'', ")")))
    case Select(t, k) => Fill("SELECT * FROM ", t, ' ', Fill("WHERE " + KeyColumn(app) + "='", k, '\'', ""))
    case Update(t, v, k) =>
      Fill("UPDATE ", t, ' ', Fill("SET value='", v, '\'', Fill(" WHERE " + KeyColumn(app) + "='", k, '\'', "")))
    case Delete(t, k) => Fill("DELETE FROM ", t, ' ', Fill("WHERE " + KeyColumn(app) + "='", k, '\'', ""))
  }

  /** One text filled into another. */
  lemma FillTwice(front: string, part: string, stop: char, front': string, part': string, rest: string)
    ensures front + part + ([stop] + (front' + part' + rest)) == front + part + ([stop] + front') + part' + rest
  {
  }

  lemma Quote(front: string, k: string)
    ensures front + k + (['\''] + "") == front + k + "'"
  {
    assert ['\''] + "" == "'";
  }

  /** The texts, spelled out. */
  lemma InsertText(app: AppType, t: string, k: string, v: string)
    ensures Print(app, Insert(t, k, v)) == "INSERT INTO " + t + " VALUES('" + k + "', '" + v + "')"
  {
    var close := ['\''] + ")";
    FillTwice("INSERT INTO ", t, ' ', "VALUES('", k, ['\''] + Fill(", '", v, '\'', ")"));
    FillTwice("INSERT INTO " + t + ([' '] + "VALUES('"), k, '\'', ", '", v, close);
    assert close == "')" && ['\''] + ", '" == "', '" && [' '] + "VALUES('" == " VALUES('";
  }

  lemma WhereText(app: AppType, front: string, t: string, k: string)
    ensures var column := if app.MySql? then "`key`" else "key";
            Fill(front, t, ' ', Fill("WHERE " + KeyColumn(app) + "='", k, '\'', "")) ==
            front + t + (" WHERE " + column + "='") + k + "'"
  {
    var column := KeyColumn(app);
    var where := "WHERE " + column + "='";
    FillTwice(front, t, ' ', where, k, ['\''] + "");
    assert [' '] + where == " WHERE " + column + "='";
    Quote(front + t + ([' '] + where), k);
  }

  lemma SelectText(app: AppType, t: string, k: string)
    ensures var column := if app.MySql? then "`key`" else "key";
            Print(app, Select(t, k)) == "SELECT * FROM " + t + (" WHERE " + column + "='") + k + "'"
  {
    hide Fill, KeyColumn;
    WhereText(app, "SELECT * FROM ", t, k);
  }

  lemma UpdateText(app: AppType, t: string, v: string, k: string)
    ensures var column := if app.MySql? then "`key`" else "key";
            Print(app, Update(t, v, k)) == "UPDATE " + t + " SET value='" + v + ("' WHERE " + column + "='") + k + "'"
  {
    var column := KeyColumn(app);
    var where := " WHERE " + column + "='";
    FillTwice("UPDATE ", t, ' ', "SET value='", v, ['\''] + Fill(where, k, '\'', ""));
    var before := "UPDATE " + t + ([' '] + "SET value='");
    FillTwice(before, v, '\'', where, k, ['\''] + "");
    assert [' '] + "SET value='" == " SET value='";
    assert ['\''] + where == "' WHERE " + column + "='";
    Quote(before + v + (['\''] + where), k);
  }

  lemma DeleteText(app: AppType, t: string, k: string)
    ensures var column := if app.MySql? then "`key`" else "key";
            Print(app, Delete(t, k)) == "DELETE FROM " + t + (" WHERE " + column + "='") + k + "'"
  {
    hide Fill, KeyColumn;
    WhereText(app, "DELETE FROM ", t, k);
  }

  /** Names and values that need no escaping. */
  ghost predicate Plain(c: Command) {
    && ' ' !in c.table
    && (!c.Create? ==> '\'' !in c.key)
    && (c.Insert? || c.Update? ==> '\'' !in c.value)
  }

  lemma FillUnique(front: string, a: string, b: string, stop: char, x: string, y: string)
    requires stop !in a && stop !in b
    requires Fill(front, a, stop, x) == Fill(front, b, stop, y)
    ensures a == b && x == y
  {
    var s := Fill(front, a, stop, x);
    assert s[|front|..] == a + [stop] + x;
    assert s[|front|..] == b + [stop] + y;
    CutUnique(a, b, stop, x, y);
  }

  lemma FillBegins(front: string, part: string, stop: char, rest: string)
    requires front != []
    ensures Fill(front, part, stop, rest) != [] && Fill(front, part, stop, rest)[0] == front[0]
  {
  }

  function Initial(c: Command): char {
    match c
    case Create(_) => 'C'
    case Insert(_, _, _) => 'I'
    case Select(_, _) => 'S'
    case Update(_, _, _) => 'U'
    case Delete(_, _) => 'D'
  }

  lemma PrintBegins(app: AppType, c: Command)
    ensures Print(app, c) != [] && Print(app, c)[0] == Initial(c)
  {
    hide Fill;
    match c {
      case Create(t) => FillBegins("CREATE TABLE IF NOT EXISTS ", t, ' ', "(" + Columns(app));
      case Insert(t, k, v) => FillBegins("INSERT INTO ", t, ' ', Fill("VALUES('", k, '\'', Fill(", '", v, '\'', ")")));
      case Select(t, k) => FillBegins("SELECT * FROM ", t, ' ', Fill("WHERE " + KeyColumn(app) + "='", k, '\'', ""));
      case Update(t, v, k) =>
        var rest := Fill(" WHERE " + KeyColumn(app) + "='", k, '\'', "");
        FillBegins("UPDATE ", t, ' ', Fill("SET value='", v, '\'', rest));
      case Delete(t, k) => FillBegins("DELETE FROM ", t, ' ', Fill("WHERE " + KeyColumn(app) + "='", k, '\'', ""));
    }
  }

  /** The text determines the command, so that lists of commands stand for lists of texts. */
  lemma PrintInjective(app: AppType, c: Command, d: Command)
    requires Plain(c) && Plain(d)
    requires Print(app, c) == Print(app, d)
    ensures c == d
  {
    hide Fill;
    PrintBegins(app, c);
    PrintBegins(app, d);
    var column := KeyColumn(app);
    match c {
      case Create(t) =>
        FillUnique("CREATE TABLE IF NOT EXISTS ", t, d.table, ' ', "(" + Columns(app), "(" + Columns(app));
      case Insert(t, k, v) =>
        FillUnique("INSERT INTO ", t, d.table, ' ', Fill("VALUES('", k, '\'', Fill(", '", v, '\'', ")")),
                   Fill("VALUES('", d.key, '\'', Fill(", '", d.value, '\'', ")")));
        FillUnique("VALUES('", k, d.key, '\'', Fill(", '", v, '\'', ")"), Fill(", '", d.value, '\'', ")"));
        FillUnique(", '", v, d.value, '\'', ")", ")");
      case Select(t, k) =>
        var front := "WHERE " + column + "='";
        FillUnique("SELECT * FROM ", t, d.table, ' ', Fill(front, k, '\'', ""), Fill(front, d.key, '\'', ""));
        FillUnique(front, k, d.key, '\'', "", "");
      case Update(t, v, k) =>
        var front := " WHERE " + column + "='";
        FillUnique("UPDATE ", t, d.table, ' ', Fill("SET value='", v, '\'', Fill(front, k, '\'', "")),
                   Fill("SET value='", d.value, '\'', Fill(front, d.key, '\'', "")));
        FillUnique("SET value='", v, d.value, '\'', Fill(front, k, '\'', ""), Fill(front, d.key, '\'', ""));
        FillUnique(front, k, d.key, '\'', "", "");
      case Delete(t, k) =>
        var front := "WHERE " + column + "='";
        FillUnique("DELETE FROM ", t, d.table, ' ', Fill(front, k, '\'', ""), Fill(front, d.key, '\'', ""));
        FillUnique(front, k, d.key, '\'', "", "");
    }
  }

  // ----- the database -----

  datatype Row = Row(key: string, value: string)

  /** Tables by name; the key column carries no uniqueness constraint. */
  type Database = map<string, seq<Row>>

  predicate HasKey(rows: seq<Row>, key: string) {
    exists i | 0 <= i < |rows| :: rows[i].key == key
  }

  function Updated(rows: seq<Row>, key: string, value: string): (r: seq<Row>)
    ensures |r| == |rows|
  {
    seq(|rows|, i requires 0 <= i < |rows| => if rows[i].key == key then rows[i].(value := value) else rows[i])
  }

  function Without(rows: seq<Row>, key: string): seq<Row> {
    if rows == [] then []
    else (if rows[0].key == key then [] else [rows[0]]) + Without(rows[1..], key)
  }

  /** One command; `None` is an error from the server. A select is an error if it finds no row. */
  function Exec(db: Database, c: Command): Option<Database> {
    if c.Create? then Some(if c.table in db then db else db[c.table := []])
    else if c.table !in db then None
    else
      match c
      case Insert(t, k, v) => Some(db[t := db[t] + [Row(k, v)]])
      case Select(t, k) => if HasKey(db[t], k) then Some(db) else None
      case Update(t, v, k) => Some(db[t := Updated(db[t], k, v)])
      case Delete(t, k) => Some(db[t := Without(db[t], k)])
  }

  /** A list of commands; it stops at the first error, and what was done before stays done. */
  function ExecAll(db: Database, cs: seq<Command>): (Database, bool)
    decreases |cs|
  {
    if cs == [] then (db, true)
    else
      match Exec(db, cs[0])
      case None => (db, false)
      case Some(db') => ExecAll(db', cs[1..])
  }

  /** Creating a table that exists leaves it alone, and a command on a missing table fails. */
  lemma TableMustExist(db: Database, c: Command)
    ensures Exec(db, Create(c.table)) == Some(if c.table in db then db else db[c.table := []])
    ensures !c.Create? && c.table !in db ==> Exec(db, c) == None
  {
  }

  lemma {:induction false} ExecAllConcat(db: Database, a: seq<Command>, b: seq<Command>)
    ensures ExecAll(db, a + b) == if ExecAll(db, a).1 then ExecAll(ExecAll(db, a).0, b) else ExecAll(db, a)
    decreases |a|
  {
    if a == [] {
      assert a + b == b;
    } else {
      assert (a + b)[0] == a[0] && (a + b)[1..] == a[1..] + b;
      if Exec(db, a[0]).Some? {
        ExecAllConcat(Exec(db, a[0]).value, a[1..], b);
      }
    }
  }

  /** `ExecuteCommand`: an error, and no effect, if there is no connection. */
  method ExecuteCommand(db: Database, commands: seq<Command>, connects: bool) returns (db': Database, ok: bool)
    ensures (db', ok) == if connects then ExecAll(db, commands) else (db, false)
  {
    db', ok := db, connects;
    if !connects {
      return;
    }
    var i := 0;
    assert commands[0..] == commands;
    while i < |commands|
      invariant 0 <= i <= |commands|
      invariant ok && ExecAll(db', commands[i..]) == ExecAll(db, commands)
    {
      assert commands[i..][0] == commands[i] && commands[i..][1..] == commands[i + 1..];
      var next := Exec(db', commands[i]);
      if next.None? {
        ok := false;
        return;
      }
      db' := next.value;
      i := i + 1;
    }
  }

  function Failing(db: Database, queries: seq<Command>): seq<Command> {
    if queries == [] then []
    else
      var n := |queries| - 1;
      Failing(db, queries[..n]) + (if Exec(db, queries[n]).None? then [queries[n]] else [])
  }

  /** `CheckDataPresent`: runs all queries and reports those without a row, in order; `ok` is whether
      it returns `nil`. */
  method CheckDataPresent(db: Database, queries: seq<Command>, connects: bool)
    returns (ok: bool, notFound: seq<Command>)
    ensures ok <==> connects && Failing(db, queries) == []
    ensures connects ==> notFound == Failing(db, queries)
  {
    notFound := [];
    if !connects {
      return false, notFound;
    }
    var i := 0;
    while i < |queries|
      invariant 0 <= i <= |queries|
      invariant notFound == Failing(db, queries[..i])
    {
      assert queries[..i + 1][..i] == queries[..i];
      if Exec(db, queries[i]).None? {
        notFound := notFound + [queries[i]];
      }
      i := i + 1;
    }
    assert queries[..i] == queries;
    ok := notFound == [];
  }

  /** The failing queries, in their order: the check goes through a list piece by piece. */
  lemma {:induction false} FailingAdds(db: Database, a: seq<Command>, b: seq<Command>)
    ensures Failing(db, a + b) == Failing(db, a) + Failing(db, b)
    decreases |b|
  {
    hide Exec;
    if b == [] {
      assert a + b == a;
    } else {
      var n := |b| - 1;
      FailingAdds(db, a, b[..n]);
      assert (a + b)[..|a + b| - 1] == a + b[..n];
    }
  }

  /** A select fails if and only if its table is missing or holds no row with its key. */
  lemma SelectFails(db: Database, t: string, k: string)
    ensures Failing(db, [Select(t, k)]) ==
            if t in db && exists i | 0 <= i < |db[t]| :: db[t][i].key == k then [] else [Select(t, k)]
  {
    assert Failing(db, [Select(t, k)][..0]) == [];
  }

  lemma {:induction false} FailingNone(db: Database, queries: seq<Command>)
    requires forall i | 0 <= i < |queries| :: Exec(db, queries[i]).Some?
    ensures Failing(db, queries) == []
  {
    if queries != [] {
      FailingNone(db, queries[..|queries| - 1]);
    }
  }

  lemma {:induction false} FailingAll(db: Database, queries: seq<Command>)
    requires forall i | 0 <= i < |queries| :: Exec(db, queries[i]).None?
    ensures Failing(db, queries) == queries
  {
    hide Exec;
    if queries != [] {
      var n := |queries| - 1;
      FailingAll(db, queries[..n]);
      assert queries == queries[..n] + [queries[n]];
    }
  }

  // ----- the generator -----

  function TableName(app: AppType, suffix: string): string {
    match app
    case Postgres => "pg_validation_" + suffix
    case MySql => "mysql_validation_" + suffix
    case Unknown => ""
  }

  function FirstValue(random: string): string {
    "Value-" + random
  }

  function SecondValue(random: string): string {
    "Value-Updated-" + random
  }

  function Inserts(t: string, first: seq<string>, n: nat): seq<Command>
    requires n <= |first|
  {
    if n == 0 then [] else Inserts(t, first, n - 1) + [Insert(t, Itoa(n - 1), FirstValue(first[n - 1]))]
  }

  function Selects(t: string, n: nat): seq<Command> {
    if n == 0 then [] else Selects(t, n - 1) + [Select(t, Itoa(n - 1))]
  }

  function Updates(t: string, second: seq<string>, n: nat): seq<Command>
    requires n <= |second|
  {
    if n == 0 then [] else Updates(t, second, n - 1) + [Update(t, SecondValue(second[n - 1]), Itoa(n - 1))]
  }

  function Deletes(t: string, n: nat): seq<Command> {
    if n == 0 then [] else Deletes(t, n - 1) + [Delete(t, Itoa(n - 1))]
  }

  function Generated(n: nat, app: AppType, suffix: string, first: seq<string>, second: seq<string>): Workload
    requires n <= |first| && n <= |second|
  {
    var t := TableName(app, suffix);
    if app.Unknown? then Workload(Inserts(t, first, n), [], [], [])
    else Workload([Create(t)] + Inserts(t, first, n), Selects(t, n), Updates(t, second, n), Deletes(t, n))
  }

  lemma GeneratedNone(app: AppType, suffix: string, first: seq<string>, second: seq<string>)
    ensures Generated(0, app, suffix, first, second) ==
            Workload(if app.Unknown? then [] else [Create(TableName(app, suffix))], [], [], [])
  {
  }

  lemma GeneratedNext(n: nat, app: AppType, suffix: string, first: seq<string>, second: seq<string>)
    requires n < |first| && n < |second|
    ensures var t, w := TableName(app, suffix), Generated(n, app, suffix, first, second);
            var insert := w.insert + [Insert(t, Itoa(n), FirstValue(first[n]))];
            Generated(n + 1, app, suffix, first, second) ==
            if app.Unknown? then w.(insert := insert)
            else Workload(insert, w.select + [Select(t, Itoa(n))],
                          w.update + [Update(t, SecondValue(second[n]), Itoa(n))], w.delete + [Delete(t, Itoa(n))])
  {
    hide Itoa, FirstValue, SecondValue, TableName;
  }

  lemma {:induction false} ListsAt(t: string, first: seq<string>, second: seq<string>, n: nat, i: nat)
    requires i < n <= |first| && n <= |second|
    ensures |Inserts(t, first, n)| == n && Inserts(t, first, n)[i] == Insert(t, Itoa(i), "Value-" + first[i])
    ensures |Selects(t, n)| == n && Selects(t, n)[i] == Select(t, Itoa(i))
    ensures |Updates(t, second, n)| == n && Updates(t, second, n)[i] == Update(t, "Value-Updated-" + second[i], Itoa(i))
    ensures |Deletes(t, n)| == n && Deletes(t, n)[i] == Delete(t, Itoa(i))
  {
    hide Itoa;
    ListLengths(t, first, second, n - 1);
    if i < n - 1 {
      ListsAt(t, first, second, n - 1, i);
    }
  }

  lemma {:induction false} ListLengths(t: string, first: seq<string>, second: seq<string>, n: nat)
    requires n <= |first| && n <= |second|
    ensures |Inserts(t, first, n)| == |Selects(t, n)| == |Updates(t, second, n)| == |Deletes(t, n)| == n
  {
    hide Itoa;
    if n > 0 {
      ListLengths(t, first, second, n - 1);
    }
  }

  /** The workload, command by command: every list names the one table and the keys 0, 1, 2 and so on; the
      insert list begins with the creation of the table. */
  lemma GeneratedAt(n: nat, app: AppType, suffix: string, first: seq<string>, second: seq<string>, i: nat)
    requires i < n <= |first| && n <= |second| && !app.Unknown?
    ensures var w := Generated(n, app, suffix, first, second);
            var t := (if app.Postgres? then "pg_validation_" else "mysql_validation_") + suffix;
            && |w.insert| == n + 1 && |w.select| == |w.update| == |w.delete| == n
            && w.insert[0] == Create(t) && w.insert[i + 1] == Insert(t, Itoa(i), "Value-" + first[i])
            && w.select[i] == Select(t, Itoa(i)) && w.delete[i] == Delete(t, Itoa(i))
            && w.update[i] == Update(t, "Value-Updated-" + second[i], Itoa(i))
  {
    hide Itoa, Inserts, Selects, Updates, Deletes;
    ListsAt(TableName(app, suffix), first, second, n, i);
  }

  /** What `RandomString` returns. */
  ghost predicate Letters(s: string) {
    forall i | 0 <= i < |s| :: 'a' <= s[i] <= 'z'
  }

  ghost predicate AllLetters(ss: seq<string>) {
    forall i | 0 <= i < |ss| :: Letters(ss[i])
  }

  ghost predicate AllPlain(cs: seq<Command>) {
    forall i | 0 <= i < |cs| :: Plain(cs[i])
  }

  /** Commands made of random letters need no escaping. */
  lemma {:induction false} GeneratedPlain(n: nat, app: AppType, suffix: string, first: seq<string>, second: seq<string>)
    requires n <= |first| && n <= |second| && Letters(suffix) && AllLetters(first) && AllLetters(second)
    ensures var w := Generated(n, app, suffix, first, second);
            AllPlain(w.insert) && AllPlain(w.select) && AllPlain(w.update) && AllPlain(w.delete)
  {
    hide Generated, Plain, Letters, Itoa, FirstValue, SecondValue, TableName;
    PlainTable(app, suffix);
    if n == 0 {
      GeneratedNone(app, suffix, first, second);
    } else {
      GeneratedPlain(n - 1, app, suffix, first, second);
      GeneratedNext(n - 1, app, suffix, first, second);
      PlainRow(TableName(app, suffix), n - 1, first[n - 1], second[n - 1]);
    }
  }

  lemma PlainTable(app: AppType, suffix: string)
    requires Letters(suffix)
    ensures ' ' !in TableName(app, suffix) && Plain(Create(TableName(app, suffix)))
  {
  }

  lemma PlainRow(t: string, k: nat, first: string, second: string)
    requires ' ' !in t && Letters(first) && Letters(second)
    ensures Plain(Insert(t, Itoa(k), FirstValue(first))) && Plain(Update(t, SecondValue(second), Itoa(k)))
    ensures Plain(Select(t, Itoa(k))) && Plain(Delete(t, Itoa(k)))
  {
    hide Itoa;
  }

  /** So the texts of two such lists are the same only if the lists are. */
  lemma TextsDetermine(app: AppType, a: seq<Command>, b: seq<Command>)
    requires AllPlain(a) && AllPlain(b) && |a| == |b|
    requires forall i | 0 <= i < |a| :: Print(app, a[i]) == Print(app, b[i])
    ensures a == b
  {
    hide Print, Plain;
    forall i | 0 <= i < |a| ensures a[i] == b[i] {
      PrintInjective(app, a[i], b[i]);
    }
  }

  /** `GenerateRandomSQLCommands`. The random strings are arguments: `suffix` ends the table name,
      and `first` and `second` are the values before and after the update. */
  method GenerateRandomSQLCommands(count: int, app: AppType, suffix: string, first: seq<string>, second: seq<string>)
    returns (w: Workload)
    requires count <= |first| && count <= |second|
    ensures w == Generated(if count < 0 then 0 else count, app, suffix, first, second)
  {
    hide Itoa, Generated;
    var tableName := "";
    var insert, select, update, delete: seq<Command> := [], [], [], [];
    if app.Postgres? {
      tableName := "pg_validation_" + suffix;
      insert := [Create(tableName)];
    } else if app.MySql? {
      tableName := "mysql_validation_" + suffix;
      insert := [Create(tableName)];
    }
    GeneratedNone(app, suffix, first, second);
    var counter := 0;
    while counter < count
      invariant 0 <= counter <= if count < 0 then 0 else count
      invariant Workload(insert, select, update, delete) == Generated(counter, app, suffix, first, second)
      decreases count - counter
    {
      GeneratedNext(counter, app, suffix, first, second);
      var key := Itoa(counter);
      insert := insert + [Insert(tableName, key, FirstValue(first[counter]))];
      if app.Postgres? || app.MySql? {
        select := select + [Select(tableName, key)];
        update := update + [Update(tableName, SecondValue(second[counter]), key)];
        delete := delete + [Delete(tableName, key)];
      }
      counter := counter + 1;
    }
    w := Workload(insert, select, update, delete);
  }

  // ----- the four lists agree -----

  /** The table of `n` rows of which the first `k` have been updated. */
  function Rows(first: seq<string>, second: seq<string>, n: nat, k: nat): (rows: seq<Row>)
    requires n <= |first| && n <= |second|
    ensures |rows| == n
  {
    seq(n, i requires 0 <= i < n => Row(Itoa(i), if i < k then SecondValue(second[i]) else FirstValue(first[i])))
  }

  lemma RowsAt(first: seq<string>, second: seq<string>, n: nat, k: nat, i: nat)
    requires i < n <= |first| && n <= |second|
    ensures Rows(first, second, n, k)[i] ==
            Row(Itoa(i), if i < k then "Value-Updated-" + second[i] else "Value-" + first[i])
  {
    hide Itoa;
  }

  lemma {:induction false} RunInserts(db: Database, t: string, first: seq<string>, second: seq<string>, n: nat)
    requires n <= |first| && n <= |second| && t in db && db[t] == []
    ensures ExecAll(db, Inserts(t, first, n)) == (db[t := Rows(first, second, n, 0)], true)
  {
    hide Itoa;
    if n == 0 {
      assert Inserts(t, first, n) == [];
      assert db[t := Rows(first, second, n, 0)] == db;
    } else {
      RunInserts(db, t, first, second, n - 1);
      ExecLast(db, Inserts(t, first, n - 1), Insert(t, Itoa(n - 1), FirstValue(first[n - 1])));
      assert Rows(first, second, n, 0) == Rows(first, second, n - 1, 0) + [Row(Itoa(n - 1), FirstValue(first[n - 1]))];
      Overwrite(db, t, Rows(first, second, n - 1, 0), Rows(first, second, n, 0));
    }
  }

  lemma ExecLast(db: Database, cs: seq<Command>, c: Command)
    requires ExecAll(db, cs).1 && Exec(ExecAll(db, cs).0, c).Some?
    ensures ExecAll(db, cs + [c]) == (Exec(ExecAll(db, cs).0, c).value, true)
  {
    ExecAllConcat(db, cs, [c]);
    assert [c][1..] == [];
  }

  lemma UpdateOne(first: seq<string>, second: seq<string>, n: nat, k: nat)
    requires n <= |first| && n <= |second| && k < n
    ensures Updated(Rows(first, second, n, k), Itoa(k), SecondValue(second[k])) == Rows(first, second, n, k + 1)
  {
    hide Itoa;
    forall i | 0 <= i < n && i != k ensures Itoa(i) != Itoa(k) {
      if Itoa(i) == Itoa(k) {
        ItoaInjective(i, k);
      }
    }
  }

  lemma {:induction false} RunUpdates(db: Database, t: string, first: seq<string>, second: seq<string>, n: nat, k: nat)
    requires n <= |first| && n <= |second| && k <= n
    requires t in db && db[t] == Rows(first, second, n, 0)
    ensures ExecAll(db, Updates(t, second, k)) == (db[t := Rows(first, second, n, k)], true)
  {
    hide Itoa, Rows, Updated;
    if k == 0 {
      assert Updates(t, second, k) == [];
      assert db[t := Rows(first, second, n, k)] == db;
    } else {
      RunUpdates(db, t, first, second, n, k - 1);
      ExecLast(db, Updates(t, second, k - 1), Update(t, SecondValue(second[k - 1]), Itoa(k - 1)));
      UpdateOne(first, second, n, k - 1);
      Overwrite(db, t, Rows(first, second, n, k - 1), Rows(first, second, n, k));
    }
  }

  lemma {:induction false} WithoutAbsent(rows: seq<Row>, key: string)
    requires !HasKey(rows, key)
    ensures Without(rows, key) == rows
  {
    if rows != [] {
      assert rows[0].key != key;
      forall i | 0 <= i < |rows[1..]| ensures rows[1..][i].key != key {
        assert rows[1..][i] == rows[i + 1];
      }
      WithoutAbsent(rows[1..], key);
      assert rows == [rows[0]] + rows[1..];
    }
  }

  ghost predicate Numbered(rows: seq<Row>, from: nat) {
    forall i | 0 <= i < |rows| :: rows[i].key == Itoa(from + i)
  }

  lemma DeleteOne(rows: seq<Row>, from: nat)
    requires rows != [] && Numbered(rows, from)
    ensures Without(rows, Itoa(from)) == rows[1..] && Numbered(rows[1..], from + 1)
  {
    hide Itoa;
    var tail := rows[1..];
    assert rows[0].key == Itoa(from + 0);
    forall i | 0 <= i < |tail| ensures tail[i].key == Itoa(from + 1 + i) && tail[i].key != Itoa(from) {
      assert tail[i] == rows[i + 1];
      if Itoa(from + 1 + i) == Itoa(from) {
        ItoaInjective(from + 1 + i, from);
      }
    }
    WithoutAbsent(tail, Itoa(from));
  }

  lemma {:induction false} RunDeletes(db: Database, t: string, n: nat, k: nat)
    requires t in db && |db[t]| == n && Numbered(db[t], 0) && k <= n
    ensures ExecAll(db, Deletes(t, k)) == (db[t := db[t][k..]], true)
    ensures Numbered(db[t][k..], k)
  {
    hide Itoa, Without;
    if k == 0 {
      assert Deletes(t, k) == [];
      assert db[t][k..] == db[t] && db[t := db[t]] == db;
    } else {
      RunDeletes(db, t, n, k - 1);
      ExecLast(db, Deletes(t, k - 1), Delete(t, Itoa(k - 1)));
      DeleteOne(db[t][k - 1..], k - 1);
      assert db[t][k - 1..][1..] == db[t][k..];
      Overwrite(db, t, db[t][k - 1..], db[t][k..]);
    }
  }

  lemma {:induction false} SelectsAt(t: string, n: nat)
    ensures |Selects(t, n)| == n
    ensures forall i | 0 <= i < n :: Selects(t, n)[i] == Select(t, Itoa(i))
  {
    hide Itoa;
    if n > 0 {
      SelectsAt(t, n - 1);
    }
  }

  lemma SelectsFind(db: Database, t: string, n: nat)
    requires t in db && |db[t]| == n && Numbered(db[t], 0)
    ensures Failing(db, Selects(t, n)) == []
  {
    hide Itoa;
    SelectsAt(t, n);
    forall i | 0 <= i < n ensures Exec(db, Selects(t, n)[i]).Some? {
      assert db[t][i].key == Itoa(0 + i);
      assert HasKey(db[t], Itoa(i));
    }
    FailingNone(db, Selects(t, n));
  }

  lemma SelectsMiss(db: Database, t: string, n: nat)
    requires t in db && db[t] == []
    ensures Failing(db, Selects(t, n)) == Selects(t, n)
  {
    hide Itoa;
    SelectsAt(t, n);
    FailingAll(db, Selects(t, n));
  }

  ghost predicate DistinctKeys(rows: seq<Row>) {
    forall i, j | 0 <= i < j < |rows| :: rows[i].key != rows[j].key
  }

  /** The workload on a fresh table, step by step: the insert list fills the table and every select
      finds its row; the update list keeps the keys and replaces every value; the delete list,
      with or without the updates before it, leaves the table empty, and then every select fails.
      The other tables are left alone throughout. */
  lemma WorkloadAgrees(db: Database, app: AppType, suffix: string, first: seq<string>, second: seq<string>, n: nat)
    requires !app.Unknown? && TableName(app, suffix) !in db
    requires n <= |first| && n <= |second|
    ensures var t, w := TableName(app, suffix), Generated(n, app, suffix, first, second);
            var inserted, updated := db[t := Rows(first, second, n, 0)], db[t := Rows(first, second, n, n)];
            && DistinctKeys(inserted[t])
            && ExecAll(db, w.insert) == (inserted, true) && Failing(inserted, w.select) == []
            && ExecAll(inserted, w.update) == (updated, true) && Failing(updated, w.select) == []
            && ExecAll(inserted, w.delete) == (db[t := []], true)
            && ExecAll(updated, w.delete) == (db[t := []], true) && Failing(db[t := []], w.select) == w.select
  {
    hide Itoa;
    hide Rows, Inserts, Updates, Deletes, Selects;
    var t := TableName(app, suffix);
    var created := db[t := []];
    var inserted, updated := db[t := Rows(first, second, n, 0)], db[t := Rows(first, second, n, n)];
    RowsNumbered(first, second, n, 0);
    RowsNumbered(first, second, n, n);
    CreateFirst(db, t, Inserts(t, first, n));
    RunInserts(created, t, first, second, n);
    assert created[t := inserted[t]] == inserted;
    RunUpdates(inserted, t, first, second, n, n);
    assert inserted[t := updated[t]] == updated;
    SelectsFind(inserted, t, n);
    SelectsFind(updated, t, n);
    DeletesEmpty(inserted, t, n);
    DeletesEmpty(updated, t, n);
    assert inserted[t := []] == created && updated[t := []] == created;
    SelectsMiss(created, t, n);
    KeysDistinct(inserted[t]);
  }

  lemma RowsNumbered(first: seq<string>, second: seq<string>, n: nat, k: nat)
    requires n <= |first| && n <= |second|
    ensures Numbered(Rows(first, second, n, k), 0)
  {
    hide Itoa;
  }

  lemma DeletesEmpty(db: Database, t: string, n: nat)
    requires t in db && |db[t]| == n && Numbered(db[t], 0)
    ensures ExecAll(db, Deletes(t, n)) == (db[t := []], true)
  {
    RunDeletes(db, t, n, n);
    assert db[t][n..] == [];
  }

  lemma KeysDistinct(rows: seq<Row>)
    requires Numbered(rows, 0)
    ensures DistinctKeys(rows)
  {
    hide Itoa;
    forall i, j | 0 <= i < j < |rows| ensures rows[i].key != rows[j].key {
      assert rows[i].key == Itoa(0 + i) && rows[j].key == Itoa(0 + j);
      if rows[i].key == rows[j].key {
        ItoaInjective(i, j);
      }
    }
  }

  lemma CreateFirst(db: Database, t: string, cs: seq<Command>)
    requires t !in db
    ensures ExecAll(db, [Create(t)] + cs) == ExecAll(db[t := []], cs)
  {
    ExecAllConcat(db, [Create(t)], cs);
    assert [Create(t)][1..] == [];
  }

  /** An update really changes the value, since the random parts have the same length. */
  lemma UpdateChangesValue(first: seq<string>, second: seq<string>, n: nat, i: nat)
    requires n <= |first| && n <= |second| && i < n && |first[i]| == |second[i]|
    ensures Rows(first, second, n, 0)[i].key == Rows(first, second, n, n)[i].key
    ensures Rows(first, second, n, 0)[i].value != Rows(first, second, n, n)[i].value
  {
    assert |FirstValue(first[i])| != |SecondValue(second[i])|;
  }

  /** The check passes although inserts failed if and only if the type is unknown and there was something
      to insert: there is no table for it, and no select was generated. */
  lemma UnknownTypePassesVacuously(db: Database, app: AppType, suffix: string, first: seq<string>,
                                   second: seq<string>, n: nat)
    requires TableName(app, suffix) !in db && n <= |first| && n <= |second|
    ensures var w := Generated(n, app, suffix, first, second);
            var run := ExecAll(db, w.insert);
            !run.1 && Failing(run.0, w.select) == [] <==> app.Unknown? && n > 0
  {
    hide Itoa, Exec, Failing, FirstValue;
    if !app.Unknown? {
      WorkloadAgrees(db, app, suffix, first, second, n);
    } else {
      assert Generated(n, app, suffix, first, second).select == [];
      NoQueriesPass(db);
      if n > 0 {
        FirstInsertFails(db, first, n);
      }
    }
  }

  lemma NoQueriesPass(db: Database)
    ensures Failing(db, []) == []
  {
  }

  lemma {:induction false} FirstInsertFails(db: Database, first: seq<string>, n: nat)
    requires "" !in db && 0 < n <= |first|
    ensures ExecAll(db, Inserts("", first, n)) == (db, false)
  {
    hide Itoa;
    var last := Insert("", Itoa(n - 1), FirstValue(first[n - 1]));
    ExecAllConcat(db, Inserts("", first, n - 1), [last]);
    if n > 1 {
      FirstInsertFails(db, first, n - 1);
    }
  }
}
