/** What the `pxctl` line parser means: it reads every report as a sequence of blocks, each a line
    with the rows it announces, and takes one column from each line that holds an address. */
module PxctlReports {
  import opened Wrappers
  import opened Text
  import opened PxctlParser

  // ----- the grammar of reports -----

  /** A line, and the rows that the option matching it asks for. */
  datatype Block = Block(line: string, rows: seq<string>)

  /** No line can begin with two of the prefixes. */
  ghost predicate Exclusive(options: seq<ParserOption>) {
    forall i, j | 0 <= i < |options| && 0 <= j < |options| && i != j ::
      !(options[i].prefix <= options[j].prefix)
  }

  function MatchOf(options: seq<ParserOption>, line: string): (m: Option<ParserOption>)
    ensures m.Some? ==> m.value in options && m.value.prefix <= line
    ensures m.None? ==> forall o | o in options :: !(o.prefix <= line)
    decreases |options|
  {
    if options == [] then None
    else if options[0].prefix <= line then Some(options[0])
    else MatchOf(options[1..], line)
  }

  function RowCount(options: seq<ParserOption>, line: string): nat {
    match MatchOf(options, Trimmed(line))
    case None => 0
    case Some(o) => if o.count > 0 then o.count else 0
  }

  function Flatten(doc: seq<Block>): seq<string> {
    if doc == [] then [] else [doc[0].line] + doc[0].rows + Flatten(doc[1..])
  }

  /** Every block has all its rows; only the last may be cut short by the end of the report. */
  ghost predicate Shaped(options: seq<ParserOption>, doc: seq<Block>) {
    doc != [] ==>
      && (if |doc| == 1 then |doc[0].rows| <= RowCount(options, doc[0].line)
          else |doc[0].rows| == RowCount(options, doc[0].line))
      && Shaped(options, doc[1..])
  }

  function Columns(rows: seq<string>, index: nat): Checked<seq<string>> {
    if rows == [] then Value([])
    else
      var w :- ColumnOf(rows[0], index);
      var more :- Columns(rows[1..], index);
      Value([w] + more)
  }

  /** The addresses of one block; a panic if a line that should hold one has too few columns. */
  function Yield(options: seq<ParserOption>, b: Block): Checked<seq<string>> {
    match MatchOf(options, Trimmed(b.line))
    case None => Value([])
    case Some(o) =>
      if o.count == 0 then
        var w :- ColumnOf(Trimmed(b.line), o.index);
        Value([w])
      else Columns(b.rows, o.index)
  }

  function YieldAll(options: seq<ParserOption>, doc: seq<Block>): Checked<seq<string>> {
    if doc == [] then Value([])
    else
      var head :- Yield(options, doc[0]);
      var more :- YieldAll(options, doc[1..]);
      Value(head + more)
  }

  /** A line that should hold an address has too few columns. */
  ghost predicate TooShort(options: seq<ParserOption>, b: Block) {
    match MatchOf(options, Trimmed(b.line))
    case None => false
    case Some(o) =>
      if o.count == 0 then |Fields(b.line)| <= o.index else SomeShort(b.rows, o.index)
  }

  ghost predicate SomeShort(rows: seq<string>, index: nat) {
    exists i | 0 <= i < |rows| :: |Fields(rows[i])| <= index
  }

  lemma SomeShortStep(rows: seq<string>, index: nat)
    requires rows != []
    ensures SomeShort(rows, index) <==> |Fields(rows[0])| <= index || SomeShort(rows[1..], index)
  {
    hide Fields;
    if SomeShort(rows[1..], index) {
      var i :| 0 <= i < |rows[1..]| && |Fields(rows[1..][i])| <= index;
      assert rows[i + 1] == rows[1..][i];
    }
    if SomeShort(rows, index) {
      var i :| 0 <= i < |rows| && |Fields(rows[i])| <= index;
      assert i > 0 ==> rows[1..][i - 1] == rows[i];
    }
  }

  lemma {:induction false} ColumnsPanic(rows: seq<string>, index: nat)
    ensures Columns(rows, index).Panic? <==> SomeShort(rows, index)
    decreases |rows|
  {
    hide Fields, SomeShort;
    if rows == [] {
      assert !SomeShort([], index) by {
        NoneShort(index);
      }
    } else {
      ColumnsPanic(rows[1..], index);
      SomeShortStep(rows, index);
    }
  }

  lemma NoneShort(index: nat)
    ensures !SomeShort([], index)
  {
  }

  lemma YieldPanics(options: seq<ParserOption>, b: Block)
    ensures Yield(options, b).Panic? <==> TooShort(options, b)
  {
    hide Fields, TrimLeft, Columns, MatchOf, SomeShort;
    FieldsOfTrimmed(b.line);
    var m := MatchOf(options, Trimmed(b.line));
    if m.Some? {
      ColumnsPanic(b.rows, m.value.index);
    }
  }

  lemma {:induction false} YieldAllPanics(options: seq<ParserOption>, doc: seq<Block>)
    ensures YieldAll(options, doc).Panic? <==> exists b | b in doc :: TooShort(options, b)
    decreases |doc|
  {
    hide Yield, TooShort;
    if doc != [] {
      YieldPanics(options, doc[0]);
      YieldAllPanics(options, doc[1..]);
      assert doc == [doc[0]] + doc[1..];
    }
  }

  /** The only way to cut a report into blocks: each line takes the rows it asks for. */
  function Blocks(options: seq<ParserOption>, lines: seq<string>): (doc: seq<Block>)
    decreases |lines|
  {
    if lines == [] then []
    else
      var wanted := RowCount(options, lines[0]);
      var n := if wanted < |lines| then wanted else |lines| - 1;
      [Block(lines[0], lines[1..n + 1])] + Blocks(options, lines[n + 1..])
  }

  lemma {:induction false} BlocksCover(options: seq<ParserOption>, lines: seq<string>)
    ensures Flatten(Blocks(options, lines)) == lines
    ensures Shaped(options, Blocks(options, lines))
    decreases |lines|
  {
    if lines != [] {
      var wanted := RowCount(options, lines[0]);
      var n := if wanted < |lines| then wanted else |lines| - 1;
      var doc := Blocks(options, lines);
      var rest := lines[n + 1..];
      BlocksCover(options, rest);
      assert doc[1..] == Blocks(options, rest);
      CutRows(lines, n + 1);
      assert wanted >= |lines| ==> rest == [];
    }
  }

  lemma CutRows(lines: seq<string>, k: nat)
    requires 1 <= k <= |lines|
    ensures lines == [lines[0]] + lines[1..k] + lines[k..]
  {
  }

  // ----- one line at a time -----

  lemma NoMatchNoEffect(options: seq<ParserOption>, line: string, here: nat, c: Cursor)
    requires forall o | o in options :: !(o.prefix <= line)
    ensures LineEffect(options, line, here, c) == Value(c)
    decreases |options|
  {
    hide Fields, TrimLeft;
    if options != [] {
      assert options[0] in options;
      NoMatchNoEffect(options[1..], line, here, c);
    }
  }

  lemma TailExclusive(options: seq<ParserOption>, line: string)
    requires Exclusive(options) && options != [] && options[0].prefix <= line
    ensures forall o | o in options[1..] :: !(o.prefix <= line)
  {
    var p := options[0].prefix;
    forall o | o in options[1..] ensures !(o.prefix <= line) {
      var i :| 0 <= i < |options[1..]| && options[1..][i] == o;
      assert options[i + 1] == o;
      assert !(o.prefix <= p) && !(p <= o.prefix);
      if o.prefix <= line {
        PrefixesComparable(p, o.prefix, line);
        assert false;
      }
    }
  }

  lemma PrefixesComparable(p: string, q: string, line: string)
    requires p <= line && q <= line
    ensures p <= q || q <= p
  {
    assert |p| <= |q| ==> p == q[..|p|];
    assert |q| <= |p| ==> q == p[..|q|];
  }

  /** With exclusive options, a line does just what the one option matching it says. */
  lemma {:induction false} LineEffectIs(options: seq<ParserOption>, line: string, here: nat, c: Cursor)
    requires Exclusive(options)
    ensures LineEffect(options, line, here, c) ==
            match MatchOf(options, line)
            case None => Value(c)
            case Some(o) => Apply(o, line, here, c)
    decreases |options|
  {
    hide Fields, TrimLeft;
    if options != [] {
      if options[0].prefix <= line {
        TailExclusive(options, line);
        var r := Apply(options[0], line, here, c);
        if r.Value? {
          NoMatchNoEffect(options[1..], line, here, r.value);
        }
      } else {
        var tail := options[1..];
        assert forall i | 0 <= i < |tail| :: tail[i] == options[i + 1];
        LineEffectIs(tail, line, here, c);
      }
    }
  }

  lemma IpsPush(emits: seq<Emit>, e: Emit)
    ensures Ips(emits + [e]) == Ips(emits) + [e.ip]
  {
  }

  /** The cursor after reading rows: it stands behind them and holds their columns. */
  ghost predicate HasRead(r: Checked<Cursor>, c: Cursor, n: nat, tail: seq<string>, ips: Checked<seq<string>>) {
    && r.Panic? == ips.Panic?
    && (r.Value? ==> r.value.rest == tail && r.value.at == c.at + n && Ips(r.value.emits) == Ips(c.emits) + ips.value)
  }

  lemma {:induction false} ReadRowsIs(rows: seq<string>, tail: seq<string>, c: Cursor, index: nat, count: int)
    requires c.rest == rows + tail
    requires |rows| == count || (count < 0 && rows == []) || (|rows| < count && tail == [])
    ensures HasRead(ReadRows(c, index, count), c, |rows|, tail, Columns(rows, index))
    decreases |rows|
  {
    hide Fields, TrimLeft;
    if rows == [] {
      assert c.rest == tail;
    } else {
      assert c.rest[0] == rows[0] && c.rest[1..] == rows[1..] + tail;
      var e := Column(rows[0], c.at, index);
      if e.Value? {
        ReadRowsIs(rows[1..], tail, Cursor(c.rest[1..], c.at + 1, c.emits + [e.value]), index, count - 1);
        IpsPush(c.emits, e.value);
        RowsStep(rows, c, index, e.value.ip);
      }
    }
  }

  lemma RowsStep(rows: seq<string>, c: Cursor, index: nat, ip: string)
    requires rows != [] && ColumnOf(rows[0], index) == Value(ip)
    ensures var more := Columns(rows[1..], index);
            && Columns(rows, index).Panic? == more.Panic?
            && (more.Value? ==> Ips(c.emits) + [ip] + more.value == Ips(c.emits) + Columns(rows, index).value)
  {
    hide Fields, TrimLeft;
  }

  lemma HasReadNothing(c: Cursor)
    ensures HasRead(Value(c), c, 0, c.rest, Value([]))
  {
    assert Ips(c.emits) + [] == Ips(c.emits);
  }

  lemma HasReadColumn(line: string, here: nat, o: ParserOption, c: Cursor)
    requires o.count == 0 && o.prefix <= line
    ensures HasRead(Apply(o, line, here, c), c, 0, c.rest,
                    var w := ColumnOf(line, o.index); if w.Panic? then Panic else Value([w.value]))
  {
    hide Fields, TrimLeft;
    var e := Column(line, here, o.index);
    if e.Value? {
      IpsPush(c.emits, e.value);
    }
  }

  lemma BlockEffect(options: seq<ParserOption>, b: Block, tail: seq<string>, c: Cursor)
    requires Exclusive(options)
    requires c.rest == b.rows + tail && c.at > 0
    requires |b.rows| == RowCount(options, b.line) || (|b.rows| < RowCount(options, b.line) && tail == [])
    ensures HasRead(LineEffect(options, Trimmed(b.line), c.at - 1, c), c, |b.rows|, tail, Yield(options, b))
  {
    hide Fields, TrimLeft, MatchOf, ReadRows, Columns, HasRead, LineEffect, ColumnOf, Exclusive;
    var line := Trimmed(b.line);
    var m := MatchOf(options, line);
    LineEffectIs(options, line, c.at - 1, c);
    if m.Some? && m.value.count != 0 {
      ReadRowsIs(b.rows, tail, c, m.value.index, m.value.count);
    } else {
      assert b.rows == [] && c.rest == tail;
      HasReadNothing(c);
      if m.Some? {
        HasReadColumn(line, c.at - 1, m.value, c);
      }
    }
  }

  /** Starting with `before`, the parser ends with the addresses `y` added, or panics with it. */
  ghost predicate Collects(r: Checked<Cursor>, before: seq<string>, y: Checked<seq<string>>) {
    && r.Panic? == y.Panic?
    && (r.Value? ==> Ips(r.value.emits) == before + y.value)
  }

  /** On any report cut into blocks, the parser returns the addresses of the blocks in order, and
      panics exactly when a line that should hold an address has too few columns. Rows are data:
      it does not matter whether a row itself begins with an option's prefix. */
  lemma ParseDocument(options: seq<ParserOption>, doc: seq<Block>, c: Cursor)
    requires Exclusive(options)
    requires Shaped(options, doc)
    requires c.rest == Flatten(doc)
    ensures Collects(Parsed(options, c), Ips(c.emits), YieldAll(options, doc))
    ensures Parsed(options, c).Panic? <==> exists b | b in doc :: TooShort(options, b)
  {
    hide Parsed, YieldAll, TooShort, Exclusive, Shaped, Flatten;
    ParseBlocks(options, doc, c);
    YieldAllPanics(options, doc);
  }

  lemma {:induction false} ParseBlocks(options: seq<ParserOption>, doc: seq<Block>, c: Cursor)
    requires Exclusive(options)
    requires Shaped(options, doc)
    requires c.rest == Flatten(doc)
    ensures Collects(Parsed(options, c), Ips(c.emits), YieldAll(options, doc))
    decreases |doc|
  {
    hide Fields, TrimLeft;
    if doc == [] {
      HasReadNothing(c);
    } else {
      FlattenStep(doc);
      var b, tail := doc[0], Flatten(doc[1..]);
      var d := Cursor(c.rest[1..], c.at + 1, c.emits);
      BlockEffect(options, b, tail, d);
      var r := LineEffect(options, Trimmed(b.line), c.at, d);
      ParsedStep(options, c, b.line, d);
      if r.Value? {
        ParseBlocks(options, doc[1..], r.value);
        YieldStep(options, doc, Ips(c.emits), Ips(r.value.emits), Parsed(options, r.value));
      }
    }
  }

  lemma FlattenStep(doc: seq<Block>)
    requires doc != []
    ensures var f := Flatten(doc); f != [] && f[0] == doc[0].line && f[1..] == doc[0].rows + Flatten(doc[1..])
    ensures |doc| == 1 ==> Flatten(doc[1..]) == []
  {
    DropFirst(doc[0].line, doc[0].rows, Flatten(doc[1..]));
  }

  lemma DropFirst(line: string, rows: seq<string>, tail: seq<string>)
    ensures ([line] + rows + tail)[1..] == rows + tail
  {
  }

  lemma ParsedStep(options: seq<ParserOption>, c: Cursor, line: string, d: Cursor)
    requires c.rest != [] && c.rest[0] == line && d == Cursor(c.rest[1..], c.at + 1, c.emits)
    ensures var r := LineEffect(options, Trimmed(line), c.at, d);
            Parsed(options, c) == if r.Panic? then Panic else Parsed(options, r.value)
  {
    ParsedNext(options, c);
  }

  lemma YieldStep(options: seq<ParserOption>, doc: seq<Block>, before: seq<string>, mid: seq<string>,
                  r: Checked<Cursor>)
    requires doc != [] && Yield(options, doc[0]).Value?
    requires mid == before + Yield(options, doc[0]).value
    requires Collects(r, mid, YieldAll(options, doc[1..]))
    ensures Collects(r, before, YieldAll(options, doc))
  {
    hide Fields, TrimLeft;
    if r.Value? {
      ConcatAssoc(before, Yield(options, doc[0]).value, YieldAll(options, doc[1..]).value);
    }
  }

  lemma ConcatAssoc(a: seq<string>, b: seq<string>, c: seq<string>)
    ensures a + b + c == a + (b + c)
  {
  }

  /** Every text whatsoever is such a report. */
  lemma ParseAnyText(options: seq<ParserOption>, text: string)
    requires Exclusive(options)
    ensures var r := Parsed(options, Cursor(ScanLines(text), 0, []));
            var y := YieldAll(options, Blocks(options, ScanLines(text)));
            && (r.Panic? <==> exists b | b in Blocks(options, ScanLines(text)) :: TooShort(options, b))
            && r.Panic? == y.Panic?
            && (r.Value? ==> Ips(r.value.emits) == y.value)
  {
    hide Fields, TrimLeft, TooShort, Parsed, YieldAll;
    var lines := ScanLines(text);
    BlocksCover(options, lines);
    ParseDocument(options, Blocks(options, lines), Cursor(lines, 0, []));
    var y := YieldAll(options, Blocks(options, lines));
    assert y.Value? ==> Ips([]) + y.value == y.value;
  }

  // ----- no line is read twice -----

  /** The addresses come from lines in strictly increasing order, all before line `at`. */
  ghost predicate Ordered(emits: seq<Emit>, at: nat) {
    && (forall i, j | 0 <= i < j < |emits| :: emits[i].line < emits[j].line)
    && (forall i | 0 <= i < |emits| :: emits[i].line < at)
  }

  /** Every address is a column of the line it is said to come from. */
  ghost predicate Sourced(lines: seq<string>, emits: seq<Emit>) {
    forall i | 0 <= i < |emits| :: emits[i].line < |lines| && emits[i].ip in Fields(lines[emits[i].line])
  }

  ghost predicate Sound(lines: seq<string>, c: Cursor) {
    c.at <= |lines| && c.rest == lines[c.at..] && Ordered(c.emits, c.at) && Sourced(lines, c.emits)
  }

  lemma SoundPush(lines: seq<string>, c: Cursor, line: string, index: nat, here: nat, d: Cursor)
    requires Sound(lines, c) && c.emits == d.emits && d.at > here >= c.at && d.at <= |lines| && d.rest == lines[d.at..]
    requires Fields(line) == Fields(lines[here]) && Column(line, here, index).Value?
    ensures Sound(lines, d.(emits := d.emits + [Column(line, here, index).value]))
  {
    hide Fields;
  }

  lemma {:induction false} SoundRows(lines: seq<string>, c: Cursor, index: nat, count: int)
    requires Sound(lines, c) && ReadRows(c, index, count).Value?
    ensures Sound(lines, ReadRows(c, index, count).value)
    decreases |c.rest|
  {
    hide Fields;
    if count > 0 && c.rest != [] {
      var d := Cursor(c.rest[1..], c.at + 1, c.emits);
      assert c.rest[0] == lines[c.at] && d.rest == lines[d.at..];
      SoundPush(lines, c, c.rest[0], index, c.at, d);
      SoundRows(lines, d.(emits := d.emits + [Column(c.rest[0], c.at, index).value]), index, count - 1);
    }
  }

  lemma FieldsOfTrimmed(line: string)
    ensures Fields(Trimmed(line)) == Fields(line)
  {
    hide Fields, TrimLeft;
    var t := Trimmed(line);
    CutAt(line, |line| - |t|);
    FieldsLeading(line[..|line| - |t|], t);
  }

  lemma {:induction false} SoundParse(options: seq<ParserOption>, lines: seq<string>, c: Cursor)
    requires Exclusive(options) && Sound(lines, c) && Parsed(options, c).Value?
    ensures Sound(lines, Parsed(options, c).value)
    decreases |c.rest|
  {
    hide Fields, TrimLeft;
    if c.rest != [] {
      var raw, d := c.rest[0], Cursor(c.rest[1..], c.at + 1, c.emits);
      var line := Trimmed(raw);
      assert raw == lines[c.at] && d.rest == lines[d.at..];
      assert Sound(lines, d);
      ParsedStep(options, c, raw, d);
      LineEffectIs(options, line, c.at, d);
      FieldsOfTrimmed(raw);
      var m := MatchOf(options, line);
      if m.Some? {
        if m.value.count == 0 {
          SoundPush(lines, c, line, m.value.index, c.at, d);
        } else {
          SoundRows(lines, d, m.value.index, m.value.count);
        }
      }
      SoundParse(options, lines, LineEffect(options, line, c.at, d).value);
    }
  }

  /** On any text, each address comes from a line of its own, and the lines are taken in order. */
  lemma EachLineReadOnce(options: seq<ParserOption>, text: string)
    requires Exclusive(options) && Parsed(options, Cursor(ScanLines(text), 0, [])).Value?
    ensures var lines, c := ScanLines(text), Parsed(options, Cursor(ScanLines(text), 0, [])).value;
            Ordered(c.emits, |lines|) && Sourced(lines, c.emits)
  {
    hide Fields, ScanLines, Parsed;
    var lines := ScanLines(text);
    var c := Cursor(lines, 0, []);
    assert lines[0..] == lines;
    assert Sound(lines, c);
    SoundParse(options, lines, c);
  }

  // ----- printed reports -----

  datatype Row = Row(lead: string, cells: seq<Cell>)

  function RowLine(r: Row): string {
    r.lead + PrintCells(r.cells)
  }

  /** A part of a printed report: a line that no option matches, a line that holds an address, or a
      header followed by the rows it announces. */
  datatype Item = Noise(line: string) | Single(row: Row) | Table(header: string, rows: seq<Row>)

  function RowLines(rows: seq<Row>): seq<string> {
    if rows == [] then [] else [RowLine(rows[0])] + RowLines(rows[1..])
  }

  function ItemBlock(it: Item): Block {
    match it
    case Noise(line) => Block(line, [])
    case Single(row) => Block(RowLine(row), [])
    case Table(header, rows) => Block(header, RowLines(rows))
  }

  ghost predicate HasColumn(row: Row, index: nat) {
    Blank(row.lead) && WellSpaced(row.cells) && index < |row.cells|
  }

  ghost predicate Fits(options: seq<ParserOption>, it: Item) {
    match (it, MatchOf(options, Trimmed(ItemBlock(it).line)))
    case (Noise(_), None) => true
    case (Single(row), Some(o)) => o.count == 0 && HasColumn(row, o.index)
    case (Table(_, rows), Some(o)) =>
      0 < o.count == |rows| && forall i | 0 <= i < |rows| :: HasColumn(rows[i], o.index)
    case _ => false
  }

  /** The words in a column of the rows; a row without that column has none. */
  function RowWords(rows: seq<Row>, index: nat): seq<string> {
    if rows == [] then []
    else (if index < |rows[0].cells| then [rows[0].cells[index].word] else []) + RowWords(rows[1..], index)
  }

  ghost predicate AllFit(options: seq<ParserOption>, items: seq<Item>) {
    forall i | 0 <= i < |items| :: Fits(options, items[i])
  }

  lemma AllFitParts(options: seq<ParserOption>, items: seq<Item>)
    requires AllFit(options, items) && items != []
    ensures Fits(options, items[0]) && AllFit(options, items[1..])
  {
    hide Fits;
  }

  /** The addresses printed in an item. */
  function ItemAddresses(options: seq<ParserOption>, it: Item): seq<string> {
    match (it, MatchOf(options, Trimmed(ItemBlock(it).line)))
    case (Single(row), Some(o)) => RowWords([row], o.index)
    case (Table(_, rows), Some(o)) => RowWords(rows, o.index)
    case _ => []
  }

  function Doc(items: seq<Item>): seq<Block> {
    if items == [] then [] else [ItemBlock(items[0])] + Doc(items[1..])
  }

  function Addresses(options: seq<ParserOption>, items: seq<Item>): seq<string> {
    if items == [] then [] else ItemAddresses(options, items[0]) + Addresses(options, items[1..])
  }

  lemma ColumnOfRow(row: Row, index: nat)
    requires HasColumn(row, index)
    ensures index < |row.cells| && ColumnOf(RowLine(row), index) == Value(row.cells[index].word)
  {
    hide Fields;
    FieldsOfCells(row.lead, row.cells);
  }

  lemma {:induction false} ColumnsOfRows(rows: seq<Row>, index: nat)
    requires forall i | 0 <= i < |rows| :: HasColumn(rows[i], index)
    ensures Columns(RowLines(rows), index) == Value(RowWords(rows, index))
    ensures |RowLines(rows)| == |rows|
  {
    hide ColumnOf, HasColumn;
    if rows != [] {
      ColumnOfRow(rows[0], index);
      ColumnsOfRows(rows[1..], index);
      assert RowLines(rows)[1..] == RowLines(rows[1..]);
    }
  }

  lemma OneRow(row: Row, index: nat)
    requires index < |row.cells|
    ensures RowWords([row], index) == [row.cells[index].word]
  {
    assert RowWords([row][1..], index) == [];
  }

  lemma ColumnOfTrimmed(line: string, index: nat)
    ensures ColumnOf(Trimmed(line), index) == ColumnOf(line, index)
  {
    hide Fields, TrimLeft;
    FieldsOfTrimmed(line);
  }

  lemma ItemYields(options: seq<ParserOption>, it: Item)
    requires Fits(options, it)
    ensures Yield(options, ItemBlock(it)) == Value(ItemAddresses(options, it))
    ensures |ItemBlock(it).rows| == RowCount(options, ItemBlock(it).line)
  {
    hide Fields, TrimLeft, MatchOf, ColumnOf;
    var b := ItemBlock(it);
    var m := MatchOf(options, Trimmed(b.line));
    if it.Single? {
      ColumnOfTrimmed(b.line, m.value.index);
      ColumnOfRow(it.row, m.value.index);
      OneRow(it.row, m.value.index);
    } else if it.Table? {
      ColumnsOfRows(it.rows, m.value.index);
    }
  }

  lemma {:induction false} DocYields(options: seq<ParserOption>, items: seq<Item>)
    requires AllFit(options, items)
    ensures Shaped(options, Doc(items)) && YieldAll(options, Doc(items)) == Value(Addresses(options, items))
  {
    hide Fits, AllFit, ItemBlock, Yield, RowCount;
    if items != [] {
      AllFitParts(options, items);
      ItemYields(options, items[0]);
      DocYields(options, items[1..]);
      assert Doc(items)[1..] == Doc(items[1..]);
    }
  }

  /** The parser reads back exactly the addresses of any printed report, in order. */
  lemma PrintedReport(options: seq<ParserOption>, items: seq<Item>)
    requires Exclusive(options)
    requires AllFit(options, items)
    requires forall l | l in Flatten(Doc(items)) :: Printable(l)
    ensures var r := Parsed(options, Cursor(ScanLines(PrintLines(Flatten(Doc(items)))), 0, []));
            r.Value? && Ips(r.value.emits) == Addresses(options, items)
  {
    hide AllFit, ScanLines, PrintLines, Flatten, Parsed;
    var doc := Doc(items);
    ScanPrintedLines(Flatten(doc));
    DocYields(options, items);
    var c := Cursor(Flatten(doc), 0, []);
    ParseDocument(options, doc, c);
    assert Ips([]) + Addresses(options, items) == Addresses(options, items);
  }

  // ----- the option tables -----

  function StatusOptions(nodeCount: int): seq<ParserOption> {
    [ParserOption("IP:", 1, 0), ParserOption("IP\t", 0, nodeCount)]
  }

  function ClusterListOptions(nodeCount: int): seq<ParserOption> {
    [ParserOption("ID\t", 2, nodeCount)]
  }

  function ClusterInspectOptions(): seq<ParserOption> {
    [ParserOption("Mgmt IP", 3, 0), ParserOption("Data IP", 3, 0)]
  }

  function VolumeInspectOptions(): seq<ParserOption> {
    [ParserOption("State", 4, 0), ParserOption("Node", 2, 0)]
  }

  lemma TablesExclusive(nodeCount: int)
    ensures Exclusive(StatusOptions(nodeCount)) && Exclusive(ClusterListOptions(nodeCount))
    ensures Exclusive(ClusterInspectOptions()) && Exclusive(VolumeInspectOptions())
  {
    assert "IP:"[2] != "IP\t"[2];
    assert "Mgmt IP"[0] != "Data IP"[0];
    assert "State"[0] != "Node"[0];
  }

  function OneColumn(line: string, index: nat): Checked<seq<string>> {
    var word :- ColumnOf(line, index);
    Value([word])
  }

  /** What an option makes of a line that begins with its prefix. */
  lemma OptionYields(options: seq<ParserOption>, o: ParserOption, line: string, rows: seq<string>)
    requires Exclusive(options) && o in options && o.prefix <= Trimmed(line)
    ensures Yield(options, Block(line, rows)) ==
            if o.count == 0 then OneColumn(line, o.index) else Columns(rows, o.index)
  {
    hide TrimLeft, MatchOf, ColumnOf, Columns;
    var t := Trimmed(line);
    var m := MatchOf(options, t);
    PrefixesComparable(m.value.prefix, o.prefix, t);
    var i, j :| 0 <= i < |options| && 0 <= j < |options| && options[i] == m.value && options[j] == o;
    ColumnOfTrimmed(line, o.index);
  }

  /** The columns in which the reports hold addresses: the second of a status line, the third of the rows
      of a cluster list (of its header, if the node count is 0), the fourth of the two lines of a cluster
      inspection, the fifth of a state line and the third of a node line of a volume inspection. */
  lemma AddressColumns(line: string, rows: seq<string>, nodeCount: int)
    ensures "IP:" <= Trimmed(line) ==> Yield(StatusOptions(nodeCount), Block(line, rows)) == OneColumn(line, 1)
    ensures "ID\t" <= Trimmed(line) ==>
              Yield(ClusterListOptions(nodeCount), Block(line, rows)) ==
              if nodeCount == 0 then OneColumn(line, 2) else Columns(rows, 2)
    ensures "Mgmt IP" <= Trimmed(line) || "Data IP" <= Trimmed(line) ==>
              Yield(ClusterInspectOptions(), Block(line, rows)) == OneColumn(line, 3)
    ensures "State" <= Trimmed(line) ==> Yield(VolumeInspectOptions(), Block(line, rows)) == OneColumn(line, 4)
    ensures "Node" <= Trimmed(line) ==> Yield(VolumeInspectOptions(), Block(line, rows)) == OneColumn(line, 2)
  {
    hide Yield, OneColumn, Columns, Exclusive, TrimLeft;
    TablesExclusive(nodeCount);
    var t := Trimmed(line);
    if "IP:" <= t {
      OptionYields(StatusOptions(nodeCount), StatusOptions(nodeCount)[0], line, rows);
    }
    if "ID\t" <= t {
      OptionYields(ClusterListOptions(nodeCount), ClusterListOptions(nodeCount)[0], line, rows);
    }
    if "Mgmt IP" <= t {
      OptionYields(ClusterInspectOptions(), ClusterInspectOptions()[0], line, rows);
    }
    if "Data IP" <= t {
      OptionYields(ClusterInspectOptions(), ClusterInspectOptions()[1], line, rows);
    }
    if "State" <= t {
      OptionYields(VolumeInspectOptions(), VolumeInspectOptions()[0], line, rows);
    }
    if "Node" <= t {
      OptionYields(VolumeInspectOptions(), VolumeInspectOptions()[1], line, rows);
    }
  }

  lemma MatchesTable(titles: string, nodeCount: int)
    ensures var line := "IP\t" + titles;
            Trimmed(line) == line && MatchOf(StatusOptions(nodeCount), line) == Some(StatusOptions(nodeCount)[1])
  {
    var line, options := "IP\t" + titles, StatusOptions(nodeCount);
    assert line[2] == '\t' && line[0] == 'I';
    TrimLeftCore([], line, Indent);
    assert [] + line == line;
    assert !(options[0].prefix <= line) by {
      assert "IP:"[2] == ':';
    }
    assert options[1].prefix <= line && options[1..][0] == options[1];
    assert MatchOf(options[1..], line) == Some(options[1]);
  }

  /** The node table yields the first columns of its rows if and only if the node count is not 0: then
      the header itself is taken for an address line, and its first title for an address. */
  lemma NodeTableYields(titles: string, rows: seq<string>, nodeCount: int)
    ensures Yield(StatusOptions(nodeCount), Block("IP\t" + titles, rows)) ==
            if nodeCount == 0 then Value(["IP"]) else Columns(rows, 0)
  {
    hide Fields, Columns, MatchOf, TrimLeft;
    var line := "IP\t" + titles;
    MatchesTable(titles, nodeCount);
    FieldsStep([], "IP", "\t" + titles);
    assert [] + ("IP" + ("\t" + titles)) == line;
  }

  /** A report announces only as many rows as the node count says; with a negative count, none. */
  lemma NodeTableRows(titles: string, lines: seq<string>, nodeCount: int)
    ensures var doc := Blocks(StatusOptions(nodeCount), ["IP\t" + titles] + lines);
            doc != [] && doc[0].rows == if nodeCount <= 0 then []
                                        else if nodeCount < |lines| then lines[..nodeCount] else lines
  {
    hide MatchOf, TrimLeft, Blocks;
    var line, options := "IP\t" + titles, StatusOptions(nodeCount);
    MatchesTable(titles, nodeCount);
    FirstBlock(options, line, lines);
  }

  lemma FirstBlock(options: seq<ParserOption>, line: string, lines: seq<string>)
    ensures var doc, wanted := Blocks(options, [line] + lines), RowCount(options, line);
            doc != [] && doc[0].rows == if wanted < |lines| then lines[..wanted] else lines
  {
    hide RowCount, Blocks;
    var all, wanted := [line] + lines, RowCount(options, line);
    var n := if wanted < |all| then wanted else |all| - 1;
    BlocksHead(options, all);
    assert all[1..n + 1] == lines[..n];
    assert all[0] == line;
  }

  lemma BlocksHead(options: seq<ParserOption>, lines: seq<string>)
    requires lines != []
    ensures var wanted := RowCount(options, lines[0]);
            var n := if wanted < |lines| then wanted else |lines| - 1;
            Blocks(options, lines) == [Block(lines[0], lines[1..n + 1])] + Blocks(options, lines[n + 1..])
  {
    hide RowCount;
  }

  /** A line of a volume inspection panics if and only if it is a state line with fewer than five
      columns or a node line with fewer than three. */
  lemma InspectLinePanics(line: string)
    ensures Yield(VolumeInspectOptions(), Block(line, [])).Panic? <==>
            || ("State" <= Trimmed(line) && |Fields(line)| < 5)
            || ("Node" <= Trimmed(line) && |Fields(line)| < 3)
  {
    hide Fields, TrimLeft;
    var options := VolumeInspectOptions();
    YieldPanics(options, Block(line, []));
    assert "State"[0] != "Node"[0];
    assert options[1..] == [options[1]];
  }

  /** So the state line of a volume that is not attached makes the parser panic. */
  lemma DetachedPanics()
    ensures Yield(VolumeInspectOptions(), Block("State : Detached", [])) == Panic
  {
    hide Fields, TrimLeft, Yield;
    var line := "State : Detached";
    var rest := " : Detached";
    assert line == [] + ("State" + rest) && rest == " " + (":" + " Detached") && " Detached" == " " + ("Detached" + "");
    FieldsStep([], "State", rest);
    FieldsStep(" ", ":", " Detached");
    FieldsStep(" ", "Detached", "");
    FieldsOfBlank("");
    TrimLeftCore([], line, Indent);
    assert [] + line == line;
    InspectLinePanics(line);
  }

  predicate Parenthesis(c: char) {
    c == '(' || c == ')'
  }

  /** The end of the volume inspection: the addresses are stripped of parentheses in place. */
  method TrimParentheses(ips: array<string>)
    modifies ips
    ensures forall i | 0 <= i < ips.Length :: ips[i] == Trim(old(ips[i]), Parenthesis)
  {
    hide Trim;
    var i := 0;
    while i < ips.Length
      invariant 0 <= i <= ips.Length
      invariant forall j | 0 <= j < i :: ips[j] == Trim(old(ips[j]), Parenthesis)
      invariant forall j | i <= j < ips.Length :: ips[j] == old(ips[j])
    {
      ips[i] := Trim(ips[i], Parenthesis);
      i := i + 1;
    }
  }

  /** An address without parentheses comes out as it is, with or without a pair around it. */
  lemma TrimParenthesized(ip: string)
    requires ip != [] && '(' !in ip && ')' !in ip
    ensures Trim("(" + ip + ")", Parenthesis) == ip && Trim(ip, Parenthesis) == ip
  {
    TrimCore("(", ip, ")", Parenthesis);
    TrimCore([], ip, [], Parenthesis);
    assert [] + ip + [] == ip;
  }
}
