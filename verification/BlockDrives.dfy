/** The parsing half of `GetBlockDrives`: the key="value" columns of `lsblk -P`, line by line. */
module BlockDrives {
  import opened Wrappers
  import opened Text

  datatype BlockDrive = BlockDrive(
    path: string,
    labels: map<string, string>,
    mountPoint: string,
    fsType: string,
    size: string,
    driveType: string)

  const EmptyDrive := BlockDrive("", map[], "", "", "", "")
  const PoolMark := "any:pwx"

  // ----- what the parser computes -----

  /** `col[bin+2 : len(col)-1]`: the text between the quotes, if `bin` is the equals sign. */
  function Inner(col: string, bin: int): Checked<string> {
    if 0 <= bin + 2 <= |col| - 1 then Value(col[bin + 2..|col| - 1]) else Panic
  }

  function FieldValue(col: string): Checked<string> {
    Inner(col, LastIndex(col, '='))
  }

  function AddLabel(m: map<string, string>, entry: string): map<string, string> {
    if '=' in entry then
      var kv := Split(entry, '=');
      KeyValueSplits(entry);
      m[kv[0] := kv[1]]
    else if entry == "" then m
    else if Contains(entry, PoolMark) then m["pxpool" := entry[FindLast(entry, PoolMark) + |PoolMark|..]]
    else m[entry := "true"]
  }

  lemma KeyValueSplits(entry: string)
    requires '=' in entry
    ensures |Split(entry, '=')| >= 2
  {
  }

  function AddLabels(m: map<string, string>, entries: seq<string>): map<string, string>
    decreases |entries|
  {
    if entries == [] then m else AddLabels(AddLabel(m, entries[0]), entries[1..])
  }

  function LabelValue(col: string): Checked<map<string, string>> {
    var text :- Inner(col, Index(col, '='));
    Value(AddLabels(map[], Split(text, ',')))
  }

  /** The effect of one column; other columns are ignored. */
  function ReadColumn(d: BlockDrive, col: string): Checked<BlockDrive> {
    if "NAME" <= col then var v :- FieldValue(col); Value(d.(path := v))
    else if "LABEL" <= col then var m :- LabelValue(col); Value(d.(labels := m))
    else if "MOUNTPOINT" <= col then var v :- FieldValue(col); Value(d.(mountPoint := v))
    else if "SIZE" <= col then var v :- FieldValue(col); Value(d.(size := v))
    else if "FSTYPE" <= col then var v :- FieldValue(col); Value(d.(fsType := v))
    else if "TYPE" <= col then var v :- FieldValue(col); Value(d.(driveType := v))
    else Value(d)
  }

  function ReadColumns(d: BlockDrive, cols: seq<string>): Checked<BlockDrive>
    decreases |cols|
  {
    if cols == [] then Value(d)
    else
      var d' :- ReadColumn(d, cols[0]);
      ReadColumns(d', cols[1..])
  }

  function ReadLine(line: string): Checked<BlockDrive> {
    ReadColumns(EmptyDrive, Split(line, ' '))
  }

  function ReadLines(drives: map<string, BlockDrive>, lines: seq<string>): Checked<map<string, BlockDrive>>
    decreases |lines|
  {
    if lines == [] then Value(drives)
    else
      var d :- ReadLine(lines[0]);
      ReadLines(drives[d.path := d], lines[1..])
  }

  function ReadDrives(output: string): Checked<map<string, BlockDrive>> {
    ReadLines(map[], Split(TrimSpace(output), '\n'))
  }

  // ----- the loops -----

  method ParseLabels(text: string) returns (driveLabels: map<string, string>)
    ensures driveLabels == AddLabels(map[], Split(text, ','))
  {
    hide Split, AddLabel;
    var labelsList := Split(text, ',');
    driveLabels := map[];
    var i := 0;
    assert labelsList[0..] == labelsList;
    while i < |labelsList|
      invariant 0 <= i <= |labelsList|
      invariant AddLabels(driveLabels, labelsList[i..]) == AddLabels(map[], labelsList)
    {
      assert labelsList[i..][0] == labelsList[i] && labelsList[i..][1..] == labelsList[i + 1..];
      driveLabels := AddLabel(driveLabels, labelsList[i]);
      i := i + 1;
    }
  }

  lemma FirstLetter(col: string)
    ensures "NAME" <= col ==> col[0] == 'N'
    ensures "LABEL" <= col ==> col[0] == 'L'
    ensures "MOUNTPOINT" <= col ==> col[0] == 'M'
    ensures "SIZE" <= col ==> col[0] == 'S'
    ensures "FSTYPE" <= col ==> col[0] == 'F'
    ensures "TYPE" <= col ==> col[0] == 'T'
  {
  }

  /** The six tests on a column, one after the other. */
  method ParseColumn(d: BlockDrive, col: string) returns (r: Checked<BlockDrive>)
    ensures r == ReadColumn(d, col)
  {
    hide Inner, Split, AddLabels;
    FirstLetter(col);
    var drive := d;
    if "NAME" <= col {
      var v := FieldValue(col);
      if v.Panic? { return Panic; }
      drive := drive.(path := v.value);
    }
    if "LABEL" <= col {
      var text := Inner(col, Index(col, '='));
      if text.Panic? { return Panic; }
      var driveLabels := ParseLabels(text.value);
      drive := drive.(labels := driveLabels);
    }
    if "MOUNTPOINT" <= col {
      var v := FieldValue(col);
      if v.Panic? { return Panic; }
      drive := drive.(mountPoint := v.value);
    }
    if "SIZE" <= col {
      var v := FieldValue(col);
      if v.Panic? { return Panic; }
      drive := drive.(size := v.value);
    }
    if "FSTYPE" <= col {
      var v := FieldValue(col);
      if v.Panic? { return Panic; }
      drive := drive.(fsType := v.value);
    }
    if "TYPE" <= col {
      var v := FieldValue(col);
      if v.Panic? { return Panic; }
      drive := drive.(driveType := v.value);
    }
    r := Value(drive);
  }

  method ParseLine(line: string) returns (r: Checked<BlockDrive>)
    ensures r == ReadLine(line)
  {
    hide Split, ReadColumn;
    var columns, drive := Split(line, ' '), EmptyDrive;
    var i := 0;
    assert columns[0..] == columns;
    while i < |columns|
      invariant 0 <= i <= |columns|
      invariant ReadColumns(drive, columns[i..]) == ReadColumns(EmptyDrive, columns)
    {
      assert columns[i..][0] == columns[i] && columns[i..][1..] == columns[i + 1..];
      r := ParseColumn(drive, columns[i]);
      if r.Panic? {
        return;
      }
      drive := r.value;
      i := i + 1;
    }
    r := Value(drive);
  }

  /** The loop over the lines of the output. */
  method ParseDrives(driveOutput: string) returns (r: Checked<map<string, BlockDrive>>)
    ensures r == ReadDrives(driveOutput)
  {
    hide Split, ReadLine, TrimSpace;
    var lines := Split(TrimSpace(driveOutput), '\n');
    var drives: map<string, BlockDrive> := map[];
    var i := 0;
    assert lines[0..] == lines;
    while i < |lines|
      invariant 0 <= i <= |lines|
      invariant ReadLines(drives, lines[i..]) == ReadLines(map[], lines)
    {
      assert lines[i..][0] == lines[i] && lines[i..][1..] == lines[i + 1..];
      var d := ParseLine(lines[i]);
      if d.Panic? {
        return Panic;
      }
      drives := drives[d.value.path := d.value];
      i := i + 1;
    }
    r := Value(drives);
  }

  // ----- one column -----

  function PrintColumn(name: string, v: string): string {
    name + ['='] + ("\"" + v + "\"")
  }

  /** A value comes back from its column if and only if it holds no equals sign; and the parser
      panics if and only if the value ends with one. */
  lemma FieldComesBack(name: string, v: string)
    requires '=' !in name
    ensures FieldValue(PrintColumn(name, v)) == Value(v) <==> '=' !in v
    ensures FieldValue(PrintColumn(name, v)) == Panic <==> v != [] && v[|v| - 1] == '='
  {
    hide LastIndex;
    var col := PrintColumn(name, v);
    assert |col| == |name| + |v| + 3;
    if '=' !in v {
      LastIndexBefore(name, '=', "\"" + v + "\"");
      assert col[|name| + 2..|col| - 1] == v;
    } else {
      LastIndexShift(name, v);
    }
  }

  lemma LastIndexShift(name: string, v: string)
    requires '=' in v
    ensures LastIndex(PrintColumn(name, v), '=') == |name| + 2 + LastIndex(v, '=')
  {
    hide LastIndex;
    var s, p := PrintColumn(name, v), |name| + 2 + LastIndex(v, '=');
    assert s[p] == v[p - |name| - 2];
    forall j | p < j < |s| ensures s[j] != '=' {
      assert j < |s| - 1 ==> s[j] == v[j - |name| - 2];
    }
    LastIndexIs(s, '=', p);
  }

  // ----- labels -----

  /** A label as it is printed: key and value, a bare flag, or a pool mark with an id behind it. */
  datatype Label = KeyValue(key: string, value: string) | Flag(name: string) | Pool(before: string, id: string)

  function PrintLabel(l: Label): string {
    match l
    case KeyValue(k, v) => k + ['='] + v
    case Flag(name) => name
    case Pool(before, id) => before + PoolMark + id
  }

  ghost predicate PlainLabel(l: Label) {
    && ' ' !in PrintLabel(l) && ',' !in PrintLabel(l) && '\n' !in PrintLabel(l)
    && match l
       case KeyValue(k, v) => '=' !in k && '=' !in v
       case Flag(name) => '=' !in name && name != "" && !Contains(name, PoolMark)
       case Pool(before, id) => '=' !in PrintLabel(l) && FindLast(PrintLabel(l), PoolMark) == |before|
  }

  function WithLabel(m: map<string, string>, l: Label): map<string, string> {
    match l
    case KeyValue(k, v) => m[k := v]
    case Flag(name) => m[name := "true"]
    case Pool(_, id) => m["pxpool" := id]
  }

  function WithLabels(m: map<string, string>, ls: seq<Label>): map<string, string>
    decreases |ls|
  {
    if ls == [] then m else WithLabels(WithLabel(m, ls[0]), ls[1..])
  }

  function PrintLabels(ls: seq<Label>): seq<string> {
    seq(|ls|, i requires 0 <= i < |ls| => PrintLabel(ls[i]))
  }

  lemma ReadLabel(m: map<string, string>, l: Label)
    requires PlainLabel(l)
    ensures AddLabel(m, PrintLabel(l)) == WithLabel(m, l)
  {
    match l {
      case KeyValue(k, v) =>
        assert Join([k, v], '=') == k + ['='] + v by {
          assert [k, v][1..] == [v];
        }
        SplitJoin([k, v], '=');
        assert (k + ['='] + v)[|k|] == '=';
      case Flag(name) =>
      case Pool(before, id) =>
        var text := PrintLabel(l);
        assert text[|before|..] == PoolMark + id;
        ContainsAt(text, |before|, PoolMark);
        assert text[|before| + |PoolMark|..] == id;
    }
  }

  lemma {:induction false} ReadLabels(m: map<string, string>, ls: seq<Label>)
    requires forall i | 0 <= i < |ls| :: PlainLabel(ls[i])
    ensures AddLabels(m, PrintLabels(ls)) == WithLabels(m, ls)
    decreases |ls|
  {
    hide AddLabel, WithLabel, PlainLabel, PrintLabel;
    if ls != [] {
      ReadLabel(m, ls[0]);
      ReadLabels(WithLabel(m, ls[0]), ls[1..]);
      assert PrintLabels(ls)[1..] == PrintLabels(ls[1..]);
    }
  }

  /** The key under which a label is found: that of a pool label is fixed. */
  function KeyOf(l: Label): string {
    match l
    case KeyValue(k, _) => k
    case Flag(name) => name
    case Pool(_, _) => "pxpool"
  }

  /** What is found under the key of a label, if no later label has the same: its value, the text `true` for
      a flag, and the id behind the mark for a pool label. */
  lemma {:induction false} LastLabelWins(m: map<string, string>, ls: seq<Label>, k: nat)
    requires k < |ls| && forall i | k < i < |ls| :: KeyOf(ls[i]) != KeyOf(ls[k])
    ensures var r := WithLabels(m, ls);
            match ls[k]
            case KeyValue(key, value) => key in r && r[key] == value
            case Flag(name) => name in r && r[name] == "true"
            case Pool(before, id) => "pxpool" in r && r["pxpool"] == id && PrintLabel(ls[k]) == before + "any:pwx" + id
    decreases |ls|
  {
    if k > 0 {
      LastLabelWins(WithLabel(m, ls[0]), ls[1..], k - 1);
    } else {
      OtherLabelsStay(WithLabel(m, ls[0]), ls[1..], KeyOf(ls[0]));
    }
  }

  /** A key that no label has keeps what it had. */
  lemma {:induction false} OtherLabelsStay(m: map<string, string>, ls: seq<Label>, key: string)
    requires forall i | 0 <= i < |ls| :: KeyOf(ls[i]) != key
    ensures var r := WithLabels(m, ls); (key in r <==> key in m) && (key in m ==> r[key] == m[key])
    decreases |ls|
  {
    if ls != [] {
      OtherLabelsStay(WithLabel(m, ls[0]), ls[1..], key);
    }
  }

  /** The whole label column, whether or not there are labels. */
  lemma ReadLabelColumn(ls: seq<Label>)
    requires forall i | 0 <= i < |ls| :: PlainLabel(ls[i])
    ensures LabelValue(PrintColumn("LABEL", Join(PrintLabels(ls), ','))) == Value(WithLabels(map[], ls))
  {
    hide Split, AddLabels, WithLabels, Join, PrintLabels, PlainLabel, LabelValue;
    LabelText(Join(PrintLabels(ls), ','));
    if ls == [] {
      NoLabels();
    } else {
      PlainLabels(ls);
      SplitJoin(PrintLabels(ls), ',');
      ReadLabels(map[], ls);
    }
  }

  lemma LabelText(text: string)
    ensures LabelValue(PrintColumn("LABEL", text)) == Value(AddLabels(map[], Split(text, ',')))
  {
    hide Split, AddLabels, Index;
    var col := PrintColumn("LABEL", text);
    IndexAfter("LABEL", '=', "\"" + text + "\"");
    assert col[7..|col| - 1] == text;
  }

  lemma PlainLabels(ls: seq<Label>)
    requires forall i | 0 <= i < |ls| :: PlainLabel(ls[i])
    ensures |PrintLabels(ls)| == |ls|
    ensures forall p | p in PrintLabels(ls) :: ' ' !in p && ',' !in p && '\n' !in p
  {
    forall p | p in PrintLabels(ls) ensures ' ' !in p && ',' !in p && '\n' !in p {
      var i :| 0 <= i < |ls| && PrintLabels(ls)[i] == p;
      assert PlainLabel(ls[i]);
    }
  }

  lemma NoLabels()
    ensures AddLabels(map[], Split(Join(PrintLabels([]), ','), ',')) == WithLabels(map[], [])
  {
    assert Split("", ',') == [""];
    assert AddLabels(map[], [""]) == map[];
  }

  // ----- one line -----

  datatype Drive = Drive(
    path: string, labels: seq<Label>, size: string, mountPoint: string, fsType: string, driveType: string)

  ghost predicate PlainValue(v: string) {
    ' ' !in v && '\n' !in v && '=' !in v
  }

  ghost predicate PlainDrive(d: Drive) {
    && PlainValue(d.path) && PlainValue(d.size) && PlainValue(d.mountPoint)
    && PlainValue(d.fsType) && PlainValue(d.driveType)
    && forall i | 0 <= i < |d.labels| :: PlainLabel(d.labels[i])
  }

  function DriveColumns(d: Drive): seq<string> {
    [PrintColumn("NAME", d.path), PrintColumn("LABEL", Join(PrintLabels(d.labels), ',')), PrintColumn("SIZE", d.size),
     PrintColumn("MOUNTPOINT", d.mountPoint), PrintColumn("FSTYPE", d.fsType), PrintColumn("TYPE", d.driveType)]
  }

  /** A line as `lsblk -P -o NAME,LABEL,SIZE,MOUNTPOINT,FSTYPE,TYPE` prints it. */
  function PrintDrive(d: Drive): string {
    Join(DriveColumns(d), ' ')
  }

  /** The drive that should be read back. */
  function Expected(d: Drive): BlockDrive {
    BlockDrive(d.path, WithLabels(map[], d.labels), d.mountPoint, d.fsType, d.size, d.driveType)
  }

  lemma ColumnBegins(name: string, v: string)
    requires name != []
    ensures name <= PrintColumn(name, v) && PrintColumn(name, v)[0] == name[0]
  {
  }

  lemma ReadField(d: BlockDrive, name: string, v: string)
    requires name in ["NAME", "SIZE", "MOUNTPOINT", "FSTYPE", "TYPE"] && '=' !in v
    ensures ReadColumn(d, PrintColumn(name, v)) ==
            Value(match name[0]
                  case 'N' => d.(path := v)
                  case 'S' => d.(size := v)
                  case 'M' => d.(mountPoint := v)
                  case 'F' => d.(fsType := v)
                  case _ => d.(driveType := v))
  {
    hide FieldValue, LabelValue, PrintColumn;
    FieldComesBack(name, v);
    ColumnBegins(name, v);
  }

  lemma ReadLabelField(d: BlockDrive, ls: seq<Label>)
    requires forall i | 0 <= i < |ls| :: PlainLabel(ls[i])
    ensures ReadColumn(d, PrintColumn("LABEL", Join(PrintLabels(ls), ','))) ==
            Value(d.(labels := WithLabels(map[], ls)))
  {
    hide FieldValue, LabelValue, PrintColumn, Join;
    ReadLabelColumn(ls);
    ColumnBegins("LABEL", Join(PrintLabels(ls), ','));
  }

  lemma ReadCons(d: BlockDrive, col: string, cols: seq<string>, d': BlockDrive)
    requires ReadColumn(d, col) == Value(d')
    ensures ReadColumns(d, [col] + cols) == ReadColumns(d', cols)
  {
    assert ([col] + cols)[1..] == cols;
  }

  lemma ReadThree(d: BlockDrive, cols: seq<string>, d1: BlockDrive, d2: BlockDrive, d3: BlockDrive)
    requires |cols| >= 3
    requires ReadColumn(d, cols[0]) == Value(d1) && ReadColumn(d1, cols[1]) == Value(d2)
    requires ReadColumn(d2, cols[2]) == Value(d3)
    ensures ReadColumns(d, cols) == ReadColumns(d3, cols[3..])
  {
    hide ReadColumn, ReadColumns;
    ReadCons(d, cols[0], cols[1..], d1);
    ReadCons(d1, cols[1], cols[2..], d2);
    ReadCons(d2, cols[2], cols[3..], d3);
    assert cols == [cols[0]] + cols[1..] && cols[1..] == [cols[1]] + cols[2..] && cols[2..] == [cols[2]] + cols[3..];
  }

  lemma ReadDriveColumns(d: Drive)
    requires PlainDrive(d)
    ensures ReadColumns(EmptyDrive, DriveColumns(d)) == Value(Expected(d))
  {
    hide ReadColumn, PrintColumn, Join, WithLabels;
    var c := DriveColumns(d);
    var d1 := EmptyDrive.(path := d.path);
    var d2 := d1.(labels := WithLabels(map[], d.labels));
    var d3 := d2.(size := d.size);
    var d4 := d3.(mountPoint := d.mountPoint);
    var d5 := d4.(fsType := d.fsType);
    ReadField(EmptyDrive, "NAME", d.path);
    ReadLabelField(d1, d.labels);
    ReadField(d2, "SIZE", d.size);
    ReadField(d3, "MOUNTPOINT", d.mountPoint);
    ReadField(d4, "FSTYPE", d.fsType);
    ReadField(d5, "TYPE", d.driveType);
    ReadThree(EmptyDrive, c, d1, d2, d3);
    ReadThree(d3, c[3..], d4, d5, Expected(d));
  }

  lemma {:induction false} JoinAvoids(parts: seq<string>, sep: char, c: char)
    requires c != sep && forall p | p in parts :: c !in p
    ensures c !in Join(parts, sep)
  {
    if |parts| > 1 {
      JoinAvoids(parts[1..], sep, c);
    }
  }

  lemma ColumnAvoids(name: string, v: string, c: char)
    requires c !in name && c !in v && c != '=' && c != '"'
    ensures c !in PrintColumn(name, v)
  {
  }

  lemma DriveColumnsPlain(d: Drive, c: char)
    requires PlainDrive(d) && (c == ' ' || c == '\n')
    ensures forall p | p in DriveColumns(d) :: c !in p
  {
    hide PrintColumn, Join, PrintLabels, PlainLabel;
    var text := Join(PrintLabels(d.labels), ',');
    PlainLabels(d.labels);
    JoinAvoids(PrintLabels(d.labels), ',', c);
    ColumnAvoids("NAME", d.path, c);
    ColumnAvoids("LABEL", text, c);
    ColumnAvoids("SIZE", d.size, c);
    ColumnAvoids("MOUNTPOINT", d.mountPoint, c);
    ColumnAvoids("FSTYPE", d.fsType, c);
    ColumnAvoids("TYPE", d.driveType, c);
  }

  lemma ReadPrintedDrive(d: Drive)
    requires PlainDrive(d)
    ensures ReadLine(PrintDrive(d)) == Value(Expected(d))
  {
    hide Split, Join, ReadColumns, DriveColumns, PlainDrive;
    DriveColumnsPlain(d, ' ');
    SixColumns(d);
    SplitJoin(DriveColumns(d), ' ');
    ReadDriveColumns(d);
  }

  /** Field by field. */
  lemma DriveComesBack(d: Drive)
    requires PlainDrive(d)
    ensures var r := ReadLine(PrintDrive(d));
            && r.Value? && r.value.path == d.path && r.value.size == d.size && r.value.mountPoint == d.mountPoint
            && r.value.fsType == d.fsType && r.value.driveType == d.driveType
            && r.value.labels == WithLabels(map[], d.labels)
  {
    hide ReadLine, PrintDrive, PlainDrive, WithLabels;
    ReadPrintedDrive(d);
  }

  lemma SixColumns(d: Drive)
    ensures DriveColumns(d) != []
  {
  }

  // ----- the whole output -----

  function PrintDrives(ds: seq<Drive>): seq<string> {
    seq(|ds|, i requires 0 <= i < |ds| => PrintDrive(ds[i]))
  }

  /** Drives by path; the last line for a path wins. */
  function ByPath(drives: map<string, BlockDrive>, ds: seq<Drive>): map<string, BlockDrive>
    decreases |ds|
  {
    if ds == [] then drives else ByPath(drives[ds[0].path := Expected(ds[0])], ds[1..])
  }

  /** What a path holds afterwards: the drive of the last line with that path. */
  lemma {:induction false} LastLineWins(drives: map<string, BlockDrive>, ds: seq<Drive>, k: nat)
    requires k < |ds| && forall i | k < i < |ds| :: ds[i].path != ds[k].path
    ensures ds[k].path in ByPath(drives, ds) && ByPath(drives, ds)[ds[k].path] == Expected(ds[k])
    decreases |ds|
  {
    hide Expected;
    if k > 0 {
      LastLineWins(drives[ds[0].path := Expected(ds[0])], ds[1..], k - 1);
    } else {
      OtherPathsStay(drives[ds[0].path := Expected(ds[0])], ds[1..], ds[0].path);
    }
  }

  lemma {:induction false} OtherPathsStay(drives: map<string, BlockDrive>, ds: seq<Drive>, path: string)
    requires path in drives && forall i | 0 <= i < |ds| :: ds[i].path != path
    ensures path in ByPath(drives, ds) && ByPath(drives, ds)[path] == drives[path]
    decreases |ds|
  {
    hide Expected;
    if ds != [] {
      OtherPathsStay(drives[ds[0].path := Expected(ds[0])], ds[1..], path);
    }
  }

  lemma {:induction false} ReadPrintedLines(drives: map<string, BlockDrive>, ds: seq<Drive>)
    requires forall i | 0 <= i < |ds| :: PlainDrive(ds[i])
    ensures ReadLines(drives, PrintDrives(ds)) == Value(ByPath(drives, ds))
    decreases |ds|
  {
    hide ReadLine, PrintDrive, PlainDrive;
    if ds != [] {
      ReadPrintedDrive(ds[0]);
      ReadPrintedLines(drives[ds[0].path := Expected(ds[0])], ds[1..]);
      assert PrintDrives(ds)[1..] == PrintDrives(ds[1..]);
    }
  }

  /** A printed line begins with the letter N and ends with a quote. */
  lemma PrintedEnds(d: Drive)
    ensures var s := PrintDrive(d); s != [] && s[0] == 'N' && s[|s| - 1] == '"'
  {
    hide PrintColumn;
    var c := DriveColumns(d);
    ColumnBegins("NAME", d.path);
    ColumnEnds("TYPE", d.driveType);
    JoinEnds(c, ' ');
  }

  lemma ColumnEnds(name: string, v: string)
    ensures var s := PrintColumn(name, v); s != [] && s[|s| - 1] == '"'
  {
  }

  lemma {:induction false} JoinEnds(parts: seq<string>, sep: char)
    requires parts != [] && parts[0] != [] && parts[|parts| - 1] != []
    ensures var s, last := Join(parts, sep), parts[|parts| - 1];
            s != [] && s[0] == parts[0][0] && s[|s| - 1] == last[|last| - 1]
  {
    if |parts| > 1 {
      JoinLast(parts[1..], sep);
      assert parts[1..][|parts| - 2] == parts[|parts| - 1];
    }
  }

  lemma {:induction false} JoinLast(parts: seq<string>, sep: char)
    requires parts != [] && parts[|parts| - 1] != []
    ensures var s, last := Join(parts, sep), parts[|parts| - 1]; s != [] && s[|s| - 1] == last[|last| - 1]
  {
    if |parts| > 1 {
      JoinLast(parts[1..], sep);
      assert parts[1..][|parts| - 2] == parts[|parts| - 1];
    }
  }

  lemma ReadPrintedOutput(ds: seq<Drive>, before: string, after: string)
    requires ds != [] && Blank(before) && Blank(after)
    requires forall i | 0 <= i < |ds| :: PlainDrive(ds[i])
    ensures ReadDrives(before + Join(PrintDrives(ds), '\n') + after) == Value(ByPath(map[], ds))
  {
    hide ReadLines, PrintDrive, PlainDrive, Join, Split, Trim;
    var lines := PrintDrives(ds);
    var text := Join(lines, '\n');
    PrintedEnds(ds[0]);
    PrintedEnds(ds[|ds| - 1]);
    JoinEnds(lines, '\n');
    TrimCore(before, text, after, IsSpace);
    forall i | 0 <= i < |ds| ensures '\n' !in lines[i] {
      PrintedLineIsOne(ds[i]);
    }
    SplitJoin(lines, '\n');
    ReadPrintedLines(map[], ds);
  }

  lemma PrintedLineIsOne(d: Drive)
    requires PlainDrive(d)
    ensures '\n' !in PrintDrive(d)
  {
    hide Join, DriveColumns, PlainDrive;
    DriveColumnsPlain(d, '\n');
    JoinAvoids(DriveColumns(d), ' ', '\n');
  }

  /** No drives is the one exception: empty output is read as one drive without a path. */
  lemma EmptyOutput(blank: string)
    requires Blank(blank)
    ensures ReadDrives(blank) == Value(map["" := EmptyDrive])
  {
    hide TrimLeft, TrimRight;
    var t := TrimLeft(blank, IsSpace);
    assert t == [];
    assert TrimRight(t, IsSpace) == [];
    assert Split("", '\n') == [""] && Split("", ' ') == [""];
    assert ReadColumns(EmptyDrive, [""]) == Value(EmptyDrive);
  }

  /** Parsing the printed output, with any white space around it, gives back every drive with its
      fields and labels, keyed by path, the last line for a path winning, if and only if there is a
      drive. */
  lemma DrivesRoundTrip(ds: seq<Drive>, before: string, after: string)
    requires Blank(before) && Blank(after)
    requires forall i | 0 <= i < |ds| :: PlainDrive(ds[i])
    ensures ReadDrives(before + Join(PrintDrives(ds), '\n') + after) == Value(ByPath(map[], ds)) <==> ds != []
  {
    hide ReadDrives, PrintDrive, PlainDrive, Expected;
    if ds == [] {
      assert Join(PrintDrives([]), '\n') == [];
      EmptyOutput(before + [] + after);
      assert "" in map["" := EmptyDrive] && "" !in ByPath(map[], []);
    } else {
      ReadPrintedOutput(ds, before, after);
    }
  }
}
