/** The line parser behind `ParseIPv6AddressInPxctlCommand`: a cursor over the lines of a
    `pxctl` report, and options that say which lines hold addresses, or announce rows that do. */
module PxctlParser {
  import opened Wrappers
  import opened Text

  /** `index` is the column to take; `count` is 0 when the column is on the matching line itself,
      and otherwise the number of rows to read behind it. */
  datatype ParserOption = ParserOption(prefix: string, index: nat, count: int)

  /** An address together with the number of the line it was read from. */
  datatype Emit = Emit(line: nat, ip: string)

  /** The lines still ahead of the scanner, the number of the next one, and what was read so far. */
  datatype Cursor = Cursor(rest: seq<string>, at: nat, emits: seq<Emit>)

  predicate Indent(c: char) {
    c == ' ' || c == '\t'
  }

  function Trimmed(line: string): string {
    TrimLeft(line, Indent)
  }

  // ----- the scanner -----

  function DropCR(line: string): string {
    if line != [] && line[|line| - 1] == '\r' then line[..|line| - 1] else line
  }

  /** `bufio.ScanLines`: a final line break does not open another line. */
  function ScanLines(text: string): (lines: seq<string>)
    decreases |text|
  {
    if text == [] then []
    else
      var i := Index(text, '\n');
      if i < 0 then [DropCR(text)] else [DropCR(text[..i])] + ScanLines(text[i + 1..])
  }

  function PrintLines(lines: seq<string>): string {
    if lines == [] then [] else lines[0] + ['\n'] + PrintLines(lines[1..])
  }

  ghost predicate Printable(line: string) {
    '\n' !in line && DropCR(line) == line
  }

  /** The scanner gives back the lines of any printed report. */
  lemma {:induction false} ScanPrintedLines(lines: seq<string>)
    requires forall l | l in lines :: Printable(l)
    ensures ScanLines(PrintLines(lines)) == lines
  {
    if lines != [] {
      var l, tail := lines[0], lines[1..];
      assert Printable(l);
      IndexAfter(l, '\n', PrintLines(tail));
      var text := PrintLines(lines);
      assert text[..|l|] == l && text[|l| + 1..] == PrintLines(tail);
      ScanPrintedLines(tail);
      assert lines == [l] + tail;
    }
  }

  function PrintDosLines(lines: seq<string>): string {
    if lines == [] then [] else lines[0] + "\r" + ['\n'] + PrintDosLines(lines[1..])
  }

  /** Also when the lines end with a carriage return and a line feed. */
  lemma {:induction false} ScanDosLines(lines: seq<string>)
    requires forall l | l in lines :: '\n' !in l
    ensures ScanLines(PrintDosLines(lines)) == lines
  {
    if lines != [] {
      var l, tail := lines[0], lines[1..];
      assert '\n' !in l + "\r";
      IndexAfter(l + "\r", '\n', PrintDosLines(tail));
      var text := PrintDosLines(lines);
      assert text[..|l| + 1] == l + "\r" && text[|l| + 2..] == PrintDosLines(tail);
      assert DropCR(l + "\r") == l;
      ScanDosLines(tail);
      assert lines == [l] + tail;
    }
  }

  /** Indentation by spaces and tabs is taken off a line, and nothing else. */
  lemma TrimmedIs(indent: string, line: string)
    requires forall i | 0 <= i < |indent| :: indent[i] == ' ' || indent[i] == '\t'
    requires line != [] ==> line[0] != ' ' && line[0] != '\t'
    ensures Trimmed(indent + line) == line
  {
    TrimLeftCore(indent, line, Indent);
  }

  // ----- what the parser computes -----

  function ColumnOf(line: string, index: nat): Checked<string> {
    var words := Fields(line);
    if index < |words| then Value(words[index]) else Panic
  }

  function Column(line: string, at: nat, index: nat): Checked<Emit> {
    var word :- ColumnOf(line, index);
    Value(Emit(at, word))
  }

  /** Reads up to `count` rows; running out of lines ends the reading early. */
  function ReadRows(c: Cursor, index: nat, count: int): (r: Checked<Cursor>)
    ensures r.Value? ==> |r.value.rest| <= |c.rest|
    decreases |c.rest|
  {
    if count <= 0 || c.rest == [] then Value(c)
    else
      var e :- Column(c.rest[0], c.at, index);
      ReadRows(Cursor(c.rest[1..], c.at + 1, c.emits + [e]), index, count - 1)
  }

  /** The effect of one option on a line that is numbered `here`. */
  function Apply(o: ParserOption, line: string, here: nat, c: Cursor): (r: Checked<Cursor>)
    ensures r.Value? ==> |r.value.rest| <= |c.rest|
  {
    if !(o.prefix <= line) then Value(c)
    else if o.count == 0 then
      var e :- Column(line, here, o.index);
      Value(c.(emits := c.emits + [e]))
    else ReadRows(c, o.index, o.count)
  }

  /** All options in turn, each starting where the one before left the cursor. */
  function LineEffect(options: seq<ParserOption>, line: string, here: nat, c: Cursor): (r: Checked<Cursor>)
    ensures r.Value? ==> |r.value.rest| <= |c.rest|
    decreases |options|
  {
    if options == [] then Value(c)
    else
      var d :- Apply(options[0], line, here, c);
      LineEffect(options[1..], line, here, d)
  }

  function Parsed(options: seq<ParserOption>, c: Cursor): (r: Checked<Cursor>)
    decreases |c.rest|
  {
    if c.rest == [] then Value(c)
    else
      var d :- LineEffect(options, Trimmed(c.rest[0]), c.at, Cursor(c.rest[1..], c.at + 1, c.emits));
      Parsed(options, d)
  }

  lemma ParsedNext(options: seq<ParserOption>, c: Cursor)
    ensures Parsed(options, c) ==
            if c.rest == [] then Value(c)
            else
              var r := LineEffect(options, Trimmed(c.rest[0]), c.at, Cursor(c.rest[1..], c.at + 1, c.emits));
              if r.Panic? then Panic else Parsed(options, r.value)
  {
    hide Fields, TrimLeft, LineEffect;
  }

  function Ips(emits: seq<Emit>): (ips: seq<string>)
    ensures |ips| == |emits|
  {
    seq(|emits|, i requires 0 <= i < |emits| => emits[i].ip)
  }

  // ----- the parser object -----

  class Parser {
    const options: seq<ParserOption>
    var lines: seq<string>
    var next: nat
    var ips: seq<string>
    ghost var read: seq<Emit>  // the addresses with the lines they came from

    ghost predicate Valid()
      reads this
    {
      next <= |lines| && ips == Ips(read)
    }

    ghost function State(): Cursor
      requires Valid()
      reads this
    {
      Cursor(lines[next..], next, read)
    }

    constructor (options: seq<ParserOption>)
      ensures Valid() && this.options == options && ips == []
    {
      this.options := options;
      lines, next, ips, read := [], 0, [], [];
    }

    /** `scanner.Scan`: moves to the next line, if there is one. */
    method Scan() returns (ok: bool)
      requires Valid()
      modifies this`next
      ensures Valid()
      ensures ok == (old(State()).rest != [])
      ensures State() == if ok then Cursor(old(State()).rest[1..], old(next) + 1, read) else old(State())
      ensures ok ==> next > 0 && lines[next - 1] == old(State()).rest[0]
    {
      ok := next < |lines|;
      if ok {
        next := next + 1;
      }
    }

    /** Appends column `index` of `line`, which is the line numbered `here`. */
    method Take(line: string, index: nat, ghost here: nat) returns (panicked: bool)
      requires Valid()
      modifies this`ips, this`read
      ensures Valid()
      ensures var e := Column(line, here, index);
              panicked == e.Panic? && (!panicked ==> State() == old(State()).(emits := old(read) + [e.value]))
    {
      var words := Fields(line);
      panicked := index >= |words|;
      if !panicked {
        ips := ips + [words[index]];
        read := read + [Emit(here, words[index])];
      }
    }

    /** Reads one row, if there is one. */
    method ReadRow(index: nat) returns (more: bool, panicked: bool)
      requires Valid()
      modifies this`next, this`ips, this`read
      ensures Valid()
      ensures var c := old(State());
              if c.rest == [] then !more && !panicked && State() == c
              else
                var e := Column(c.rest[0], c.at, index);
                && more && panicked == e.Panic?
                && (!panicked ==> State() == Cursor(c.rest[1..], c.at + 1, c.emits + [e.value]))
    {
      panicked := false;
      more := Scan();
      if more {
        panicked := Take(lines[next - 1], index, next - 1);
      }
    }

    /** Reads the rows announced by an option. */
    method ReadCounted(index: nat, count: int) returns (panicked: bool)
      requires Valid()
      modifies this`next, this`ips, this`read
      ensures Valid()
      ensures var r := ReadRows(old(State()), index, count);
              panicked == r.Panic? && (!panicked ==> State() == r.value)
    {
      hide Fields, TrimLeft;
      ghost var goal := ReadRows(State(), index, count);
      panicked := false;
      var i := 0;
      while i < count
        invariant Valid() && 0 <= i
        invariant !panicked && goal == ReadRows(State(), index, count - i)
        decreases count - i
      {
        var more;
        more, panicked := ReadRow(index);
        if !more || panicked {
          break;
        }
        i := i + 1;
      }
    }

    /** `parseLine`: tries every option on the line, reading rows through the shared scanner. */
    method ParseLine(line: string) returns (panicked: bool)
      requires Valid() && next > 0
      modifies this`next, this`ips, this`read
      ensures Valid()
      ensures var r := LineEffect(options, line, old(next) - 1, old(State()));
              panicked == r.Panic? && (!panicked ==> State() == r.value)
    {
      hide Fields, TrimLeft;
      ghost var here := next - 1;
      ghost var goal := LineEffect(options, line, here, State());
      var k := 0;
      assert options[0..] == options;
      while k < |options|
        invariant Valid() && k <= |options|
        invariant goal == LineEffect(options[k..], line, here, State())
      {
        var option := options[k];
        assert options[k..][0] == option && options[k..][1..] == options[k + 1..];
        if option.prefix <= line {
          if option.count == 0 {
            panicked := Take(line, option.index, here);
          } else {
            panicked := ReadCounted(option.index, option.count);
          }
          if panicked {
            return;
          }
        }
        k := k + 1;
      }
      panicked := false;
    }

    /** `parse`: the addresses of a whole report. */
    method Parse(cmdOutput: string) returns (panicked: bool)
      modifies this
      ensures Valid()
      ensures var r := Parsed(options, Cursor(ScanLines(cmdOutput), 0, []));
              panicked == r.Panic? && (!panicked ==> ips == Ips(r.value.emits))
    {
      hide Fields, TrimLeft, LineEffect, ScanLines, Parsed;
      ips, read, lines, next := [], [], ScanLines(cmdOutput), 0;
      ghost var goal := Parsed(options, State());
      while true
        invariant Valid()
        invariant goal == Parsed(options, State())
        decreases |lines| - next
      {
        ParsedNext(options, State());
        var ok := Scan();
        if !ok {
          break;
        }
        panicked := ParseLine(Trimmed(lines[next - 1]));
        if panicked {
          return;
        }
      }
      panicked := false;
    }
  }
}
