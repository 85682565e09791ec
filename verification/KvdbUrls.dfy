/** URLs of kvdb endpoints: the printer `MakeURL`, and the parsers that read addresses back from the
    output of `pxctl service kvdb endpoints` and `pxctl service kvdb members`. */
module KvdbUrls {
  import opened Wrappers
  import opened Text

  // ----- host and port -----

  datatype HostPort = HostPort(host: string, port: string)

  /** `net.JoinHostPort`: a host with a colon is put in brackets. */
  function JoinHostPort(host: string, port: string): string {
    if ':' in host then "[" + host + "]:" + port else host + ":" + port
  }

  /** `net.SplitHostPort`. */
  function SplitHostPort(hostport: string): Option<HostPort> {
    var i := LastIndex(hostport, ':');
    if i < 0 then None
    else if hostport[0] == '[' then
      var end := Index(hostport, ']');
      if end < 0 || end + 1 != i || '[' in hostport[1..] || ']' in hostport[end + 1..] then None
      else Some(HostPort(hostport[1..end], hostport[i + 1..]))
    else if ':' in hostport[..i] || '[' in hostport || ']' in hostport then None
    else Some(HostPort(hostport[..i], hostport[i + 1..]))
  }

  function MakeURL(urlPrefix: string, ip: string, port: int): string {
    urlPrefix + JoinHostPort(ip, Itoa(port))
  }

  /** A URL holds the host as it is, or in brackets if it has a colon (section 3.2.2 of RFC 3986), and the
      port in decimal. */
  lemma MakeURLIs(urlPrefix: string, ip: string, port: nat)
    ensures ':' !in ip ==> MakeURL(urlPrefix, ip, port) == urlPrefix + ip + ":" + Itoa(port)
    ensures ':' in ip ==> MakeURL(urlPrefix, ip, port) == urlPrefix + "[" + ip + "]:" + Itoa(port)
    ensures Decimal(Itoa(port)) == port
  {
    hide ItoaNat;
    DecimalOfItoa(port);
    assert urlPrefix + (ip + ":" + Itoa(port)) == urlPrefix + ip + ":" + Itoa(port);
    assert urlPrefix + ("[" + ip + "]:" + Itoa(port)) == urlPrefix + "[" + ip + "]:" + Itoa(port);
  }

  lemma ItoaPlain(port: int)
    ensures ':' !in Itoa(port) && NoBrackets(Itoa(port))
  {
  }

  lemma BracketedColon(host: string, port: string)
    requires ':' !in port
    ensures var s := "[" + host + "]:" + port; s[0] == '[' && LastIndex(s, ':') == |host| + 2
  {
    LastIndexIs("[" + host + "]:" + port, ':', |host| + 2);
  }

  lemma SplitBracketed(host: string, port: string)
    requires ':' !in port && NoBrackets(port) && NoBrackets(host)
    ensures SplitHostPort("[" + host + "]:" + port) == Some(HostPort(host, port))
  {
    hide Index, LastIndex;
    var s := "[" + host + "]:" + port;
    BracketedColon(host, port);
    assert s == ("[" + host) + [']'] + (":" + port);
    IndexAfter("[" + host, ']', ":" + port);
    var end := |host| + 1;
    assert s[1..end] == host && s[end + 1..] == ":" + port && s[end + 2..] == port;
    assert s[1..] == host + "]:" + port;
  }

  lemma SplitBracketedBad(host: string, port: string)
    requires ':' !in port && !NoBrackets(host)
    ensures SplitHostPort("[" + host + "]:" + port).None?
  {
    hide Index, LastIndex;
    var s := "[" + host + "]:" + port;
    BracketedColon(host, port);
    assert forall k | 0 <= k < |host| :: s[k + 1] == host[k];
    if ']' in host {
      var k :| 0 <= k < |host| && host[k] == ']';
      IndexAtMost(s, ']', k + 1);
    } else {
      var k :| 0 <= k < |host| && host[k] == '[';
      assert s[1..][k] == '[';
    }
  }

  lemma IndexAtMost(s: string, c: char, k: nat)
    requires k < |s| && s[k] == c
    ensures 0 <= Index(s, c) <= k
  {
  }

  lemma SplitBare(host: string, port: string)
    requires ':' !in host && ':' !in port && NoBrackets(port)
    ensures SplitHostPort(host + ":" + port) == Some(HostPort(host, port)) <==> NoBrackets(host)
  {
    var s := host + ":" + port;
    LastIndexIs(s, ':', |host|);
    assert s[..|host|] == host && s[|host| + 1..] == port;
    assert host != [] ==> s[0] == host[0];
    assert '[' in s <==> '[' in host;
    assert ']' in s <==> ']' in host;
  }

  /** Splitting undoes joining for every port, exactly for the hosts without brackets. */
  lemma SplitJoined(host: string, port: int)
    ensures SplitHostPort(JoinHostPort(host, Itoa(port))) == Some(HostPort(host, Itoa(port))) <==> NoBrackets(host)
  {
    hide Itoa, SplitHostPort;
    ItoaPlain(port);
    if ':' in host {
      if NoBrackets(host) {
        SplitBracketed(host, Itoa(port));
      } else {
        SplitBracketedBad(host, Itoa(port));
      }
    } else {
      SplitBare(host, Itoa(port));
    }
  }

  // ----- endpoints -----

  /** The first match of `https?://(.*)` on a line: the text behind the scheme. */
  function FindEndpoint(line: string): Option<string> {
    if "http://" <= line then Some(line[7..])
    else if "https://" <= line then Some(line[8..])
    else if line == [] then None
    else FindEndpoint(line[1..])
  }

  function Scheme(secure: bool): string {
    if secure then "https://" else "http://"
  }

  /** What the endpoint parser makes of one line: nothing, a host, or a parse error. */
  datatype Reading = Skip | Host(ip: string) | Bad | Crash

  function HostOf(endpoint: string): Reading {
    match SplitHostPort(TrimSpace(endpoint))
    case None => Bad
    case Some(hp) => Host(hp.host)
  }

  function EndpointLine(line: string): Reading {
    match FindEndpoint(line)
    case None => Skip
    case Some(rest) => HostOf(rest)
  }

  datatype Parsed = Parsed(ips: seq<string>, stop: Option<Reading>)

  /** The hosts up to the first line that stops the parser, and what stopped it. */
  function Collect(lines: seq<string>, read: string -> Reading): Parsed {
    if lines == [] then Parsed([], None)
    else
      match read(lines[0])
      case Skip => Collect(lines[1..], read)
      case Host(ip) =>
        var more := Collect(lines[1..], read);
        more.(ips := [ip] + more.ips)
      case other => Parsed([], Some(other))
  }

  function Somes(hosts: seq<Option<string>>): seq<string> {
    if hosts == [] then [] else (if hosts[0].Some? then [hosts[0].value] else []) + Somes(hosts[1..])
  }

  lemma {:induction false} CollectReads(lines: seq<string>, read: string -> Reading, hosts: seq<Option<string>>)
    requires |lines| == |hosts|
    requires forall i | 0 <= i < |lines| :: read(lines[i]) == if hosts[i].Some? then Host(hosts[i].value) else Skip
    ensures Collect(lines, read) == Parsed(Somes(hosts), None)
  {
    if lines != [] {
      CollectReads(lines[1..], read, hosts[1..]);
    }
  }

  /** A line that cannot be read ends the parsing, with the addresses in front of it. */
  lemma {:induction false} CollectStops(lines: seq<string>, read: string -> Reading, hosts: seq<Option<string>>,
                                        line: string, rest: seq<string>)
    requires |lines| == |hosts|
    requires forall i | 0 <= i < |lines| :: read(lines[i]) == if hosts[i].Some? then Host(hosts[i].value) else Skip
    requires read(line) == Bad || read(line) == Crash
    ensures Collect(lines + [line] + rest, read) == Parsed(Somes(hosts), Some(read(line)))
  {
    if lines == [] {
      assert (lines + [line] + rest)[0] == line;
    } else {
      CollectStops(lines[1..], read, hosts[1..], line, rest);
      assert (lines + [line] + rest)[1..] == lines[1..] + [line] + rest;
      assert (lines + [line] + rest)[0] == lines[0];
    }
  }

  method CollectLines(lines: seq<string>, read: string -> Reading) returns (r: Parsed)
    ensures r == Collect(lines, read)
  {
    var ips: seq<string> := [];
    var i := 0;
    assert lines[0..] == lines;
    while i < |lines|
      invariant 0 <= i <= |lines|
      invariant var rest := Collect(lines[i..], read);
                Collect(lines, read) == rest.(ips := ips + rest.ips)
    {
      assert lines[i..][0] == lines[i] && lines[i..][1..] == lines[i + 1..];
      match read(lines[i]) {
        case Skip =>
        case Host(ip) =>
          ghost var rest := Collect(lines[i + 1..], read);
          assert ips + ([ip] + rest.ips) == ips + [ip] + rest.ips;
          ips := ips + [ip];
        case other =>
          return Parsed(ips, Some(other));
      }
      i := i + 1;
    }
    r := Parsed(ips, None);
  }

  /** `parseIPAddressInPxctlServiceKvdbEndpoints`. The pattern cannot match across a line break, so
      its matches are the first match of each line. */
  method ParseEndpoints(output: string) returns (r: Parsed)
    ensures r == Collect(Split(output, '\n'), EndpointLine)
  {
    r := CollectLines(Split(output, '\n'), EndpointLine);
  }

  // ----- members -----

  predicate Bracket(c: char) {
    c == '[' || c == ']'
  }

  /** What the member parser makes of one line: it takes the address in the third column. A line with
      just two columns, or without a URL in the third, crashes it. */
  function MemberLine(line: string): Reading {
    if !Contains(line, "http") then Skip
    else
      var cols := Fields(TrimSpace(line));
      if |cols| < 2 then Skip
      else if |cols| == 2 then Crash
      else
        match FindEndpoint(Trim(cols[2], Bracket))
        case None => Crash
        case Some(rest) => HostOf(rest)
  }

  /** `parseIPAddressInPxctlServiceKvdbMembers`. */
  method ParseMembers(output: string) returns (r: Parsed)
    ensures r == Collect(Split(output, '\n'), MemberLine)
  {
    r := CollectLines(Split(output, '\n'), MemberLine);
  }

  // ----- round trips -----

  ghost predicate Address(ip: string) {
    NoSpace(ip) && NoBrackets(ip)
  }

  lemma FindAfterBlank(indent: string, rest: string)
    requires Blank(indent)
    ensures FindEndpoint(indent + rest) == FindEndpoint(rest)
  {
    if indent == [] {
      assert indent + rest == rest;
    } else {
      var s := indent + rest;
      assert IsSpace(s[0]);
      assert s[1..] == indent[1..] + rest;
      FindAfterBlank(indent[1..], rest);
    }
  }

  lemma FindUrl(secure: bool, rest: string)
    ensures FindEndpoint(Scheme(secure) + rest) == Some(rest)
  {
    var s := Scheme(secure) + rest;
    if secure {
      assert s[4] == 's' && "http://"[4] == ':';
      assert s[8..] == rest;
    } else {
      assert s[7..] == rest;
    }
  }

  lemma JoinedEnds(ip: string, port: int)
    requires Address(ip)
    ensures var s := JoinHostPort(ip, Itoa(port));
            s != [] && !IsSpace(s[0]) && !IsSpace(s[|s| - 1]) && !Bracket(s[|s| - 1])
  {
    var p, s := Itoa(port), JoinHostPort(ip, Itoa(port));
    assert s[|s| - 1] == p[|p| - 1];
    assert s[0] == '[' || s[0] == ':' || (ip != [] && s[0] == ip[0]);
  }

  lemma HostOfJoined(ip: string, port: int, tail: string)
    requires Address(ip) && Blank(tail)
    ensures HostOf(JoinHostPort(ip, Itoa(port)) + tail) == Host(ip)
  {
    hide Itoa, SplitHostPort;
    JoinedEnds(ip, port);
    var s := JoinHostPort(ip, Itoa(port));
    TrimCore([], s, tail, IsSpace);
    assert [] + s + tail == s + tail;
    SplitJoined(ip, port);
  }

  /** A line of an endpoint report: a URL with white space around it, or a line without a URL. */
  datatype Endpoint =
    | Url(indent: string, secure: bool, ip: string, port: int, tail: string)
    | Other(line: string)

  function PrintEndpoint(e: Endpoint): string {
    match e
    case Url(indent, secure, ip, port, tail) => indent + (MakeURL(Scheme(secure), ip, port) + tail)
    case Other(line) => line
  }

  ghost predicate WellFormed(e: Endpoint) {
    && '\n' !in PrintEndpoint(e)
    && match e
       case Url(indent, _, ip, _, tail) => Blank(indent) && Blank(tail) && Address(ip)
       case Other(line) => FindEndpoint(line).None?
  }

  function PrintEndpoints(es: seq<Endpoint>): seq<string> {
    seq(|es|, i requires 0 <= i < |es| => PrintEndpoint(es[i]))
  }

  function EndpointHosts(es: seq<Endpoint>): seq<Option<string>> {
    seq(|es|, i requires 0 <= i < |es| => if es[i].Url? then Some(es[i].ip) else None)
  }

  lemma ReadEndpoint(e: Endpoint)
    requires WellFormed(e)
    ensures EndpointLine(PrintEndpoint(e)) == if e.Url? then Host(e.ip) else Skip
  {
    hide FindEndpoint, HostOf, JoinHostPort, Itoa;
    if e.Url? {
      var joined := JoinHostPort(e.ip, Itoa(e.port));
      assert MakeURL(Scheme(e.secure), e.ip, e.port) + e.tail == Scheme(e.secure) + (joined + e.tail);
      FindAfterBlank(e.indent, Scheme(e.secure) + (joined + e.tail));
      FindUrl(e.secure, joined + e.tail);
      HostOfJoined(e.ip, e.port, e.tail);
    }
  }

  /** The endpoint parser reads back the addresses of every printed report, IPv4 or IPv6, in order
      and without an error. */
  lemma EndpointsRoundTrip(es: seq<Endpoint>)
    requires forall i | 0 <= i < |es| :: WellFormed(es[i])
    ensures Collect(Split(Join(PrintEndpoints(es), '\n'), '\n'), EndpointLine) == Parsed(Somes(EndpointHosts(es)), None)
  {
    hide Split, Join, EndpointLine, Collect, Somes;
    var lines := PrintEndpoints(es);
    forall i | 0 <= i < |es|
      ensures '\n' !in lines[i] && EndpointLine(lines[i]) == if es[i].Url? then Host(es[i].ip) else Skip
    {
      ReadEndpoint(es[i]);
    }
    if es == [] {
      assert lines == [] && EndpointHosts(es) == [];
      NothingRead(EndpointLine);
    } else {
      SplitJoin(lines, '\n');
      CollectReads(lines, EndpointLine, EndpointHosts(es));
    }
  }

  lemma NothingRead(read: string -> Reading)
    ensures Join([], '\n') == "" && Somes([]) == []
    ensures EndpointLine("") == Skip && MemberLine("") == Skip
    ensures read("") == Skip ==> Collect(Split("", '\n'), read) == Parsed([], None)
  {
    assert Split("", '\n') == [""];
  }

  // ----- member reports -----

  /** A member row: at least three columns, the third of which is a URL in brackets. */
  datatype Member = Member(lead: string, cells: seq<Cell>, secure: bool, ip: string, port: int)

  function PrintMember(m: Member): string {
    m.lead + PrintCells(m.cells)
  }

  function Bracketed(m: Member): string {
    "[" + MakeURL(Scheme(m.secure), m.ip, m.port) + "]"
  }

  ghost predicate WellFormedMember(m: Member) {
    && '\n' !in PrintMember(m) && Blank(m.lead) && WellSpaced(m.cells) && Address(m.ip)
    && |m.cells| >= 3 && m.cells[2].word == Bracketed(m)
  }

  lemma MemberMentionsHttp(m: Member)
    requires WellFormedMember(m)
    ensures Contains(PrintMember(m), "http")
  {
    hide Contains;
    var c := m.cells;
    var url := MakeURL(Scheme(m.secure), m.ip, m.port);
    var front := m.lead + (c[0].word + c[0].gap) + (c[1].word + c[1].gap) + "[";
    var behind := "]" + c[2].gap + PrintCells(c[3..]);
    ThreeCells(c);
    assert PrintMember(m) == front + (url + behind) by {
      ConcatParts(m.lead, c[0].word + c[0].gap, c[1].word + c[1].gap, url, c[2].gap, PrintCells(c[3..]));
    }
    UrlMentionsHttp(m, behind);
    assert (front + (url + behind))[|front|..] == url + behind;
    ContainsAt(front + (url + behind), |front|, "http");
  }

  lemma ConcatParts(lead: string, a: string, b: string, url: string, gap: string, rest: string)
    ensures lead + (a + b + ("[" + url + "]" + gap + rest)) == (lead + a + b + "[") + (url + ("]" + gap + rest))
  {
  }

  lemma UrlMentionsHttp(m: Member, behind: string)
    ensures "http" <= MakeURL(Scheme(m.secure), m.ip, m.port) + behind
  {
    hide JoinHostPort;
    assert "http" <= Scheme(m.secure);
  }

  lemma ThreeCells(c: seq<Cell>)
    requires |c| >= 3
    ensures PrintCells(c) ==
            (c[0].word + c[0].gap) + (c[1].word + c[1].gap) + (c[2].word + c[2].gap + PrintCells(c[3..]))
  {
    hide PrintCells;
    assert c[1..][0] == c[1] && c[1..][1..] == c[2..];
    assert c[2..][0] == c[2] && c[2..][1..] == c[3..];
    FirstCell(c);
    FirstCell(c[1..]);
    FirstCell(c[2..]);
    ConcatAssoc(c[0].word + c[0].gap, c[1].word + c[1].gap, PrintCells(c[2..]));
  }

  lemma FirstCell(c: seq<Cell>)
    requires c != []
    ensures PrintCells(c) == c[0].word + c[0].gap + PrintCells(c[1..])
  {
  }

  lemma ConcatAssoc(a: string, b: string, c: string)
    ensures a + (b + c) == a + b + c
  {
  }

  lemma TrimBracketed(m: Member)
    requires Address(m.ip)
    ensures Trim(Bracketed(m), Bracket) == MakeURL(Scheme(m.secure), m.ip, m.port)
  {
    JoinedEnds(m.ip, m.port);
    var joined := JoinHostPort(m.ip, Itoa(m.port));
    var url := Scheme(m.secure) + joined;
    assert url[0] == 'h' && url[|url| - 1] == joined[|joined| - 1];
    TrimCore("[", url, "]", Bracket);
  }

  /** The member parser reads back the address of every printed row. */
  lemma ReadMember(m: Member)
    requires WellFormedMember(m)
    ensures MemberLine(PrintMember(m)) == Host(m.ip)
  {
    hide Fields, FindEndpoint, HostOf, JoinHostPort, Itoa, Trim, Contains;
    var line := PrintMember(m);
    MemberMentionsHttp(m);
    FieldsTrimmed(line);
    FieldsOfCells(m.lead, m.cells);
    assert Words(m.cells)[2] == Bracketed(m);
    TrimBracketed(m);
    var joined := JoinHostPort(m.ip, Itoa(m.port));
    FindUrl(m.secure, joined);
    HostOfJoined(m.ip, m.port, []);
    assert joined + [] == joined;
  }

  /** A line of a member report: a member, or a line that does not mention "http". */
  datatype MemberRow = Row(member: Member) | Plain(line: string)

  function PrintRow(row: MemberRow): string {
    if row.Row? then PrintMember(row.member) else row.line
  }

  ghost predicate WellFormedRow(row: MemberRow) {
    if row.Row? then WellFormedMember(row.member) else '\n' !in row.line && !Contains(row.line, "http")
  }

  function PrintRows(rows: seq<MemberRow>): seq<string> {
    seq(|rows|, i requires 0 <= i < |rows| => PrintRow(rows[i]))
  }

  function RowHosts(rows: seq<MemberRow>): seq<Option<string>> {
    seq(|rows|, i requires 0 <= i < |rows| => if rows[i].Row? then Some(rows[i].member.ip) else None)
  }

  /** The member parser reads back the addresses of every printed list of members. */
  lemma MembersRoundTrip(rows: seq<MemberRow>)
    requires forall i | 0 <= i < |rows| :: WellFormedRow(rows[i])
    ensures Collect(Split(Join(PrintRows(rows), '\n'), '\n'), MemberLine) == Parsed(Somes(RowHosts(rows)), None)
  {
    hide Split, Join, Collect, Somes, PrintMember;
    var lines := PrintRows(rows);
    forall i | 0 <= i < |rows|
      ensures '\n' !in lines[i] && MemberLine(lines[i]) == if rows[i].Row? then Host(rows[i].member.ip) else Skip
    {
      if rows[i].Row? {
        ReadMember(rows[i].member);
      }
    }
    if rows == [] {
      assert lines == [] && RowHosts(rows) == [];
      NothingRead(MemberLine);
    } else {
      SplitJoin(lines, '\n');
      CollectReads(lines, MemberLine, RowHosts(rows));
    }
  }

  /** On a row of columns that mentions "http", the parser skips a single column, and it crashes if
      and only if there are exactly two columns or the third holds no URL. */
  lemma MemberCrashes(lead: string, cells: seq<Cell>)
    requires Blank(lead) && WellSpaced(cells) && Contains(lead + PrintCells(cells), "http")
    ensures var r := MemberLine(lead + PrintCells(cells));
            && (r == Skip <==> |cells| < 2)
            && (r == Crash <==> |cells| == 2 || (|cells| > 2 && FindEndpoint(Trim(cells[2].word, Bracket)).None?))
  {
    hide Fields, FindEndpoint, Trim, Contains, SplitHostPort;
    FieldsTrimmed(lead + PrintCells(cells));
    FieldsOfCells(lead, cells);
  }
}
