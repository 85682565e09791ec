/** Names of virtual disks: the uuid of a disk in canonical form, and the datastore part of the path
    of a vmdk file. Characters are ASCII. */
module DiskNames {
  import opened Wrappers
  import opened Text

  // ----- uuid -----

  datatype Uuid = Formatted(text: string) | BadLength | NotFound

  predicate Ignored(c: char) {
    c == ' ' || c == '-'
  }

  /** `strings.ReplaceAll` of one character by nothing. */
  function Strip(s: string, c: char): string {
    if s == [] then [] else (if s[0] == c then [] else [s[0]]) + Strip(s[1..], c)
  }

  function Lower(c: char): char {
    if 'A' <= c <= 'Z' then (c as int + 32) as char else c
  }

  /** `strings.ToLower`. */
  function ToLower(s: string): (r: string)
    ensures |r| == |s|
  {
    seq(|s|, i requires 0 <= i < |s| => Lower(s[i]))
  }

  function Hyphenate(t: string): string
    requires |t| == 32
  {
    t[0..8] + "-" + t[8..12] + "-" + t[12..16] + "-" + t[16..20] + "-" + t[20..]
  }

  /** The tail of `GetUUIDFromVMDKPath`. */
  function FormatUuid(uuid: string): Uuid {
    if uuid == "" then NotFound
    else
      var t := Strip(Strip(uuid, ' '), '-');
      if |t| != 32 then BadLength else Formatted(ToLower(Hyphenate(t)))
  }

  /** What a uuid says: its characters in lower case, without spaces and hyphens. */
  function Canon(s: string): string {
    if s == [] then [] else (if Ignored(s[0]) then [] else [Lower(s[0])]) + Canon(s[1..])
  }

  lemma {:induction false} CanonConcat(a: string, b: string)
    ensures Canon(a + b) == Canon(a) + Canon(b)
  {
    if a == [] {
      assert a + b == b;
    } else {
      assert (a + b)[1..] == a[1..] + b;
      CanonConcat(a[1..], b);
    }
  }

  /** Together with the law above this says what the canonical form keeps, and how: letter `i` of the
      capital alphabet becomes letter `i` of the small one. */
  lemma CanonOne(c: char)
    ensures c == ' ' || c == '-' ==> Canon([c]) == []
    ensures 'A' <= c <= 'Z' ==> |Canon([c])| == 1 && Canon([c])[0] as int - 'a' as int == c as int - 'A' as int
    ensures c != ' ' && c != '-' && !('A' <= c <= 'Z') ==> Canon([c]) == [c]
  {
    assert [c][1..] == [];
  }

  lemma StripCons(x: char, tail: string, c: char)
    ensures Strip([x] + tail, c) == if x == c then Strip(tail, c) else [x] + Strip(tail, c)
  {
    assert ([x] + tail)[1..] == tail;
  }

  lemma LowerCons(x: char, tail: string)
    ensures ToLower([x] + tail) == [Lower(x)] + ToLower(tail)
  {
  }

  lemma {:induction false} CanonStrips(s: string)
    ensures Canon(s) == ToLower(Strip(Strip(s, ' '), '-'))
  {
    if s != [] {
      var x, tail := s[0], s[1..];
      assert s == [x] + tail;
      CanonStrips(tail);
      StripCons(x, tail, ' ');
      StripCons(x, Strip(tail, ' '), '-');
      LowerCons(x, Strip(Strip(tail, ' '), '-'));
    }
  }

  lemma {:induction false} CanonPlain(s: string)
    ensures forall i | 0 <= i < |Canon(s)| :: !Ignored(Canon(s)[i]) && Lower(Canon(s)[i]) == Canon(s)[i]
  {
    if s != [] {
      CanonPlain(s[1..]);
    }
  }

  /** Text without spaces, hyphens and capitals is its own canonical form. */
  lemma {:induction false} CanonOfPlain(s: string)
    requires forall i | 0 <= i < |s| :: !Ignored(s[i]) && Lower(s[i]) == s[i]
    ensures Canon(s) == s
  {
    if s != [] {
      CanonOfPlain(s[1..]);
      assert s == [s[0]] + s[1..];
    }
  }

  lemma LowerHyphenate(t: string)
    requires |t| == 32
    ensures ToLower(Hyphenate(t)) == Hyphenate(ToLower(t))
  {
    forall i: nat | i < 36 ensures ToLower(Hyphenate(t))[i] == Hyphenate(ToLower(t))[i] {
      HyphenateAt(t, i);
      HyphenateAt(ToLower(t), i);
    }
    HyphenateAt(t, 0);
    HyphenateAt(ToLower(t), 0);
  }

  lemma CanonHyphenate(t: string)
    requires |t| == 32
    requires forall i | 0 <= i < |t| :: !Ignored(t[i]) && Lower(t[i]) == t[i]
    ensures Canon(Hyphenate(t)) == t
  {
    hide Canon;
    var a, b, c, d, e := t[0..8], t[8..12], t[12..16], t[16..20], t[20..];
    HyphenIsNothing();
    CanonConcat(a + "-" + b + "-" + c + "-" + d + "-", e);
    CanonConcat(a + "-" + b + "-" + c + "-" + d, "-");
    CanonConcat(a + "-" + b + "-" + c + "-", d);
    CanonConcat(a + "-" + b + "-" + c, "-");
    CanonConcat(a + "-" + b + "-", c);
    CanonConcat(a + "-" + b, "-");
    CanonConcat(a + "-", b);
    CanonConcat(a, "-");
    CanonOfPlain(a);
    CanonOfPlain(b);
    CanonOfPlain(c);
    CanonOfPlain(d);
    CanonOfPlain(e);
  }

  lemma HyphenIsNothing()
    ensures Canon("-") == []
  {
    assert "-"[1..] == [];
  }

  /** Formatting is the canonical form with hyphens put in; it succeeds when 32 characters remain. */
  lemma FormatIs(uuid: string)
    ensures FormatUuid(uuid) == if uuid == "" then NotFound
                                else if |Canon(uuid)| != 32 then BadLength
                                else Formatted(Hyphenate(Canon(uuid)))
  {
    CanonStrips(uuid);
    var t := Strip(Strip(uuid, ' '), '-');
    if |t| == 32 {
      LowerHyphenate(t);
    }
  }

  ghost predicate HyphenPosition(i: int) {
    i == 8 || i == 13 || i == 18 || i == 23
  }

  /** The 8-4-4-4-12 form, in lower case: hyphens at four places and nowhere else. */
  lemma FormatShape(uuid: string)
    requires FormatUuid(uuid).Formatted?
    ensures var u := FormatUuid(uuid).text;
            && |u| == 36
            && forall i | 0 <= i < 36 ::
                 u[i] != ' ' && !('A' <= u[i] <= 'Z') && (u[i] == '-' <==> i == 8 || i == 13 || i == 18 || i == 23)
  {
    hide Canon;
    FormatIs(uuid);
    CanonPlain(uuid);
    var t := Canon(uuid);
    var u := Hyphenate(t);
    forall i | 0 <= i < 36
      ensures u[i] != ' ' && !('A' <= u[i] <= 'Z') && (u[i] == '-' <==> i == 8 || i == 13 || i == 18 || i == 23)
    {
      HyphenateAt(t, i);
    }
  }

  /** A uuid of 32 characters that needs no change gets its hyphens. */
  lemma FormatPlain(t: string)
    requires |t| == 32
    requires forall i | 0 <= i < 32 :: t[i] != ' ' && t[i] != '-' && !('A' <= t[i] <= 'Z')
    ensures FormatUuid(t) ==
            Formatted(t[0..8] + "-" + t[8..12] + "-" + t[12..16] + "-" + t[16..20] + "-" + t[20..])
  {
    hide FormatUuid, Canon;
    FormatIs(t);
    CanonOfPlain(t);
  }

  lemma HyphenateAt(t: string, i: nat)
    requires |t| == 32 && i < 36
    ensures |Hyphenate(t)| == 36
    ensures Hyphenate(t)[i] == if HyphenPosition(i) then '-'
                               else if i > 23 then t[i - 4] else if i > 18 then t[i - 3]
                               else if i > 13 then t[i - 2] else if i > 8 then t[i - 1] else t[i]
  {
  }

  /** A formatted uuid is left as it is. */
  lemma FormatIdempotent(uuid: string)
    requires FormatUuid(uuid).Formatted?
    ensures FormatUuid(FormatUuid(uuid).text) == FormatUuid(uuid)
  {
    hide Canon, FormatUuid;
    FormatIs(uuid);
    CanonPlain(uuid);
    var t := Canon(uuid);
    CanonHyphenate(t);
    HyphenateAt(t, 0);
    FormatIs(Hyphenate(t));
  }

  /** Two uuids are formatted alike if and only if they differ at most in case, spaces and hyphens. */
  lemma FormatIdentifies(a: string, b: string)
    requires FormatUuid(a).Formatted? && FormatUuid(b).Formatted?
    ensures FormatUuid(a) == FormatUuid(b) <==> Canon(a) == Canon(b)
  {
    hide Canon, FormatUuid;
    FormatIs(a);
    FormatIs(b);
    CanonPlain(a);
    CanonPlain(b);
    CanonHyphenate(Canon(a));
    CanonHyphenate(Canon(b));
  }

  /** A disk with the file name and uuid of its flat backing, if it has one. */
  datatype Disk = Flat(fileName: string, uuid: string) | OtherBacking

  /** `GetUUIDFromVMDKPath`: the uuid of the first disk with the given file name. */
  method GetUUIDFromVMDKPath(disks: seq<Disk>, vmdkPath: string) returns (r: Uuid)
    ensures (forall d | d in disks :: d.Flat? ==> d.fileName != vmdkPath) ==> r == NotFound
    ensures forall k | 0 <= k < |disks| ::
              disks[k].Flat? && disks[k].fileName == vmdkPath
              && (forall i | 0 <= i < k :: disks[i].Flat? ==> disks[i].fileName != vmdkPath)
              ==> r == FormatUuid(disks[k].uuid)
  {
    hide FormatUuid;
    var diskUUID := "";
    var i := 0;
    while i < |disks|
      invariant 0 <= i <= |disks|
      invariant diskUUID == ""
      invariant forall j | 0 <= j < i :: disks[j].Flat? ==> disks[j].fileName != vmdkPath
    {
      if disks[i].Flat? && disks[i].fileName == vmdkPath {
        diskUUID := disks[i].uuid;
        break;
      }
      i := i + 1;
    }
    NoUuid();
    r := FormatUuid(diskUUID);
  }

  lemma NoUuid()
    ensures FormatUuid("") == NotFound
  {
  }

  // ----- the datastore in a path -----

  /** `strings.Replace(s, old, new, 1)`. */
  function ReplaceFirst(s: string, old': string, new': string): string {
    var i := Find(s, old');
    if i < 0 then s else s[..i] + new' + s[i + |old'|..]
  }

  /** The rewriting of one path in `GetDiskPaths`: what stands between the first brackets is looked up
      in the whole path, and its first occurrence is replaced. */
  function RewriteDatastore(path: string, datastore: string): Checked<string> {
    var open, close := Index(path, '['), Index(path, ']');
    if open + 1 <= close then Value(ReplaceFirst(path, path[open + 1..close], datastore)) else Panic
  }

  /** The rewriting panics if and only if there is no closing bracket, or the first one comes before the
      first opening bracket. */
  lemma RewritePanics(path: string, datastore: string)
    ensures RewriteDatastore(path, datastore).Panic? <==>
            ']' !in path || ('[' in path && Index(path, ']') < Index(path, '['))
  {
    hide ReplaceFirst;
  }

  /** Without an opening bracket, everything in front of the closing one is replaced. */
  lemma RewriteUnopened(name: string, rest: string, datastore: string)
    requires '[' !in name && ']' !in name && '[' !in rest
    ensures RewriteDatastore(name + "]" + rest, datastore) == Value(datastore + "]" + rest)
  {
    hide Find, Index;
    var path := name + "]" + rest;
    IndexAfter(name, ']', rest);
    assert '[' !in path && path[0..|name|] == name && path[0..] == path;
    assert name <= path[0..];
    assert path[..0] + datastore == datastore && path[|name|..] == "]" + rest;
    assert datastore + ("]" + rest) == datastore + "]" + rest;
  }

  /** On every path that does not panic: what stands between the first brackets, from `q` to `close`, is
      replaced by the datastore if and only if its first occurrence is there, or the datastore makes up
      for the difference. */
  lemma RewriteExactly(path: string, datastore: string, q: nat, close: nat)
    requires q == Index(path, '[') + 1 && close == Index(path, ']') && q <= close
    ensures var p, m := Find(path, path[q..close]), close - q;
            && 0 <= p <= q
            && (RewriteDatastore(path, datastore) == Value(path[..q] + datastore + path[close..]) <==>
                p == q || datastore + path[p + m..close] == path[p..q] + datastore)
  {
    hide Find, Index, RewriteDatastore, ReplaceFirst;
    NameOccurs(path, q, close);
    var p, m := Find(path, path[q..close]), close - q;
    RewriteIs(path, datastore, q, close, p, m);
    ReplacedAt(path, p, q, m, close, datastore);
  }

  lemma RewriteIs(path: string, datastore: string, q: nat, close: nat, p: nat, m: nat)
    requires q == Index(path, '[') + 1 && close == Index(path, ']') == q + m
    requires p == Find(path, path[q..close]) <= q
    ensures RewriteDatastore(path, datastore) == Value(path[..p] + datastore + path[p + m..])
  {
    hide Find, Index;
  }

  lemma NameOccurs(path: string, q: nat, close: nat)
    requires q <= close <= |path|
    ensures 0 <= Find(path, path[q..close]) <= q
  {
    hide Find;
    assert path[q..][..close - q] == path[q..close];
    assert path[q..close] <= path[q..];
  }

  /** Replacing `m` characters at `p` instead of at `q`. */
  lemma ReplacedAt(path: string, p: nat, q: nat, m: nat, close: nat, d: string)
    requires p <= q && close == q + m <= |path|
    ensures path[..p] + d + path[p + m..] == path[..q] + d + path[close..] <==>
            p == q || d + path[p + m..close] == path[p..q] + d
  {
    var u, v, a, b := path[p..q], path[p + m..close], path[..p], path[close..];
    CutTwice(path, p, q);
    CutTail(path, p + m, close);
    SameMiddle(a, d + v, u + d, b);
    Regroup(a, d, v, b);
    Regroup(a, u, d, b);
  }

  lemma CutTwice(s: string, i: nat, j: nat)
    requires i <= j <= |s|
    ensures s[..i] + s[i..j] == s[..j]
  {
  }

  lemma CutTail(s: string, i: nat, j: nat)
    requires i <= j <= |s|
    ensures s[i..j] + s[j..] == s[i..]
  {
  }

  lemma Regroup(a: string, b: string, c: string, d: string)
    ensures a + (b + c) + d == a + b + (c + d) == a + b + c + d
  {
  }

  lemma SameMiddle(a: string, x: string, y: string, b: string)
    requires |x| == |y|
    ensures a + x + b == a + y + b <==> x == y
  {
    assert (a + x + b)[|a|..|a| + |x|] == x && (a + y + b)[|a|..|a| + |y|] == y;
  }

  /** On paths of the form `front[name]rest`, the name in brackets is replaced by the datastore if and
      only if it does not occur in front of the brackets, as the empty name always does, or is the
      datastore already. */
  lemma RewriteBracketed(front: string, name: string, rest: string, datastore: string)
    requires NoBrackets(front) && NoBrackets(name) && '[' !in datastore
    ensures RewriteDatastore(front + "[" + name + "]" + rest, datastore) == Value(front + "[" + datastore + "]" + rest)
            <==> !Contains(front, name) || datastore == name
  {
    hide Find, Index, ReplaceFirst, Contains, NoBrackets;
    var path, q := front + "[" + name + "]" + rest, |front| + 1;
    BracketsAt(front, name, rest);
    assert path[q..q + |name|] == name;
    FirstOccurrence(front, name, rest);
    var p := Find(path, name);
    if p < q {
      ReplaceEarly(front, name, rest, datastore, p);
      Misplaced(front, name, rest, datastore, p);
    } else {
      ReplaceLate(front, name, rest, datastore);
    }
  }

  lemma BracketsAt(front: string, name: string, rest: string)
    requires NoBrackets(front) && NoBrackets(name)
    ensures var path := front + "[" + name + "]" + rest;
            Index(path, '[') == |front| && Index(path, ']') == |front| + 1 + |name|
  {
    var path := front + "[" + name + "]" + rest;
    assert path == front + ['['] + (name + "]" + rest) == (front + "[" + name) + [']'] + rest;
    IndexAfter(front, '[', name + "]" + rest);
    IndexAfter(front + "[" + name, ']', rest);
  }

  /** The name is found in the brackets, unless it occurs in front of them. */
  lemma FirstOccurrence(front: string, name: string, rest: string)
    requires NoBrackets(front) && NoBrackets(name)
    ensures var p := Find(front + "[" + name + "]" + rest, name);
            && 0 <= p <= |front| + 1
            && (p <= |front| <==> Contains(front, name))
            && (p <= |front| ==> p + |name| <= |front| && front[p..p + |name|] == name)
  {
    hide Find;
    var tail, q := "[" + name + "]" + rest, |front| + 1;
    var path := front + "[" + name + "]" + rest;
    assert path == front + tail && path[q..] == name + "]" + rest;
    assert name <= path[q..];
    var p := Find(path, name);
    if p <= |front| {
      OccursWithin(front, tail, name, p);
    }
    if Contains(front, name) {
      OccursAfter(front, tail, name, Find(front, name));
    }
  }

  lemma OccursWithin(front: string, tail: string, name: string, p: nat)
    requires '[' !in name && "[" <= tail && p <= |front| && name <= (front + tail)[p..]
    ensures p + |name| <= |front| && front[p..p + |name|] == name && Contains(front, name)
  {
    hide Find;
    StopsBefore(front + tail, name, p, |front|);
    assert front[p..p + |name|] == (front + tail)[p..][..|name|];
    assert name <= front[p..];
  }

  lemma StopsBefore(s: string, name: string, p: nat, bracket: nat)
    requires p <= bracket < |s| && s[bracket] == '[' && '[' !in name && name <= s[p..]
    ensures p + |name| <= bracket
  {
    var j := bracket - p;
    assert s[p..][j] == s[bracket];
  }

  lemma OccursAfter(front: string, tail: string, name: string, i: nat)
    requires i <= |front| && name <= front[i..]
    ensures name <= (front + tail)[i..]
  {
    assert (front + tail)[i..] == front[i..] + tail;
  }

  lemma ReplaceEarly(front: string, name: string, rest: string, datastore: string, p: nat)
    requires Find(front + "[" + name + "]" + rest, name) == p && p + |name| <= |front|
    ensures ReplaceFirst(front + "[" + name + "]" + rest, name, datastore) ==
            (front[..p] + datastore + front[p + |name|..]) + ['['] + (name + "]" + rest)
  {
    hide Find;
    var path := front + "[" + name + "]" + rest;
    assert path[..p] == front[..p];
    assert path[p + |name|..] == front[p + |name|..] + ['['] + (name + "]" + rest);
  }

  lemma ReplaceLate(front: string, name: string, rest: string, datastore: string)
    requires Find(front + "[" + name + "]" + rest, name) == |front| + 1
    ensures ReplaceFirst(front + "[" + name + "]" + rest, name, datastore) == front + "[" + datastore + "]" + rest
  {
    hide Find;
    var path, q := front + "[" + name + "]" + rest, |front| + 1;
    assert path[..q] == front + "[" && path[q + |name|..] == "]" + rest;
  }

  /** Replaced in front of the brackets, the name comes out right only if nothing changes. */
  lemma Misplaced(front: string, name: string, rest: string, datastore: string, p: nat)
    requires NoBrackets(front) && '[' !in datastore && p + |name| <= |front| && front[p..p + |name|] == name
    ensures ((front[..p] + datastore + front[p + |name|..]) + ['['] + (name + "]" + rest) ==
             front + "[" + datastore + "]" + rest) <==> datastore == name
  {
    var before, x, y := front[..p] + datastore + front[p + |name|..], name + "]" + rest, datastore + "]" + rest;
    assert front + "[" + datastore + "]" + rest == front + ['['] + y;
    if before + ['['] + x == front + ['['] + y {
      CutUnique(before, front, '[', x, y);
      assert |x| == |y| && x[..|name|] == name && y[..|datastore|] == datastore;
    } else {
      assert datastore == name ==> before == front;
    }
  }
}
