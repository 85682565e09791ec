/** The parts of Go's `strings` and `strconv` packages that the parsers and printers of this
    project rely on, with the round trips between the splitting and the joining direction. */
module Text {

  /** `unicode.IsSpace`. */
  predicate IsSpace(c: char) {
    || '\t' <= c <= '\r' || c == ' ' || c == '\U{85}' || c == '\U{A0}'
    || c == '\U{1680}' || '\U{2000}' <= c <= '\U{200A}' || c == '\U{2028}' || c == '\U{2029}'
    || c == '\U{202F}' || c == '\U{205F}' || c == '\U{3000}'
  }

  ghost predicate Blank(s: string) {
    forall i | 0 <= i < |s| :: IsSpace(s[i])
  }

  ghost predicate NoSpace(s: string) {
    forall i | 0 <= i < |s| :: !IsSpace(s[i])
  }

  /** A maximal run of non-space characters: what `strings.Fields` yields. */
  ghost predicate Word(s: string) {
    s != [] && NoSpace(s)
  }

  ghost predicate NoBrackets(s: string) {
    '[' !in s && ']' !in s
  }

  // ----- searching -----

  /** `strings.IndexByte`: the position of the first `c`, or -1. */
  function Index(s: string, c: char): (i: int)
    ensures -1 <= i < |s|
    ensures i < 0 <==> c !in s
    ensures i >= 0 ==> s[i] == c
    ensures forall j | 0 <= j < |s| && (i < 0 || j < i) :: s[j] != c
  {
    if s == [] then -1
    else if s[0] == c then 0
    else
      var k := Index(s[1..], c);
      assert forall j | 1 <= j < |s| :: s[j] == s[1..][j - 1];
      if k < 0 then -1 else k + 1
  }

  /** `strings.LastIndex` of one character: the position of the last `c`, or -1. */
  function LastIndex(s: string, c: char): (i: int)
    ensures -1 <= i < |s|
    ensures i < 0 <==> c !in s
    ensures i >= 0 ==> s[i] == c
    ensures forall j | i < j < |s| :: s[j] != c
  {
    if s == [] then -1
    else if s[|s| - 1] == c then |s| - 1
    else LastIndex(s[..|s| - 1], c)
  }

  /** `strings.Index`: the position of the first occurrence of `needle`, or -1. */
  function Find(s: string, needle: string): (i: int)
    ensures -1 <= i <= |s|
    ensures i >= 0 ==> needle <= s[i..]
    ensures forall j | 0 <= j <= |s| && (i < 0 || j < i) :: !(needle <= s[j..])
  {
    if needle <= s then
      assert s[0..] == s;
      0
    else if s == [] then -1
    else
      var k := Find(s[1..], needle);
      assert forall j | 1 <= j <= |s| :: s[j..] == s[1..][j - 1..];
      if k < 0 then
        assert s[0..] == s;
        assert forall j | 0 <= j <= |s| :: j == 0 || s[j..] == s[1..][j - 1..];
        -1
      else
        assert forall j | 0 <= j < k + 1 :: j == 0 || s[j..] == s[1..][j - 1..];
        assert s[0..] == s;
        k + 1
  }

  /** `strings.LastIndex`: the position of the last occurrence of `needle`, or -1. */
  function FindLast(s: string, needle: string): (i: int)
    ensures -1 <= i <= |s|
    ensures i >= 0 ==> needle <= s[i..]
    ensures forall j | 0 <= j <= |s| && i < j :: !(needle <= s[j..])
  {
    FindLastFrom(s, needle, |s|)
  }

  function FindLastFrom(s: string, needle: string, from: nat): (i: int)
    requires from <= |s|
    ensures -1 <= i <= from
    ensures i >= 0 ==> needle <= s[i..]
    ensures forall j | 0 <= j <= from && i < j :: !(needle <= s[j..])
  {
    if needle <= s[from..] then from
    else if from == 0 then -1
    else FindLastFrom(s, needle, from - 1)
  }

  /** `strings.Contains`. */
  predicate Contains(s: string, needle: string) {
    Find(s, needle) >= 0
  }

  lemma ContainsAt(s: string, i: nat, needle: string)
    requires i <= |s| && needle <= s[i..]
    ensures Contains(s, needle)
  {
  }

  /** The first separator cuts a text in only one way. */
  lemma CutUnique(a: string, b: string, c: char, x: string, y: string)
    requires c !in a && c !in b
    requires a + [c] + x == b + [c] + y
    ensures a == b && x == y
  {
    var s := a + [c] + x;
    assert s[|a|] == c && s[|b|] == c;
    assert forall i | 0 <= i < |a| :: s[i] == a[i] != c;
    assert forall i | 0 <= i < |b| :: s[i] == b[i] != c;
    assert a == s[..|a|] && x == s[|a| + 1..];
    assert b == s[..|b|] && y == s[|b| + 1..];
  }

  lemma IndexAfter(a: string, c: char, x: string)
    requires c !in a
    ensures Index(a + [c] + x, c) == |a|
  {
    var s := a + [c] + x;
    assert s[|a|] == c;
    assert forall i | 0 <= i < |a| :: s[i] == a[i] != c;
  }

  lemma LastIndexBefore(a: string, c: char, x: string)
    requires c !in x
    ensures LastIndex(a + [c] + x, c) == |a|
  {
    LastIndexIs(a + [c] + x, c, |a|);
  }

  lemma LastIndexIs(s: string, c: char, k: nat)
    requires k < |s| && s[k] == c
    requires forall j | k < j < |s| :: s[j] != c
    ensures LastIndex(s, c) == k
  {
  }

  // ----- Split and Join -----

  /** `strings.Split` at a one-character separator. */
  function Split(s: string, sep: char): (parts: seq<string>)
    ensures |parts| >= 1
    ensures forall p | p in parts :: sep !in p
    decreases |s|
  {
    var i := Index(s, sep);
    if i < 0 then [s] else [s[..i]] + Split(s[i + 1..], sep)
  }

  /** `strings.Join` with a one-character separator. */
  function Join(parts: seq<string>, sep: char): string {
    if parts == [] then []
    else if |parts| == 1 then parts[0]
    else parts[0] + [sep] + Join(parts[1..], sep)
  }

  lemma {:induction false} SplitJoin(parts: seq<string>, sep: char)
    requires parts != []
    requires forall p | p in parts :: sep !in p
    ensures Split(Join(parts, sep), sep) == parts
  {
    var s := Join(parts, sep);
    if |parts| == 1 {
      assert parts == [parts[0]];
    } else {
      var rest := Join(parts[1..], sep);
      IndexAfter(parts[0], sep, rest);
      assert s[..|parts[0]|] == parts[0] && s[|parts[0]| + 1..] == rest;
      SplitJoin(parts[1..], sep);
      assert parts == [parts[0]] + parts[1..];
    }
  }

  // ----- trimming and fields -----

  /** `strings.TrimLeft` with a predicate for the cut set. */
  function TrimLeft(s: string, cut: char -> bool): (t: string)
    ensures |t| <= |s| && t == s[|s| - |t|..]
    ensures t != [] ==> !cut(t[0])
    ensures forall i | 0 <= i < |s| - |t| :: cut(s[i])
  {
    if s == [] || !cut(s[0]) then s
    else
      var t := TrimLeft(s[1..], cut);
      assert s[1..][|s| - 1 - |t|..] == s[|s| - |t|..];
      assert forall i | 0 <= i < |s| - |t| :: i == 0 || s[i] == s[1..][i - 1];
      t
  }

  function TrimRight(s: string, cut: char -> bool): (t: string)
    ensures |t| <= |s| && t == s[..|t|]
    ensures t != [] ==> !cut(t[|t| - 1])
    ensures forall i | |t| <= i < |s| :: cut(s[i])
  {
    if s == [] || !cut(s[|s| - 1]) then s
    else TrimRight(s[..|s| - 1], cut)
  }

  /** `strings.Trim` with a predicate for the cut set. */
  function Trim(s: string, cut: char -> bool): string {
    TrimRight(TrimLeft(s, cut), cut)
  }

  /** `strings.TrimSpace`. */
  function TrimSpace(s: string): string {
    Trim(s, IsSpace)
  }

  /** Trimming strips exactly the cut characters around a core that neither begins nor ends with one. */
  lemma TrimCore(pre: string, core: string, post: string, cut: char -> bool)
    requires forall i | 0 <= i < |pre| :: cut(pre[i])
    requires forall i | 0 <= i < |post| :: cut(post[i])
    requires core != [] && !cut(core[0]) && !cut(core[|core| - 1])
    ensures Trim(pre + core + post, cut) == core
  {
    assert pre + core + post == pre + (core + post);
    TrimLeftCore(pre, core + post, cut);
    TrimRightCore(core, post, cut);
  }

  lemma TrimRightCore(core: string, post: string, cut: char -> bool)
    requires forall i | 0 <= i < |post| :: cut(post[i])
    requires core != [] ==> !cut(core[|core| - 1])
    ensures TrimRight(core + post, cut) == core
  {
    var s := core + post;
    assert core != [] ==> !cut(s[|core| - 1]);
    assert forall i | |core| <= i < |s| :: s[i] == post[i - |core|] && cut(s[i]);
    var t := TrimRight(s, cut);
    assert |t| == |core|;
  }

  lemma TrimLeftCore(pre: string, core: string, cut: char -> bool)
    requires forall i | 0 <= i < |pre| :: cut(pre[i])
    requires core != [] ==> !cut(core[0])
    ensures TrimLeft(pre + core, cut) == core
  {
    var s := pre + core;
    assert core != [] ==> !cut(s[|pre|]);
    assert forall i | 0 <= i < |pre| :: s[i] == pre[i] && cut(s[i]);
    var t := TrimLeft(s, cut);
    assert t != [] ==> t[0] == s[|s| - |t|];
    assert |s| - |t| == |pre|;
  }

  /** The length of the leading run of non-space characters. */
  function WordLength(s: string): (n: nat)
    ensures n <= |s|
    ensures NoSpace(s[..n])
    ensures n < |s| ==> IsSpace(s[n])
  {
    if s == [] || IsSpace(s[0]) then 0
    else
      var n := WordLength(s[1..]);
      assert s[..n + 1] == [s[0]] + s[1..][..n];
      n + 1
  }

  /** `strings.Fields`. */
  function Fields(s: string): (words: seq<string>)
    ensures forall w | w in words :: Word(w)
    decreases |s|
  {
    var t := TrimLeft(s, IsSpace);
    if t == [] then []
    else
      var n := WordLength(t);
      assert n > 0;
      [t[..n]] + Fields(t[n..])
  }

  /** One printed cell of a table row: a word and the white space behind it. */
  datatype Cell = Cell(word: string, gap: string)

  function Words(cells: seq<Cell>): seq<string> {
    seq(|cells|, i requires 0 <= i < |cells| => cells[i].word)
  }

  function PrintCells(cells: seq<Cell>): string {
    if cells == [] then [] else cells[0].word + cells[0].gap + PrintCells(cells[1..])
  }

  /** Words separated by non-empty white space; only the last gap may be empty. */
  ghost predicate WellSpaced(cells: seq<Cell>) {
    forall i | 0 <= i < |cells| ::
      && Word(cells[i].word) && Blank(cells[i].gap)
      && (i < |cells| - 1 ==> cells[i].gap != [])
  }

  lemma WordLengthOf(w: string, rest: string)
    requires NoSpace(w)
    requires rest != [] ==> IsSpace(rest[0])
    ensures WordLength(w + rest) == |w|
  {
    var s := w + rest;
    assert forall i | 0 <= i < |w| :: s[i] == w[i] && !IsSpace(s[i]);
    assert rest != [] ==> IsSpace(s[|w|]);
    var n := WordLength(s);
    assert forall i | 0 <= i < n :: s[i] == s[..n][i] && !IsSpace(s[i]);
  }

  /** `strings.Fields` undoes the printing of a row of cells. */
  lemma {:induction false} FieldsOfCells(lead: string, cells: seq<Cell>)
    requires Blank(lead)
    requires WellSpaced(cells)
    ensures Fields(lead + PrintCells(cells)) == Words(cells)
    decreases |cells|
  {
    if cells == [] {
      FieldsOfBlank(lead);
      assert lead + PrintCells(cells) == lead;
    } else {
      var w, gap, tail := cells[0].word, cells[0].gap, cells[1..];
      var rest := gap + PrintCells(tail);
      FieldsOfCells(gap, tail);
      PrintedRest(cells);
      FieldsStep(lead, w, rest);
      WordsCons(cells);
    }
  }

  lemma FieldsOfBlank(s: string)
    requires Blank(s)
    ensures Fields(s) == []
  {
    TrimLeftCore(s, [], IsSpace);
    assert s + [] == s;
  }

  lemma WordsCons(cells: seq<Cell>)
    requires cells != []
    ensures Words(cells) == [cells[0].word] + Words(cells[1..])
  {
  }

  lemma PrintedRest(cells: seq<Cell>)
    requires WellSpaced(cells) && cells != []
    ensures var rest := cells[0].gap + PrintCells(cells[1..]);
            PrintCells(cells) == cells[0].word + rest && (rest == [] || IsSpace(rest[0]))
  {
    var w, gap, rest := cells[0].word, cells[0].gap, PrintCells(cells[1..]);
    assert w + gap + rest == w + (gap + rest);
    assert gap == [] ==> cells[1..] == [];
  }

  lemma FieldsStep(lead: string, w: string, rest: string)
    requires Blank(lead) && Word(w)
    requires rest != [] ==> IsSpace(rest[0])
    ensures Fields(lead + (w + rest)) == [w] + Fields(rest)
  {
    TrimLeftCore(lead, w + rest, IsSpace);
    WordLengthOf(w, rest);
    assert (w + rest)[..|w|] == w && (w + rest)[|w|..] == rest;
  }

  lemma CutAt(s: string, k: nat)
    requires k <= |s|
    ensures s == s[..k] + s[k..]
  {
  }

  /** A text is its leading white space, and then either nothing or a word and the rest. */
  lemma FirstWord(s: string) returns (lead: string, w: string, rest: string)
    ensures s == lead + (w + rest) && Blank(lead)
    ensures w == [] ==> rest == []
    ensures w != [] ==> Word(w) && (rest == [] || IsSpace(rest[0]))
  {
    hide TrimLeft, WordLength;
    var t := TrimLeft(s, IsSpace);
    var k, n := |s| - |t|, WordLength(t);
    lead, w, rest := s[..k], t[..n], t[n..];
    CutAt(s, k);
    CutAt(t, n);
    assert t != [] ==> n > 0;
  }

  lemma {:induction false} FieldsTrailing(s: string, blank: string)
    requires Blank(blank)
    ensures Fields(s + blank) == Fields(s)
    decreases |s|
  {
    hide Fields;
    var lead, w, rest := FirstWord(s);
    if w == [] {
      assert s == lead;
      FieldsOfBlank(s);
      FieldsOfBlank(s + blank);
    } else {
      FieldsStep(lead, w, rest);
      FieldsTrailing(rest, blank);
      assert s + blank == lead + (w + (rest + blank));
      FieldsStep(lead, w, rest + blank);
    }
  }

  lemma FieldsLeading(blank: string, s: string)
    requires Blank(blank)
    ensures Fields(blank + s) == Fields(s)
  {
    hide Fields;
    var lead, w, rest := FirstWord(s);
    if w == [] {
      assert s == lead;
      FieldsOfBlank(s);
      FieldsOfBlank(blank + s);
    } else {
      FieldsStep(lead, w, rest);
      assert blank + s == (blank + lead) + (w + rest);
      FieldsStep(blank + lead, w, rest);
    }
  }

  /** Trimming white space does not change the fields. */
  lemma FieldsTrimmed(s: string)
    ensures Fields(TrimSpace(s)) == Fields(s)
  {
    hide Fields, TrimLeft, TrimRight;
    var t := TrimLeft(s, IsSpace);
    var u := TrimRight(t, IsSpace);
    CutAt(s, |s| - |t|);
    CutAt(t, |u|);
    FieldsLeading(s[..|s| - |t|], t);
    FieldsTrailing(u, t[|u|..]);
  }

  // ----- decimal printing -----

  function Digit(n: nat): (c: char)
    requires n < 10
    ensures '0' <= c <= '9'
  {
    "0123456789"[n]
  }

  /** `strconv.Itoa` of a non-negative number. */
  function ItoaNat(n: nat): (s: string)
    ensures s != []
    ensures forall i | 0 <= i < |s| :: '0' <= s[i] <= '9'
  {
    if n < 10 then [Digit(n)] else ItoaNat(n / 10) + [Digit(n % 10)]
  }

  /** `strconv.Itoa`. */
  function Itoa(n: int): (s: string)
    ensures s != []
    ensures forall i | 0 <= i < |s| :: s[i] == '-' || '0' <= s[i] <= '9'
  {
    if n < 0 then "-" + ItoaNat(-n) else ItoaNat(n)
  }

  /** The number that a row of decimal digits stands for. */
  function Decimal(s: string): int {
    if s == [] then 0 else 10 * Decimal(s[..|s| - 1]) + (s[|s| - 1] as int - '0' as int)
  }

  lemma {:induction false} DecimalOfItoa(n: nat)
    ensures Decimal(ItoaNat(n)) == n
  {
    var s := ItoaNat(n);
    if n < 10 {
      assert s[..0] == [];
    } else {
      DecimalOfItoa(n / 10);
      assert s[..|s| - 1] == ItoaNat(n / 10);
    }
  }

  lemma DigitInjective(m: nat, n: nat)
    requires m < 10 && n < 10 && Digit(m) == Digit(n)
    ensures m == n
  {
  }

  lemma {:induction false} ItoaNatInjective(m: nat, n: nat)
    requires ItoaNat(m) == ItoaNat(n)
    ensures m == n
    decreases m
  {
    var s := ItoaNat(m);
    if m < 10 && n < 10 {
      DigitInjective(m, n);
    } else if m >= 10 && n >= 10 {
      assert ItoaNat(m / 10) == s[..|s| - 1] && ItoaNat(n / 10) == s[..|s| - 1];
      assert s[|s| - 1] == Digit(m % 10) == Digit(n % 10);
      ItoaNatInjective(m / 10, n / 10);
      DigitInjective(m % 10, n % 10);
    }
  }

  /** Two integers print alike only if they are equal. */
  lemma ItoaInjective(m: int, n: int)
    requires Itoa(m) == Itoa(n)
    ensures m == n
  {
    hide ItoaNat;
    assert m < 0 <==> Itoa(m)[0] == '-';
    assert n < 0 <==> Itoa(n)[0] == '-';
    if m < 0 {
      assert Itoa(m)[1..] == ItoaNat(-m) && Itoa(n)[1..] == ItoaNat(-n);
      ItoaNatInjective(-m, -n);
    } else {
      ItoaNatInjective(m, n);
    }
  }
}
