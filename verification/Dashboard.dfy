/** The dashboard's stack of open test cases. A test case is ended by removing its id from a slice,
    which shifts the slice's backing array; ending a whole test set ranges over that same array. */
module Dashboard {
  import opened Wrappers

  /** A Go slice of ids: the backing array and the number of elements in use. */
  datatype Slice = Slice(data: seq<int>, len: nat) {
    ghost predicate Valid() {
      len <= |data|
    }

    function Ids(): seq<int>
      requires len <= |data|
    {
      data[..len]
    }
  }

  function IndexOf(s: seq<int>, id: int): (i: int)
    ensures -1 <= i < |s|
    ensures i < 0 <==> id !in s
    ensures i >= 0 ==> s[i] == id
    ensures forall j | 0 <= j < i :: s[j] != id
  {
    if s == [] then -1
    else if s[0] == id then 0
    else
      var k := IndexOf(s[1..], id);
      if k < 0 then -1 else k + 1
  }

  /** `append(s[:i], s[i+1:]...)`: the tail moves down by one and the old last element stays behind
      it in the array. */
  function RemoveAt(s: Slice, i: nat): (r: Slice)
    requires s.Valid() && i < s.len
    ensures r.Valid() && |r.data| == |s.data| && r.len == s.len - 1
  {
    Slice(s.data[..i] + s.data[i + 1..s.len] + s.data[s.len - 1..], s.len - 1)
  }

  lemma RemoveAtElement(s: Slice, i: nat, j: nat)
    requires s.Valid() && i < s.len && j < |s.data|
    ensures RemoveAt(s, i).data[j] == if i <= j < s.len - 1 then s.data[j + 1] else s.data[j]
  {
  }

  /** Removes the first occurrence of an id, if there is one. */
  function Remove(s: Slice, id: int): (r: Slice)
    requires s.Valid()
    ensures r.Valid() && |r.data| == |s.data| && r.len <= s.len
  {
    var i := IndexOf(s.Ids(), id);
    if i < 0 then s else RemoveAt(s, i)
  }

  /** A list less the first occurrence of an id. */
  function Without(ids: seq<int>, id: int): seq<int> {
    var i := IndexOf(ids, id);
    if i < 0 then ids else ids[..i] + ids[i + 1..]
  }

  /** On the ids in use this is plain removal from a list. */
  lemma RemoveIds(s: Slice, id: int)
    requires s.Valid()
    ensures Remove(s, id).Ids() == Without(s.Ids(), id)
  {
  }

  ghost predicate AllFrom(ids: seq<int>, i: nat, id: int) {
    forall j | i <= j < |ids| :: ids[j] == id
  }

  /** Ending a test case undoes beginning it if and only if nothing but its id stands behind the first
      occurrence of that id; so always, if the id was not on the stack before. */
  lemma EndUndoesBegin(s: Slice, id: int)
    requires s.Valid() && s.len > 0 && s.Ids()[s.len - 1] == id
    ensures Remove(s, id).Ids() == s.Ids()[..s.len - 1] <==> AllFrom(s.Ids(), IndexOf(s.Ids(), id), id)
    ensures id !in s.Ids()[..s.len - 1] ==> Remove(s, id).Ids() == s.Ids()[..s.len - 1]
  {
    hide AllFrom, Remove;
    var ids, i := s.Ids(), IndexOf(s.Ids(), id);
    RemoveIds(s, id);
    DropIsCut(ids, i);
    if id !in ids[..s.len - 1] {
      LastOccurrence(ids, i);
    }
  }

  lemma LastOccurrence(ids: seq<int>, i: nat)
    requires i < |ids| && ids[i] == ids[|ids| - 1] && ids[|ids| - 1] !in ids[..|ids| - 1]
    ensures AllFrom(ids, i, ids[i])
  {
    var n := |ids| - 1;
    forall j | 0 <= j < n ensures ids[j] != ids[n] {
      assert ids[..n][j] == ids[j];
    }
  }

  lemma DropIsCut(ids: seq<int>, i: nat)
    requires i < |ids|
    ensures ids[..i] + ids[i + 1..] == ids[..|ids| - 1] <==> AllFrom(ids, i, ids[i])
  {
    var n := |ids| - 1;
    assert AllFrom(ids, i, ids[i]) ==> ids[..i] + ids[i + 1..] == ids[..n];
    if ids[..i] + ids[i + 1..] == ids[..n] {
      forall j | i <= j < n ensures ids[j + 1] == ids[j] {
        assert ids[j + 1] == (ids[..i] + ids[i + 1..])[j] == ids[..n][j];
      }
      AllEqual(ids, i);
    }
  }

  lemma {:induction false} AllEqual(ids: seq<int>, i: nat)
    requires i < |ids| && forall j | i <= j < |ids| - 1 :: ids[j + 1] == ids[j]
    ensures AllFrom(ids, i, ids[i])
    decreases |ids| - i
  {
    if i + 1 < |ids| {
      AllEqual(ids, i + 1);
    }
  }

  // ----- ending a test set -----

  /** The ids the server is told to end while the loop goes over positions `i` to `n` of the array
      that was the stack when the loop began. Id 0 is passed over. */
  function Drain(s: Slice, i: nat, n: nat): seq<int>
    requires s.Valid() && i <= n <= |s.data|
    decreases n - i
  {
    if i == n then []
    else if s.data[i] == 0 then Drain(s, i + 1, n)
    else [s.data[i]] + Drain(Remove(s, s.data[i]), i + 1, n)
  }

  function Min(a: int, b: int): int {
    if a <= b then a else b
  }

  /** Which of the original `n` ids the array holds at position `j` after `i` rounds. */
  function Source(n: nat, i: nat, j: nat): int {
    Min(if j < i then 2 * j + 1 else i + j, n - 1)
  }

  /** Equal ids stand next to each other. */
  ghost predicate Grouped(ids: seq<int>) {
    forall i, j, k | 0 <= i < j < k < |ids| :: ids[i] == ids[k] ==> ids[i] == ids[j]
  }

  /** The state before round `i` when the stack held the ids `ids`. */
  ghost predicate Round(s: Slice, ids: seq<int>, i: nat) {
    && s.Valid() && |ids| <= |s.data|
    && (forall j: nat | j < |ids| :: s.data[j] == ids[Source(|ids|, i, j)])
    && (if 2 * i <= |ids| then s.len == |ids| - i else s.len <= |ids|)
  }

  /** It makes no difference which one of adjacent equal ids is removed. */
  lemma RemoveAlike(s: Slice, p: nat, i: nat)
    requires s.Valid() && p <= i < s.len
    requires forall j | p <= j <= i :: s.data[j] == s.data[i]
    ensures RemoveAt(s, p) == RemoveAt(s, i)
  {
    hide RemoveAt;
    var a, b := RemoveAt(s, p), RemoveAt(s, i);
    forall j: nat | j < |s.data| ensures a.data[j] == b.data[j] {
      RemoveAtElement(s, p, j);
      RemoveAtElement(s, i, j);
    }
    assert a.data == b.data;
  }

  /** While 2i is a position of the stack, round `i` removes the id at array position `i`. */
  lemma RoundRemoves(s: Slice, ids: seq<int>, i: nat)
    requires Grouped(ids) && Round(s, ids, i) && 2 * i < |ids|
    ensures Round(Remove(s, s.data[i]), ids, i + 1)
  {
    hide RemoveAt, IndexOf;
    var n, id := |ids|, s.data[i];
    assert s.Ids()[i] == id == ids[2 * i];
    var p := IndexOf(s.Ids(), id);
    assert p <= i && s.data[p] == id;
    forall j | p <= j <= i ensures s.data[j] == id {
      Between(ids, Source(n, i, p), Source(n, i, j), 2 * i);
    }
    RemoveAlike(s, p, i);
    RoundShifts(s, ids, i);
  }

  lemma Between(ids: seq<int>, a: nat, b: nat, c: nat)
    requires Grouped(ids) && a <= b <= c < |ids| && ids[a] == ids[c]
    ensures ids[b] == ids[c]
  {
  }

  lemma RoundShifts(s: Slice, ids: seq<int>, i: nat)
    requires Round(s, ids, i) && 2 * i < |ids|
    ensures Round(RemoveAt(s, i), ids, i + 1)
  {
    hide RemoveAt;
    var n, s' := |ids|, RemoveAt(s, i);
    forall j: nat | j < n ensures s'.data[j] == ids[Source(n, i + 1, j)] {
      RemoveAtElement(s, i, j);
      var from := if i <= j < s.len - 1 then j + 1 else j;
      assert Source(n, i, from) == Source(n, i + 1, j);
    }
  }

  /** From then on the array holds the last id wherever the loop looks, and no longer changes. */
  lemma RoundRepeats(s: Slice, ids: seq<int>, i: nat)
    requires Grouped(ids) && Round(s, ids, i) && |ids| <= 2 * i && i < |ids|
    ensures Round(Remove(s, s.data[i]), ids, i + 1)
  {
    hide RemoveAt, IndexOf;
    var n, id := |ids|, s.data[i];
    assert id == ids[n - 1];
    forall j: nat | j < n ensures Source(n, i, j) == Source(n, i + 1, j) {
    }
    var p := IndexOf(s.Ids(), id);
    if p >= 0 {
      var s' := RemoveAt(s, p);
      LastFrom(s, ids, i, p);
      forall j: nat | j < n ensures s'.data[j] == s.data[j] {
        RemoveAtElement(s, p, j);
      }
    }
  }

  lemma LastFrom(s: Slice, ids: seq<int>, i: nat, p: nat)
    requires Grouped(ids) && Round(s, ids, i)
    requires p < |ids| && s.data[p] == ids[|ids| - 1]
    ensures forall j: nat | p <= j < |ids| :: s.data[j] == ids[|ids| - 1]
  {
    var n := |ids|;
    forall j: nat | p <= j < n ensures s.data[j] == ids[n - 1] {
      Between(ids, Source(n, i, p), Source(n, i, j), n - 1);
    }
  }

  lemma {:induction false} DrainFrom(s: Slice, ids: seq<int>, i: nat)
    requires Grouped(ids) && 0 !in ids && Round(s, ids, i) && i <= |ids|
    ensures |Drain(s, i, |ids|)| == |ids| - i
    ensures forall k: nat | i <= k < |ids| :: Drain(s, i, |ids|)[k - i] == ids[Min(2 * k, |ids| - 1)]
    decreases |ids| - i
  {
    hide Remove;
    var n := |ids|;
    if i < n {
      var id := s.data[i];
      assert id == ids[Min(2 * i, n - 1)] && id in ids;
      if 2 * i < n {
        RoundRemoves(s, ids, i);
      } else {
        RoundRepeats(s, ids, i);
      }
      DrainFrom(Remove(s, id), ids, i + 1);
      var tail := Drain(Remove(s, id), i + 1, n);
      DrainStep(s, i, n);
      forall k: nat | i <= k < n ensures ([id] + tail)[k - i] == ids[Min(2 * k, n - 1)] {
        assert k > i ==> ([id] + tail)[k - i] == tail[k - (i + 1)];
      }
    }
  }

  lemma DrainStep(s: Slice, i: nat, n: nat)
    requires s.Valid() && i < n <= |s.data|
    ensures Drain(s, i, n) == if s.data[i] == 0 then Drain(s, i + 1, n)
                              else [s.data[i]] + Drain(Remove(s, s.data[i]), i + 1, n)
  {
  }

  // ----- ids of 0 -----

  /** The number of zeros a stack begins with. */
  function Zeros(ids: seq<int>): (z: nat)
    ensures z <= |ids|
    ensures forall i | 0 <= i < z :: ids[i] == 0
    ensures z < |ids| ==> ids[z] != 0
  {
    if ids == [] || ids[0] != 0 then 0
    else
      assert forall i | 1 <= i < |ids| :: ids[i] == ids[1..][i - 1];
      1 + Zeros(ids[1..])
  }

  /** Zeros come first. */
  ghost predicate ZerosFirst(ids: seq<int>) {
    forall i, j | 0 <= i < j < |ids| :: ids[j] == 0 ==> ids[i] == 0
  }

  lemma {:induction false} DrainSkips(s: Slice, i: nat, z: nat, n: nat)
    requires s.Valid() && i <= z <= n <= |s.data| && forall j | i <= j < z :: s.data[j] == 0
    ensures Drain(s, i, n) == Drain(s, z, n)
    decreases z - i
  {
    if i < z {
      DrainSkips(s, i + 1, z, n);
    }
  }

  function Behind(front: seq<int>, s: Slice): Slice {
    Slice(front + s.data, |front| + s.len)
  }

  lemma RemoveBehind(front: seq<int>, s: Slice, id: int)
    requires s.Valid() && id !in front
    ensures Behind(front, s).Valid() && Remove(Behind(front, s), id) == Behind(front, Remove(s, id))
  {
    hide RemoveAt, IndexOf;
    var t, k := Behind(front, s), IndexOf(s.Ids(), id);
    assert t.Ids() == front + s.Ids();
    var i := IndexOf(t.Ids(), id);
    if k >= 0 {
      assert t.Ids()[|front| + k] == id;
      assert i >= |front| && s.Ids()[i - |front|] == id;
      assert i == |front| + k;
      RemoveAtBehind(front, s, k);
    }
  }

  lemma RemoveAtBehind(front: seq<int>, s: Slice, k: nat)
    requires s.Valid() && k < s.len
    ensures RemoveAt(Behind(front, s), |front| + k) == Behind(front, RemoveAt(s, k))
  {
    hide RemoveAt;
    var a, b := RemoveAt(Behind(front, s), |front| + k), Behind(front, RemoveAt(s, k));
    forall j: nat | j < |a.data| ensures a.data[j] == b.data[j] {
      RemoveAtElement(Behind(front, s), |front| + k, j);
      if j >= |front| {
        RemoveAtElement(s, k, j - |front|);
      }
    }
    assert a.data == b.data;
  }

  lemma {:induction false} DrainBehind(front: seq<int>, s: Slice, i: nat, n: nat)
    requires s.Valid() && i <= n <= |s.data| && forall x | x in front :: x == 0
    ensures Behind(front, s).Valid() && Drain(Behind(front, s), |front| + i, |front| + n) == Drain(s, i, n)
    decreases n - i
  {
    hide Remove;
    var t := Behind(front, s);
    if i < n {
      var id := s.data[i];
      assert t.data[|front| + i] == id;
      if id == 0 {
        DrainBehind(front, s, i + 1, n);
      } else {
        RemoveBehind(front, s, id);
        DrainBehind(front, Remove(s, id), i + 1, n);
      }
    }
  }

  // ----- the calls made for a test set -----

  /** The calls for a stack of `n` ids other than 0: call number `i` goes to id number min(2i, n - 1). */
  function Calls(ids: seq<int>): (calls: seq<int>)
    ensures |calls| == |ids|
    ensures forall i: nat | i < |ids| :: calls[i] == ids[Min(2 * i, |ids| - 1)]
  {
    seq(|ids|, i requires 0 <= i < |ids| => ids[Min(2 * i, |ids| - 1)])
  }

  function Open(ids: seq<int>): seq<int> {
    ids[Zeros(ids)..]
  }

  /** Ending a test set passes over the zeros and makes one call for each of the other ids. */
  lemma DrainTrace(s: Slice)
    requires s.Valid() && Grouped(s.Ids()) && ZerosFirst(s.Ids())
    ensures Drain(s, 0, s.len) == Calls(Open(s.Ids()))
  {
    hide Drain, Grouped, ZerosFirst, Zeros, Open, Calls;
    var t := DrainOpen(s);
    OpenGrouped(s.Ids());
    DrainNonZero(t);
  }

  lemma DrainOpen(s: Slice) returns (t: Slice)
    requires s.Valid()
    ensures t.Valid() && t.Ids() == Open(s.Ids()) && Drain(s, 0, s.len) == Drain(t, 0, t.len)
  {
    hide Drain, Behind;
    var z := Zeros(s.Ids());
    var front := s.data[..z];
    t := Slice(s.data[z..], s.len - z);
    assert forall j | 0 <= j < z :: s.data[j] == s.Ids()[j];
    DrainSkips(s, 0, z, s.len);
    BehindCut(s, z);
    DrainBehind(front, t, 0, s.len - z);
    assert t.Ids() == s.Ids()[z..];
  }

  lemma BehindCut(s: Slice, z: nat)
    requires s.Valid() && z <= s.len
    ensures Behind(s.data[..z], Slice(s.data[z..], s.len - z)) == s
  {
    assert s.data[..z] + s.data[z..] == s.data;
  }

  lemma OpenGrouped(ids: seq<int>)
    requires Grouped(ids) && ZerosFirst(ids)
    ensures Grouped(Open(ids)) && 0 !in Open(ids)
  {
    var z, rest := Zeros(ids), Open(ids);
    forall i, j, k | 0 <= i < j < k < |rest| && rest[i] == rest[k] ensures rest[i] == rest[j] {
      assert ids[z + i] == ids[z + k] && ids[z + j] == rest[j];
    }
    forall i | 0 <= i < |rest| ensures rest[i] != 0 {
      assert ids[z] != 0 && ids[z + i] == rest[i];
    }
  }

  lemma DrainNonZero(s: Slice)
    requires s.Valid() && Grouped(s.Ids()) && 0 !in s.Ids()
    ensures Drain(s, 0, s.len) == Calls(s.Ids())
  {
    hide Drain;
    assert Round(s, s.Ids(), 0);
    DrainFrom(s, s.Ids(), 0);
    var n, trace := s.len, Drain(s, 0, s.len);
    forall i: nat | i < n ensures trace[i] == Calls(s.Ids())[i] {
      assert trace[i - 0] == s.Ids()[Min(2 * i, n - 1)];
    }
  }

  /** So id number `k` is ended if and only if `k` is even or the last, or the id was pushed twice. */
  lemma DrainReaches(s: Slice, k: nat)
    requires s.Valid() && Grouped(s.Ids()) && ZerosFirst(s.Ids()) && k < |Open(s.Ids())|
    ensures var ids := Open(s.Ids());
            ids[k] in Drain(s, 0, s.len) <==>
            || k % 2 == 0 || k == |ids| - 1
            || (k > 0 && ids[k - 1] == ids[k]) || (k + 1 < |ids| && ids[k + 1] == ids[k])
  {
    hide Drain, Open;
    DrainTrace(s);
    OpenGrouped(s.Ids());
    CallsReach(Open(s.Ids()), k);
  }

  lemma CallsReach(ids: seq<int>, k: nat)
    requires Grouped(ids) && k < |ids|
    ensures ids[k] in Calls(ids) <==>
            || k % 2 == 0 || k == |ids| - 1
            || (k > 0 && ids[k - 1] == ids[k]) || (k + 1 < |ids| && ids[k + 1] == ids[k])
  {
    hide Calls;
    var n, calls := |ids|, Calls(ids);
    assert k % 2 == 0 ==> calls[k / 2] == ids[k];
    assert calls[n - 1] == ids[n - 1];
    assert k % 2 == 1 ==> calls[(k - 1) / 2] == ids[k - 1];
    assert k % 2 == 1 && k + 1 < n ==> calls[(k + 1) / 2] == ids[k + 1];
    if ids[k] in calls {
      var i: nat :| i < n && calls[i] == ids[k];
      var j := Min(2 * i, n - 1);
      if j < k {
        Between(ids, j, k - 1, k);
      } else if k < j {
        Between(ids, k, k + 1, j);
      }
    }
  }

  /** Every open test case is ended exactly once if and only if at most two are open, or all but the
      first have one id. */
  lemma DrainExactlyOnce(s: Slice)
    requires s.Valid() && Grouped(s.Ids()) && ZerosFirst(s.Ids())
    ensures var ids := Open(s.Ids());
            multiset(Drain(s, 0, s.len)) == multiset(ids) <==> |ids| <= 2 || AllFrom(ids, 1, ids[1])
  {
    hide Drain, Open, AllFrom;
    DrainTrace(s);
    OpenGrouped(s.Ids());
    CallsExactlyOnce(Open(s.Ids()));
  }

  lemma CallsExactlyOnce(ids: seq<int>)
    requires Grouped(ids)
    ensures multiset(Calls(ids)) == multiset(ids) <==> |ids| <= 2 || AllFrom(ids, 1, ids[1])
  {
    hide Calls;
    var n, calls := |ids|, Calls(ids);
    if |ids| <= 2 || AllFrom(ids, 1, ids[1]) {
      assert calls == ids;
    } else {
      var last := ids[n - 1];
      var g := IndexOf(ids, last);
      forall j | g <= j < n ensures ids[j] == last {
        Between(ids, g, j, n - 1);
      }
      assert g > 1;
      CountTail(ids, last, g);
      CountTail(calls, last, (g + 1) / 2);
    }
  }

  lemma {:induction false} CountTail(s: seq<int>, x: int, h: nat)
    requires h <= |s| && (forall i | 0 <= i < h :: s[i] != x) && forall i | h <= i < |s| :: s[i] == x
    ensures multiset(s)[x] == |s| - h
  {
    if s != [] {
      var n := |s| - 1;
      assert s == s[..n] + [s[n]];
      CountTail(s[..n], x, Min(h, n));
    }
  }

  /** With no id pushed twice, that is at most two. */
  lemma DistinctExactlyOnce(s: Slice)
    requires s.Valid() && 0 !in s.Ids() && forall i, j | 0 <= i < j < s.len :: s.Ids()[i] != s.Ids()[j]
    ensures multiset(Drain(s, 0, s.len)) == multiset(s.Ids()) <==> s.len <= 2
  {
    hide Drain;
    var ids := s.Ids();
    assert Open(ids) == ids;
    DrainExactlyOnce(s);
    assert s.len > 2 ==> ids[1] != ids[2];
  }

  // ----- the stacks of every run -----

  /** Beginning a test case with the id the server created, if it did; ending one; and ending the test
      set, which leaves some id as the current one. */
  datatype Op = Begin(created: Option<int>) | End | EndSet(current: int)

  datatype State = State(ids: seq<int>, current: int)

  function Step(st: State, op: Op): State {
    match op
    case Begin(created) =>
      var id := if created.Some? then created.value else st.current;
      State(st.ids + [id], id)
    case End => if st.current == 0 then st else State(Without(st.ids, st.current), st.current)
    case EndSet(current) => State([], current)
  }

  function Run(ops: seq<Op>): State {
    if ops == [] then State([], 0) else Step(Run(ops[..|ops| - 1]), ops[|ops| - 1])
  }

  /** The server hands out ids other than 0 that are not on the stack. */
  ghost predicate FreshIds(ops: seq<Op>) {
    forall i | 0 <= i < |ops| && ops[i].Begin? && ops[i].created.Some? ::
      ops[i].created.value != 0 && ops[i].created.value !in Run(ops[..i]).ids
  }

  /** Equal ids are adjacent, zeros come first, and the current id is last. */
  ghost predicate Orderly(st: State) {
    && Grouped(st.ids) && ZerosFirst(st.ids)
    && (forall i, j | 0 <= i < j < |st.ids| :: st.ids[i] == st.current ==> st.ids[j] == st.current)
    && (st.current == 0 ==> forall i | 0 <= i < |st.ids| :: st.ids[i] == 0)
  }

  /** So after every run, and in spite of failed creations, the results above apply to the stack. */
  lemma {:induction false} RunOrderly(ops: seq<Op>)
    requires FreshIds(ops)
    ensures Orderly(Run(ops))
  {
    hide Orderly, Without;
    if ops == [] {
      NewOrderly(0);
    } else {
      var n := |ops| - 1;
      var before, op := Run(ops[..n]), ops[n];
      assert FreshIds(ops[..n]) by {
        forall i | 0 <= i < n ensures ops[..n][..i] == ops[..i] {
        }
      }
      RunOrderly(ops[..n]);
      match op
      case Begin(created) =>
        PushOrderly(before, if created.Some? then created.value else before.current);
      case End => PopOrderly(before);
      case EndSet(current) => NewOrderly(current);
    }
  }

  lemma RunTrace(ops: seq<Op>, s: Slice)
    requires FreshIds(ops) && s.Valid() && s.Ids() == Run(ops).ids
    ensures Drain(s, 0, s.len) == Calls(Open(s.Ids()))
  {
    hide Drain, Calls, Open, Run, FreshIds;
    RunOrderly(ops);
    DrainTrace(s);
  }

  lemma RunNext(ops: seq<Op>, op: Op)
    ensures Run(ops + [op]) == Step(Run(ops), op)
  {
    assert (ops + [op])[..|ops|] == ops;
  }

  /** The stack of a run holds what was begun: a beginning pushes the created id, or the current one
      again, and makes it current. */
  lemma RunBegins(ops: seq<Op>, created: Option<int>)
    ensures var before, after := Run(ops), Run(ops + [Begin(created)]);
            && after.current == (if created.Some? then created.value else before.current)
            && after.ids == before.ids + [after.current]
  {
    hide Run;
    RunNext(ops, Begin(created));
  }

  /** And an ending takes the last one off, if it is the current one, and nothing otherwise: the one
      pushed last is the first to go. */
  lemma RunEnds(ops: seq<Op>)
    requires FreshIds(ops)
    ensures var before, after := Run(ops), Run(ops + [End]);
            && after.current == before.current
            && after.ids == (if before.ids != [] && before.ids[|before.ids| - 1] == before.current != 0
                             then before.ids[..|before.ids| - 1] else before.ids)
  {
    hide Run, FreshIds, Grouped, ZerosFirst;
    var st := Run(ops);
    RunNext(ops, End);
    RunOrderly(ops);
    var i := IndexOf(st.ids, st.current);
    if i >= 0 {
      DropIsCut(st.ids, i);
    }
  }

  /** So test cases begun one after another, and none ended, are all on the stack, in order. */
  lemma {:induction false} AllBegun(ids: seq<int>)
    ensures Run(Begins(ids)).ids == ids
  {
    hide Run;
    if ids == [] {
      NothingBegun();
    } else {
      var n := |ids| - 1;
      AllBegun(ids[..n]);
      assert Begins(ids) == Begins(ids[..n]) + [Begin(Some(ids[n]))];
      RunBegins(Begins(ids[..n]), Some(ids[n]));
      assert ids == ids[..n] + [ids[n]];
    }
  }

  function Begins(ids: seq<int>): seq<Op> {
    seq(|ids|, i requires 0 <= i < |ids| => Begin(Some(ids[i])))
  }

  lemma NothingBegun()
    ensures Run([]).ids == [] && Begins([]) == []
  {
  }

  lemma NewOrderly(current: int)
    ensures Orderly(State([], current))
  {
  }

  lemma PushOrderly(st: State, id: int)
    requires Orderly(st) && (id == st.current || (id != 0 && id !in st.ids))
    ensures Orderly(State(st.ids + [id], id))
  {
  }

  lemma PopOrderly(st: State)
    requires Orderly(st)
    ensures Orderly(State(Without(st.ids, st.current), st.current))
  {
    hide IndexOf;
    var i := IndexOf(st.ids, st.current);
    if i >= 0 {
      DropIsCut(st.ids, i);
      assert Without(st.ids, st.current) == st.ids[..|st.ids| - 1];
    }
  }

  // ----- the dashboard object -----

  class Board {
    var isEnabled: bool
    var testSetID: int
    var testcaseID: int
    var stack: array<int>  // backing array of the stack of open test cases
    var len: nat
    var ended: seq<int>    // ids of the end calls sent to the server

    ghost predicate Valid()
      reads this
    {
      len <= stack.Length
    }

    ghost function Contents(): (s: Slice)
      requires Valid()
      reads this, stack
      ensures s.Valid()
    {
      Slice(stack[..], len)
    }

    /** The stack and the current id, as a state of a run. */
    ghost function Now(): State
      requires Valid()
      reads this, stack
    {
      State(Contents().Ids(), testcaseID)
    }

    constructor (isEnabled: bool, testSetID: int)
      ensures Valid() && fresh(stack) && Now() == Run([]) && ended == []
      ensures this.isEnabled == isEnabled && this.testSetID == testSetID
    {
      this.isEnabled, this.testSetID, this.testcaseID := isEnabled, testSetID, 0;
      stack := new int[0];
      len, ended := 0, [];
    }

    /** Records the id the server created; if there was no answer, the id of the case before is
        pushed again. */
    method TestCaseBegin(created: Option<int>)
      requires Valid()
      modifies this, stack
      ensures Valid() && (stack == old(stack) || fresh(stack))
      ensures isEnabled == old(isEnabled) && testSetID == old(testSetID) && ended == old(ended)
      ensures if isEnabled && testSetID != 0 then
                && testcaseID == (if created.Some? then created.value else old(testcaseID))
                && Contents().Ids() == old(Contents().Ids()) + [testcaseID]
              else testcaseID == old(testcaseID) && Contents().Ids() == old(Contents().Ids())
      ensures Now() == if isEnabled && testSetID != 0 then Step(old(Now()), Begin(created)) else old(Now())
    {
      if !isEnabled || testSetID == 0 {
        return;
      }
      if created.Some? {
        testcaseID := created.value;
      }
      if len == stack.Length {
        var bigger := new int[2 * len + 1];
        forall i | 0 <= i < len {
          bigger[i] := stack[i];
        }
        assert bigger[..len] == stack[..len];
        stack := bigger;
      }
      stack[len] := testcaseID;
      len := len + 1;
    }

    /** `removeTestCaseFromStack`. */
    method RemoveTestCase(id: int)
      requires Valid()
      modifies this`len, stack
      ensures Valid() && Contents() == Remove(old(Contents()), id)
    {
      hide IndexOf, RemoveAt;
      ghost var before := Contents();
      var i := 0;
      while i < len && stack[i] != id
        invariant 0 <= i <= len
        invariant forall j | 0 <= j < i :: before.Ids()[j] != id
      {
        i := i + 1;
      }
      if i < len {
        assert before.Ids()[i] == id;
        ShiftDown(i);
      }
    }

    /** `append(stack[:i], stack[i+1:]...)`, in place. */
    method ShiftDown(i: nat)
      requires Valid() && i < len
      modifies this`len, stack
      ensures Valid() && Contents() == RemoveAt(old(Contents()), i)
    {
      hide RemoveAt;
      ghost var before := Contents();
      var j := i;
      while j < len - 1
        modifies stack
        invariant i <= j <= len - 1
        invariant forall k | i <= k < j :: stack[k] == before.data[k + 1]
        invariant forall k | 0 <= k < i || j <= k < stack.Length :: stack[k] == before.data[k]
      {
        stack[j] := stack[j + 1];
        j := j + 1;
      }
      len := len - 1;
      forall k | 0 <= k < stack.Length ensures stack[k] == RemoveAt(before, i).data[k] {
        RemoveAtElement(before, i, k);
      }
    }

    /** Ends the current test case; its id stays current. */
    method TestCaseEnd()
      requires Valid()
      modifies this`len, this`ended, stack
      ensures Valid()
      ensures if isEnabled && testcaseID != 0 then
                ended == old(ended) + [testcaseID] && Contents() == Remove(old(Contents()), testcaseID)
              else ended == old(ended) && Contents() == old(Contents())
      ensures Now() == if isEnabled then Step(old(Now()), End) else old(Now())
    {
      hide Remove, Without;
      RemoveIds(Contents(), testcaseID);
      if isEnabled && testcaseID != 0 {
        ended := ended + [testcaseID];
        RemoveTestCase(testcaseID);
      }
    }

    /** The loop of `TestSetEnd`: it ranges over the array that each round shifts. */
    method EndAll()
      requires Valid() && isEnabled
      modifies this`len, this`ended, this`testcaseID, stack
      ensures Valid()
      ensures ended == old(ended) + old(Drain(Contents(), 0, len))
    {
      hide Remove, Drain, Step, Without, IndexOf;
      var range, n := stack, len;
      ghost var goal := ended + Drain(Contents(), 0, n);
      var i := 0;
      while i < n
        invariant 0 <= i <= n <= range.Length
        invariant Valid()
        invariant goal == ended + Drain(Contents(), i, n)
      {
        DrainStep(Contents(), i, n);
        testcaseID := range[i];
        TestCaseEnd();
        i := i + 1;
      }
      DrainDone(Contents(), n);
    }

    /** Ends all open test cases and clears the stack. */
    method TestSetEnd()
      requires Valid()
      modifies this, stack
      ensures Valid() && isEnabled == old(isEnabled) && testSetID == old(testSetID)
      ensures if isEnabled && testSetID != 0 then
                ended == old(ended) + old(Drain(Contents(), 0, len)) && Now() == Step(old(Now()), EndSet(testcaseID))
              else ended == old(ended) && Contents() == old(Contents()) && Now() == old(Now())
      ensures isEnabled && testSetID != 0 ==> Contents().Ids() == []
    {
      if !isEnabled || testSetID == 0 {
        return;
      }
      if len > 0 {
        EndAll();
        stack := new int[0];
        len := 0;
      }
    }
  }

  lemma DrainDone(s: Slice, n: nat)
    requires s.Valid() && n <= |s.data|
    ensures Drain(s, n, n) == []
  {
  }
}
