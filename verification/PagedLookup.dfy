/** Finding a backup, a restore or a schedule by name (or a backup by uid) through a server that
    answers in pages. */
module PagedLookup {
  import opened Wrappers

  datatype Item = Item(name: string, uid: string)

  /** The answer to one enumerate request. */
  datatype Reply = Page(items: seq<Item>, total: nat) | Refused

  /** `Unfinished`: all replies were consumed and the loop would ask for another page. */
  datatype Lookup = Found(item: Item) | NotFound | Error | Unfinished

  // ----- what the loop computes from the replies -----

  /** The items of the first `n` pages, in order. */
  function Seen(replies: seq<Reply>, n: nat): seq<Item>
    requires n <= |replies|
  {
    if n == 0 then []
    else Seen(replies, n - 1) + (if replies[n - 1].Page? then replies[n - 1].items else [])
  }

  lemma SeenNone(replies: seq<Reply>)
    ensures Seen(replies, 0) == []
  {
  }

  lemma SeenPage(replies: seq<Reply>, n: nat)
    requires n < |replies| && replies[n].Page?
    ensures Seen(replies, n + 1) == Seen(replies, n) + replies[n].items
  {
  }

  function FirstMatch(items: seq<Item>, match': Item -> bool): (r: Option<Item>)
    ensures r.Some? ==> r.value in items && match'(r.value)
    ensures r.None? <==> forall x | x in items :: !match'(x)
  {
    if items == [] then None
    else if match'(items[0]) then Some(items[0])
    else FirstMatch(items[1..], match')
  }

  lemma {:induction false} FirstMatchConcat(a: seq<Item>, b: seq<Item>, match': Item -> bool)
    ensures FirstMatch(a + b, match') ==
            if FirstMatch(a, match').Some? then FirstMatch(a, match') else FirstMatch(b, match')
  {
    if a == [] {
      assert a + b == b;
    } else {
      assert (a + b)[0] == a[0] && (a + b)[1..] == a[1..] + b;
      FirstMatchConcat(a[1..], b, match');
    }
  }

  lemma {:induction false} FirstMatchAt(items: seq<Item>, j: nat, match': Item -> bool)
    requires j < |items| && match'(items[j])
    requires forall k | 0 <= k < j :: !match'(items[k])
    ensures FirstMatch(items, match') == Some(items[j])
  {
    if j > 0 {
      FirstMatchAt(items[1..], j - 1, match');
    }
  }

  /** After `n` replies the loop is still going: no match, no refusal, and more items announced. */
  ghost predicate Continues(replies: seq<Reply>, n: nat, match': Item -> bool)
    requires n <= |replies|
  {
    && FirstMatch(Seen(replies, n), match').None?
    && forall k | 0 <= k < n :: replies[k].Page? && |Seen(replies, k + 1)| < replies[k].total
  }

  /** `r` is the lookup's answer after `used` requests. */
  ghost predicate Answer(match': Item -> bool, replies: seq<Reply>, r: Lookup, used: nat) {
    && used <= |replies|
    && (match r
        case Unfinished => used == |replies| && Continues(replies, used, match')
        case Error => used > 0 && Continues(replies, used - 1, match') && replies[used - 1].Refused?
        case Found(item) =>
          && used > 0 && Continues(replies, used - 1, match') && replies[used - 1].Page?
          && FirstMatch(Seen(replies, used), match') == Some(item)
        case NotFound =>
          && used > 0 && Continues(replies, used - 1, match') && replies[used - 1].Page?
          && FirstMatch(Seen(replies, used), match').None?
          && replies[used - 1].total <= |Seen(replies, used)|)
  }

  /** Every request asks for the page right behind the items received so far. */
  ghost predicate InStep(replies: seq<Reply>, requests: seq<nat>) {
    |requests| <= |replies| && forall k | 0 <= k < |requests| :: requests[k] == |Seen(replies, k)|
  }

  /** The page loop of the four lookups. `used` is the number of requests made, and `requests` holds
      the object index of each. */
  method Enumerate(match': Item -> bool, replies: seq<Reply>) returns (r: Lookup, used: nat, requests: seq<nat>)
    ensures Answer(match', replies, r, used)
    ensures |requests| == used && InStep(replies, requests)
    ensures forall k | 0 <= k < used :: requests[k] == |Seen(replies, k)|
  {
    hide FirstMatch, Seen;
    SeenNone(replies);
    var counted, index: nat := 0, 0;
    used, requests := 0, [];
    while used < |replies|
      invariant used <= |replies|
      invariant Continues(replies, used, match')
      invariant counted == index == |Seen(replies, used)|
      invariant |requests| == used && InStep(replies, requests)
    {
      var reply := replies[used];
      requests := requests + [index];
      used := used + 1;
      if reply.Refused? {
        return Error, used, requests;
      }
      SeenPage(replies, used - 1);
      FirstMatchConcat(Seen(replies, used - 1), reply.items, match');
      var j := 0;
      while j < |reply.items|
        invariant 0 <= j <= |reply.items|
        invariant counted == index + j
        invariant forall k | 0 <= k < j :: !match'(reply.items[k])
      {
        if match'(reply.items[j]) {
          FirstMatchAt(reply.items, j, match');
          return Found(reply.items[j]), used, requests;
        }
        counted := counted + 1;
        j := j + 1;
      }
      if counted >= reply.total {
        return NotFound, used, requests;
      }
      index := index + |reply.items|;
    }
    r := Unfinished;
  }

  predicate HasName(name: string, x: Item) {
    x.name == name
  }

  predicate HasUid(uid: string, x: Item) {
    x.uid == uid
  }

  /** `GetBackupUID`, `GetRestoreUID` and `GetBackupScheduleUID`. */
  method GetUID(name: string, replies: seq<Reply>) returns (uid: Option<string>, used: nat)
    ensures exists r :: Answer(x => HasName(name, x), replies, r, used)
                        && (if r.Found? then r.item.name == name && uid == Some(r.item.uid) else uid == None)
  {
    var found, requests;
    found, used, requests := Enumerate(x => HasName(name, x), replies);
    uid := if found.Found? then Some(found.item.uid) else None;
  }

  /** `GetBackupName`. */
  method GetBackupName(uid: string, replies: seq<Reply>) returns (name: Option<string>, used: nat)
    ensures exists r :: Answer(x => HasUid(uid, x), replies, r, used)
                        && (if r.Found? then r.item.uid == uid && name == Some(r.item.name) else name == None)
  {
    var found, requests;
    found, used, requests := Enumerate(x => HasUid(uid, x), replies);
    name := if found.Found? then Some(found.item.name) else None;
  }

  // ----- against a server -----

  const EnumerateBatchSize := 100

  /** A page is the part of the store from position `from` on, possibly empty, and reports the size of
      the store. */
  ghost predicate Serves(store: seq<Item>, from: nat, reply: Reply) {
    reply.Page? ==>
      && |reply.items| <= EnumerateBatchSize && reply.total == |store|
      && (reply.items == [] ||
          (from + |reply.items| <= |store| && reply.items == store[from..from + |reply.items|]))
  }

  /** `stores[k]` is the store at request `k`; between requests anything may happen to it. */
  ghost predicate Served(stores: seq<seq<Item>>, replies: seq<Reply>) {
    |stores| == |replies| && forall k | 0 <= k < |replies| :: Serves(stores[k], |Seen(replies, k)|, replies[k])
  }

  /** Between requests the store only grows at its tail. */
  ghost predicate Honest(stores: seq<seq<Item>>, replies: seq<Reply>) {
    Served(stores, replies) && forall i, k | 0 <= i <= k < |stores| :: stores[i] <= stores[k]
  }

  /** The pages received so far are the beginning of the store. */
  lemma {:induction false} SeenIsPrefix(stores: seq<seq<Item>>, replies: seq<Reply>, n: nat)
    requires Honest(stores, replies)
    requires 0 < n <= |replies|
    requires forall k | 0 <= k < n :: replies[k].Page?
    ensures Seen(replies, n) <= stores[n - 1]
  {
    hide Seen;
    var before, store := Seen(replies, n - 1), stores[n - 1];
    if n == 1 {
      SeenNone(replies);
    } else {
      SeenIsPrefix(stores, replies, n - 1);
      PrefixTransitive(before, stores[n - 2], store);
    }
    assert Serves(store, |before|, replies[n - 1]);
    SeenPage(replies, n - 1);
    PrefixExtends(before, store, replies[n - 1].items);
  }

  lemma PrefixTransitive(a: seq<Item>, b: seq<Item>, c: seq<Item>)
    requires a <= b && b <= c
    ensures a <= c
  {
  }

  lemma PrefixExtends(before: seq<Item>, store: seq<Item>, page: seq<Item>)
    requires before <= store
    requires page == [] || (|before| + |page| <= |store| && page == store[|before|..|before| + |page|])
    ensures before + page <= store
  {
  }

  lemma FirstMatchPrefix(a: seq<Item>, b: seq<Item>, match': Item -> bool)
    requires a <= b && FirstMatch(a, match').Some?
    ensures FirstMatch(b, match') == FirstMatch(a, match')
  {
    assert b == a + b[|a|..];
    FirstMatchConcat(a, b[|a|..], match');
  }

  /** The paged lookup is a plain scan: what it finds is the first match in the store as it stood at
      its last request, and ever after; and it reports `not found` only when that store has no match. */
  lemma PagedIsScan(stores: seq<seq<Item>>, replies: seq<Reply>, match': Item -> bool, r: Lookup, used: nat)
    requires Honest(stores, replies)
    requires Answer(match', replies, r, used)
    ensures r.Found? ==> forall k | used - 1 <= k < |stores| :: FirstMatch(stores[k], match') == Some(r.item)
    ensures r.NotFound? ==> FirstMatch(stores[used - 1], match').None?
  {
    hide Seen, FirstMatch;
    if r.Found? || r.NotFound? {
      SeenIsPrefix(stores, replies, used);
      var seen := Seen(replies, used);
      if r.Found? {
        forall k | used - 1 <= k < |stores| ensures FirstMatch(stores[k], match') == Some(r.item) {
          PrefixTransitive(seen, stores[used - 1], stores[k]);
          FirstMatchPrefix(seen, stores[k], match');
        }
      } else {
        SeenLength(stores, replies, used);
        assert seen == stores[used - 1];
      }
    }
  }

  lemma SeenLength(stores: seq<seq<Item>>, replies: seq<Reply>, n: nat)
    requires Honest(stores, replies)
    requires 0 < n <= |replies| && replies[n - 1].Page?
    ensures replies[n - 1].total == |stores[n - 1]|
  {
    assert Serves(stores[n - 1], |Seen(replies, n - 1)|, replies[n - 1]);
  }

  // ----- a store that does not change -----

  ghost predicate AllPages(replies: seq<Reply>) {
    forall k | 0 <= k < |replies| :: replies[k].Page?
  }

  lemma {:induction false} SeenMonotone(replies: seq<Reply>, m: nat, n: nat)
    requires m <= n <= |replies|
    ensures Seen(replies, m) <= Seen(replies, n)
  {
    if m < n {
      SeenMonotone(replies, m, n - 1);
    }
  }

  /** On a store that does not change, the loop goes on asking if and only if no request was refused, no
      match was sent, and part of the store is still to come. */
  lemma FixedStoreUnfinished(store: seq<Item>, replies: seq<Reply>, match': Item -> bool, r: Lookup, used: nat)
    requires Honest(seq(|replies|, i => store), replies) && replies != []
    requires Answer(match', replies, r, used)
    ensures var seen := Seen(replies, |replies|);
            r.Unfinished? <==> AllPages(replies) && FirstMatch(seen, match').None? && |seen| < |store|
  {
    hide Seen, FirstMatch;
    var seen, stores := Seen(replies, |replies|), seq(|replies|, i => store);
    SeenMonotone(replies, used, |replies|);
    if r.Unfinished? {
      SeenLength(stores, replies, |replies|);
    } else if r.Found? {
      FirstMatchPrefix(Seen(replies, used), seen, match');
    } else if r.NotFound? {
      SeenLength(stores, replies, used);
    }
  }

  /** So if no page is empty before the end, the lookup is decided after at most as many requests as
      there are items (one if there are none). */
  lemma FixedStoreDecides(store: seq<Item>, replies: seq<Reply>, match': Item -> bool, r: Lookup, used: nat)
    requires Honest(seq(|replies|, i => store), replies)
    requires forall k | 0 <= k < |replies| && replies[k].Page? && replies[k].items == [] ::
               |Seen(replies, k)| >= |store|
    requires Answer(match', replies, r, used)
    ensures r.Unfinished? ==> replies == [] || |replies| < |store|
  {
    hide FirstMatch, Seen;
    if r.Unfinished? && replies != [] {
      FixedStoreUnfinished(store, replies, match', r, used);
      forall k | 0 <= k < |replies| ensures replies[k].Page? && replies[k].items != [] {
        SeenMonotone(replies, k, |replies|);
      }
      SeenGrows(replies, |replies|);
    }
  }

  lemma {:induction false} SeenGrows(replies: seq<Reply>, n: nat)
    requires n <= |replies|
    requires forall k | 0 <= k < n :: replies[k].Page? && replies[k].items != []
    ensures n <= |Seen(replies, n)|
  {
    if n > 0 {
      SeenGrows(replies, n - 1);
    }
  }

  /** And while a server sends empty pages of a store that is not empty, the loop repeats the same
      request without end. */
  lemma EmptyPagesNeverEnd(store: seq<Item>, n: nat, match': Item -> bool)
    requires store != []
    ensures var replies := seq(n, i => Page([], |store|));
            && Honest(seq(n, i => store), replies) && Answer(match', replies, Unfinished, n)
            && forall k | 0 <= k <= n :: Seen(replies, k) == []
  {
    var replies := seq(n, i => Page([], |store|));
    forall k | 0 <= k <= n ensures Seen(replies, k) == [] {
      SeenEmptyPages(replies, k);
    }
  }

  lemma {:induction false} SeenEmptyPages(replies: seq<Reply>, k: nat)
    requires k <= |replies| && forall i | 0 <= i < k :: replies[i].Page? && replies[i].items == []
    ensures Seen(replies, k) == []
  {
    hide Seen;
    if k == 0 {
      SeenNone(replies);
    } else {
      SeenEmptyPages(replies, k - 1);
      SeenPage(replies, k - 1);
    }
  }

  // ----- a store that changes in any way -----

  /** Request `k` shows item `x`: one of its positions in the store of that moment is in the window of
      the page sent. */
  ghost predicate Shown(stores: seq<seq<Item>>, replies: seq<Reply>, k: nat, x: Item)
    requires k < |replies| == |stores|
  {
    && replies[k].Page?
    && exists j :: 0 <= j < |stores[k]| && InWindow(replies, k, j) && stores[k][j] == x
  }

  ghost predicate InWindow(replies: seq<Reply>, k: nat, j: int)
    requires k < |replies| && replies[k].Page?
  {
    |Seen(replies, k)| <= j < |Seen(replies, k)| + |replies[k].items|
  }

  lemma PageShows(stores: seq<seq<Item>>, replies: seq<Reply>, k: nat, x: Item)
    requires Served(stores, replies) && k < |replies|
    ensures x in Seen(replies, k + 1) <==> x in Seen(replies, k) || Shown(stores, replies, k, x)
  {
    hide Seen;
    var from, store, reply := |Seen(replies, k)|, stores[k], replies[k];
    assert Serves(store, from, reply);
    if reply.Page? {
      SeenPage(replies, k);
      if x in reply.items {
        var i :| 0 <= i < |reply.items| && reply.items[i] == x;
        assert store[from + i] == x && InWindow(replies, k, from + i);
      }
      if Shown(stores, replies, k, x) {
        var j :| 0 <= j < |store| && InWindow(replies, k, j) && store[j] == x;
        assert reply.items[j - from] == x;
      }
    } else {
      SeenRefused(replies, k);
    }
  }

  lemma SeenRefused(replies: seq<Reply>, n: nat)
    requires n < |replies| && replies[n].Refused?
    ensures Seen(replies, n + 1) == Seen(replies, n)
  {
  }

  ghost predicate EverShown(stores: seq<seq<Item>>, replies: seq<Reply>, n: nat, x: Item)
    requires n <= |replies| == |stores|
  {
    exists k: nat | k < n :: Shown(stores, replies, k, x)
  }

  /** However the store changes, an item is received if and only if one of the requests shows it. */
  lemma {:induction false} SeenIffShown(stores: seq<seq<Item>>, replies: seq<Reply>, n: nat, x: Item)
    requires Served(stores, replies) && n <= |replies|
    ensures x in Seen(replies, n) <==> EverShown(stores, replies, n, x)
  {
    hide Seen, Shown;
    if n == 0 {
      SeenNone(replies);
    } else {
      SeenIffShown(stores, replies, n - 1, x);
      PageShows(stores, replies, n - 1, x);
      if EverShown(stores, replies, n, x) {
        var k: nat :| k < n && Shown(stores, replies, k, x);
        assert k < n - 1 ==> EverShown(stores, replies, n - 1, x);
      }
    }
  }

  /** However the store changes, a decided lookup misses a match if and only if every window passed it
      by: it answers `not found` exactly when no request showed any match. */
  lemma MissesIffNeverShown(stores: seq<seq<Item>>, replies: seq<Reply>, match': Item -> bool, r: Lookup, used: nat)
    requires Served(stores, replies) && Answer(match', replies, r, used) && (r.Found? || r.NotFound?)
    ensures r.NotFound? <==> forall x | match'(x) :: !EverShown(stores, replies, used, x)
  {
    hide Seen, EverShown;
    forall x ensures x in Seen(replies, used) <==> EverShown(stores, replies, used, x) {
      SeenIffShown(stores, replies, used, x);
    }
    if r.Found? {
      assert EverShown(stores, replies, used, r.item);
    }
  }

  /** An item that stays in the store, at position `pos[k]` at request `k`, can be missed only if it
      moves, between two requests, from in front of what was received to behind it. */
  lemma MissedItemSlips(stores: seq<seq<Item>>, replies: seq<Reply>, match': Item -> bool, used: nat, x: Item,
                        pos: seq<nat>)
    requires Served(stores, replies) && Answer(match', replies, NotFound, used) && match'(x)
    requires |pos| == |stores| && forall k | 0 <= k < |pos| :: pos[k] < |stores[k]| && stores[k][pos[k]] == x
    ensures exists k: nat :: k + 1 < used && Slips(replies, pos, k)
  {
    hide Seen, FirstMatch;
    var last := used - 1;
    SeenPage(replies, last);
    assert Serves(stores[last], |Seen(replies, last)|, replies[last]);
    NotInWindow(stores, replies, match', used, x, pos, last);
    assert pos[last] < |Seen(replies, last)|;
    SlipsBefore(stores, replies, match', used, x, pos, last);
  }

  /** Beyond the items received by request `k`, and no longer beyond them at the next request. */
  ghost predicate Slips(replies: seq<Reply>, pos: seq<nat>, k: nat) {
    k + 1 < |pos| == |replies| && pos[k + 1] < |Seen(replies, k + 1)| <= pos[k]
  }

  lemma NotInWindow(stores: seq<seq<Item>>, replies: seq<Reply>, match': Item -> bool, used: nat, x: Item,
                    pos: seq<nat>, k: nat)
    requires Served(stores, replies) && Answer(match', replies, NotFound, used) && match'(x)
    requires |pos| == |stores| && k < used && pos[k] < |stores[k]| && stores[k][pos[k]] == x
    ensures replies[k].Page? && !InWindow(replies, k, pos[k])
  {
    hide Seen, FirstMatch;
    assert x !in Seen(replies, used);
    SeenIffShown(stores, replies, used, x);
    assert !Shown(stores, replies, k, x);
  }

  lemma {:induction false} SlipsBefore(
    stores: seq<seq<Item>>, replies: seq<Reply>, match': Item -> bool, used: nat, x: Item, pos: seq<nat>, k: nat)
    requires Served(stores, replies) && Answer(match', replies, NotFound, used) && match'(x)
    requires |pos| == |stores| && forall i | 0 <= i < |pos| :: pos[i] < |stores[i]| && stores[i][pos[i]] == x
    requires k < used && pos[k] < |Seen(replies, k)|
    ensures exists i: nat :: i + 1 < used && Slips(replies, pos, i)
  {
    hide Seen, FirstMatch;
    if k == 0 {
      SeenNone(replies);
    } else {
      NotInWindow(stores, replies, match', used, x, pos, k - 1);
      SeenPage(replies, k - 1);
      if pos[k - 1] < |Seen(replies, k - 1)| {
        SlipsBefore(stores, replies, match', used, x, pos, k - 1);
      } else {
        assert Slips(replies, pos, k - 1);
      }
    }
  }

  /** Such a history: the first item is deleted between two requests, and an item that was in the store
      all along is reported as not found. */
  lemma DeletionHidesAnItem()
    ensures var a, b, c := Item("a", "1"), Item("b", "2"), Item("c", "3");
            var replies := [Page([a], 3), Page([c], 2)];
            && Served([[a, b, c], [b, c]], replies)
            && Answer(x => HasName("b", x), replies, NotFound, 2) && Slips(replies, [1, 0], 0)
  {
    var a, b, c := Item("a", "1"), Item("b", "2"), Item("c", "3");
    var replies := [Page([a], 3), Page([c], 2)];
    SeenNone(replies);
    SeenPage(replies, 0);
    SeenPage(replies, 1);
    assert Seen(replies, 1) == [a] && Seen(replies, 2) == [a, c];
  }

  // ----- names and uids -----

  ghost predicate UniqueUids(store: seq<Item>) {
    forall i, j | 0 <= i < j < |store| :: store[i].uid != store[j].uid
  }

  /** `GetBackupName` inverts `GetBackupUID`, even if the store grew between and during the two. */
  lemma NameInvertsUid(
    name: string, stores1: seq<seq<Item>>, replies1: seq<Reply>, r1: Lookup, used1: nat,
    stores2: seq<seq<Item>>, replies2: seq<Reply>, r2: Lookup, used2: nat)
    requires Honest(stores1, replies1) && Answer(x => HasName(name, x), replies1, r1, used1) && r1.Found?
    requires Honest(stores2, replies2) && Answer(x => HasUid(r1.item.uid, x), replies2, r2, used2)
    requires forall k | 0 <= k < |stores2| :: stores1[used1 - 1] <= stores2[k] && UniqueUids(stores2[k])
    ensures !r2.NotFound?
    ensures r2.Found? ==> r2.item == r1.item && r2.item.name == name
  {
    hide Seen, FirstMatch, Serves, Continues;
    PagedIsScan(stores1, replies1, x => HasName(name, x), r1, used1);
    PagedIsScan(stores2, replies2, x => HasUid(r1.item.uid, x), r2, used2);
    if r2.Found? || r2.NotFound? {
      var store := stores2[used2 - 1];
      var i :| 0 <= i < |stores1[used1 - 1]| && stores1[used1 - 1][i] == r1.item;
      assert store[i] == r1.item;
      UidIsUnique(store, i);
    }
  }

  lemma UidIsUnique(store: seq<Item>, i: nat)
    requires i < |store| && UniqueUids(store)
    ensures FirstMatch(store, x => HasUid(store[i].uid, x)) == Some(store[i])
  {
    FirstMatchAt(store, i, x => HasUid(store[i].uid, x));
  }
}
