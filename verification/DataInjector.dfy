/** The continuous data injector: a loop that inserts a row on every tick until it is paused or
    stopped over a channel, and that on stop checks that every row it tried to insert is there.
    The MySQL and the Postgres driver run the same loop. */
module DataInjector {

  const DataStart := "Start"
  const DataPause := "Pause"
  const DataStop := "Stop"

  /** How a statement went. The server may have applied one that was reported as an error. */
  datatype Reply = Succeeded | Failed(applied: bool)

  /** One round of the loop, or a change that other clients make to the table between rounds. A tick
      carries the key of the row it inserts, if it does, and the reply. */
  datatype Event =
    | Received(cmd: string)
    | Tick(key: string, reply: Reply)
    | Outside(removed: multiset<string>, added: multiset<string>)

  /** `Running`: the events are used up without a stop. */
  datatype Outcome = Running | Nil | Errors(count: nat) | NoConnection | Missing(keys: seq<string>)

  // ----- the run, told from the events -----

  /** The last command received before event `n`. */
  function LastCommand(events: seq<Event>, n: nat): string
    requires n <= |events|
  {
    if n == 0 then DataStart
    else if events[n - 1].Received? then events[n - 1].cmd
    else LastCommand(events, n - 1)
  }

  /** Event `i` is a tick that inserts. */
  predicate Inserts(events: seq<Event>, i: nat)
    requires i < |events|
  {
    events[i].Tick? && LastCommand(events, i) != DataPause
  }

  /** The keys of the rows that the loop tried to insert before event `n`, in order. */
  function Attempts(events: seq<Event>, n: nat): seq<string>
    requires n <= |events|
  {
    if n == 0 then [] else Attempts(events, n - 1) + (if Inserts(events, n - 1) then [events[n - 1].key] else [])
  }

  function Failures(events: seq<Event>, n: nat): nat
    requires n <= |events|
  {
    if n == 0 then 0
    else Failures(events, n - 1) + (if Inserts(events, n - 1) && events[n - 1].reply.Failed? then 1 else 0)
  }

  /** The keys in the table just before event `n`. */
  function Table(initial: multiset<string>, events: seq<Event>, n: nat): multiset<string>
    requires n <= |events|
  {
    if n == 0 then initial
    else
      var before := Table(initial, events, n - 1);
      match events[n - 1]
      case Received(_) => before
      case Outside(removed, added) => before - removed + added
      case Tick(key, reply) =>
        if Inserts(events, n - 1) && reply != Failed(false) then before + multiset{key} else before
  }

  /** The event that ends the run. */
  ghost predicate StopsAt(events: seq<Event>, n: nat) {
    && n < |events| && events[n] == Received(DataStop)
    && forall i | 0 <= i < n :: events[i] != Received(DataStop)
  }

  ghost predicate AllPresent(keys: seq<string>, table: multiset<string>) {
    forall k | k in keys :: k in table
  }

  /** No insert attempted before event `n` failed. */
  ghost predicate AllInserted(events: seq<Event>, n: nat)
    requires n <= |events|
  {
    forall i | 0 <= i < n && Inserts(events, i) :: events[i].reply.Succeeded?
  }

  function Absent(keys: seq<string>, table: multiset<string>): (r: seq<string>)
    ensures r == [] <==> AllPresent(keys, table)
  {
    if keys == [] then []
    else
      var n := |keys| - 1;
      assert keys == keys[..n] + [keys[n]];
      Absent(keys[..n], table) + (if keys[n] in table then [] else [keys[n]])
  }

  /** What the run returns when it stops at event `n`. */
  function Verdict(created: Reply, initial: multiset<string>, events: seq<Event>, n: nat, connects: bool): Outcome
    requires n <= |events|
  {
    var errors := (if created.Failed? then 1 else 0) + Failures(events, n);
    if errors > 0 then Errors(errors)
    else if !connects then NoConnection
    else
      var absent := Absent(Attempts(events, n), Table(initial, events, n));
      if absent == [] then Nil else Missing(absent)
  }

  lemma Beginning(initial: multiset<string>, events: seq<Event>)
    ensures LastCommand(events, 0) == DataStart && Attempts(events, 0) == [] && Failures(events, 0) == 0
    ensures Table(initial, events, 0) == initial
  {
  }

  /** One event more. */
  lemma OneMore(initial: multiset<string>, events: seq<Event>, n: nat)
    requires n < |events|
    ensures events[n].Received? ==>
              && LastCommand(events, n + 1) == events[n].cmd && Attempts(events, n + 1) == Attempts(events, n)
              && Failures(events, n + 1) == Failures(events, n)
              && Table(initial, events, n + 1) == Table(initial, events, n)
    ensures events[n].Outside? ==>
              && LastCommand(events, n + 1) == LastCommand(events, n) && Attempts(events, n + 1) == Attempts(events, n)
              && Failures(events, n + 1) == Failures(events, n)
              && Table(initial, events, n + 1) == Table(initial, events, n) - events[n].removed + events[n].added
    ensures events[n].Tick? ==>
              && LastCommand(events, n + 1) == LastCommand(events, n)
              && if LastCommand(events, n) == DataPause then
                   && Attempts(events, n + 1) == Attempts(events, n) && Failures(events, n + 1) == Failures(events, n)
                   && Table(initial, events, n + 1) == Table(initial, events, n)
                 else
                   && Attempts(events, n + 1) == Attempts(events, n) + [events[n].key]
                   && Failures(events, n + 1) == Failures(events, n) + (if events[n].reply.Failed? then 1 else 0)
                   && Table(initial, events, n + 1) ==
                      Table(initial, events, n)
                      + (if events[n].reply == Failed(false) then multiset{} else multiset{events[n].key})
  {
  }

  // ----- the loop -----

  /** The final check of the recorded selects: a select finds its row exactly when the key is there. */
  method CheckRecorded(selects: seq<string>, table: multiset<string>) returns (notFound: seq<string>)
    ensures notFound == Absent(selects, table)
  {
    notFound := [];
    var i := 0;
    while i < |selects|
      invariant 0 <= i <= |selects|
      invariant notFound == Absent(selects[..i], table)
    {
      assert selects[..i + 1][..i] == selects[..i];
      if selects[i] !in table {
        notFound := notFound + [selects[i]];
      }
      i := i + 1;
    }
    assert selects[..i] == selects;
  }

  /** The absent keys, in their order: the check goes through a list piece by piece. */
  lemma {:induction false} AbsentAdds(a: seq<string>, b: seq<string>, table: multiset<string>)
    ensures Absent(a + b, table) == Absent(a, table) + Absent(b, table)
    ensures |a| == 1 ==> Absent(a, table) == if a[0] in table then [] else a
    decreases |b|
  {
    if b == [] {
      assert a + b == a;
    } else {
      var n := |b| - 1;
      AbsentAdds(a, b[..n], table);
      assert (a + b)[..|a + b| - 1] == a + b[..n];
    }
  }

  /** `StartData`. `created` is the reply to the table creation, `connects` whether the final check
      gets a connection. */
  method StartData(created: Reply, initial: multiset<string>, events: seq<Event>, connects: bool)
    returns (r: Outcome, selects: seq<string>, rounds: nat)
    ensures rounds <= |events| && selects == Attempts(events, rounds) && (!r.Running? ==> rounds < |events|)
    ensures if r.Running? then rounds == |events| && forall i | 0 <= i < |events| :: events[i] != Received("Stop")
            else
              && events[rounds] == Received("Stop") && StopsAt(events, rounds)
              && r == Verdict(created, initial, events, rounds, connects)
  {
    hide LastCommand, Attempts, Failures, Table;
    Beginning(initial, events);
    var status, errors := DataStart, 0;
    var table := initial;
    selects := [];
    if created.Failed? {
      errors := 1;
    }
    rounds := 0;
    while rounds < |events|
      invariant 0 <= rounds <= |events|
      invariant forall i | 0 <= i < rounds :: events[i] != Received(DataStop)
      invariant status == if LastCommand(events, rounds) == DataPause then DataPause else DataStart
      invariant selects == Attempts(events, rounds)
      invariant errors == (if created.Failed? then 1 else 0) + Failures(events, rounds)
      invariant table == Table(initial, events, rounds)
    {
      OneMore(initial, events, rounds);
      match events[rounds] {
        case Received(cmd) =>
          if cmd == DataStop {
            if errors != 0 {
              return Errors(errors), selects, rounds;
            }
            if !connects {
              return NoConnection, selects, rounds;
            }
            var notFound := CheckRecorded(selects, table);
            return (if notFound == [] then Nil else Missing(notFound)), selects, rounds;
          } else if cmd == DataPause {
            status := DataPause;
          } else {
            status := DataStart;
          }
        case Tick(key, reply) =>
          if status == DataStart {
            if reply != Failed(false) {
              table := table + multiset{key};
            }
            if reply.Failed? {
              errors := errors + 1;
            }
            selects := selects + [key];
          }
        case Outside(removed, added) =>
          table := table - removed + added;
      }
      rounds := rounds + 1;
    }
    r := Running;
  }

  // ----- what the verdict means -----

  lemma {:induction false} FailuresNone(events: seq<Event>, n: nat)
    requires n <= |events|
    ensures Failures(events, n) == 0 <==> AllInserted(events, n)
  {
    if n > 0 {
      FailuresNone(events, n - 1);
    }
  }

  /** A stopped run returns `nil` if and only if the table was created, every attempted insert
      succeeded, the check could connect, and every attempted row was there at the stop. */
  lemma NilIff(created: Reply, initial: multiset<string>, events: seq<Event>, n: nat, connects: bool)
    requires StopsAt(events, n)
    ensures Verdict(created, initial, events, n, connects) == Nil <==>
            && created.Succeeded? && connects && AllInserted(events, n)
            && AllPresent(Attempts(events, n), Table(initial, events, n))
  {
    FailuresNone(events, n);
  }

  /** The other outcomes, by precedence: the errors, if anything failed; then a failing connection; then
      exactly the recorded keys that are absent. */
  lemma OtherwiseIff(created: Reply, initial: multiset<string>, events: seq<Event>, n: nat, connects: bool)
    requires StopsAt(events, n)
    ensures var v := Verdict(created, initial, events, n, connects);
            var clean := created.Succeeded? && AllInserted(events, n);
            && (v.Errors? <==> !clean)
            && (v == NoConnection <==> clean && !connects)
            && (v.Missing? ==> v.keys == Absent(Attempts(events, n), Table(initial, events, n)) != [])
            && !v.Running?
  {
    hide Attempts, Table, Failures, Absent, AllInserted;
    FailuresNone(events, n);
  }

  lemma {:induction false} AttemptsStay(initial: multiset<string>, events: seq<Event>, n: nat)
    requires n <= |events|
    requires AllInserted(events, n)
    requires forall i | 0 <= i < n && events[i].Outside? :: events[i].removed == multiset{}
    ensures AllPresent(Attempts(events, n), Table(initial, events, n))
  {
    hide Attempts, Table, LastCommand;
    if n == 0 {
      Beginning(initial, events);
    } else {
      AttemptsStay(initial, events, n - 1);
      OneMore(initial, events, n - 1);
    }
  }

  /** So if nothing failed and nobody removed a row, the run returns `nil`. */
  lemma NothingLost(created: Reply, initial: multiset<string>, events: seq<Event>, n: nat)
    requires StopsAt(events, n) && created.Succeeded?
    requires AllInserted(events, n)
    requires forall i | 0 <= i < n && events[i].Outside? :: events[i].removed == multiset{}
    ensures Verdict(created, initial, events, n, true) == Nil
  {
    AttemptsStay(initial, events, n);
    NilIff(created, initial, events, n, true);
  }

  // ----- pausing -----

  /** No command arrives in the events from `i` to `j`. */
  ghost predicate Quiet(events: seq<Event>, i: nat, j: nat) {
    i <= j <= |events| && forall k | i <= k < j :: !events[k].Received?
  }

  function TickKeys(events: seq<Event>, i: nat, j: nat): seq<string>
    requires i <= j <= |events|
    decreases j
  {
    if i == j then []
    else TickKeys(events, i, j - 1) + (if events[j - 1].Tick? then [events[j - 1].key] else [])
  }

  lemma {:induction false} LastCommandQuiet(events: seq<Event>, i: nat, j: nat)
    requires Quiet(events, i, j)
    ensures LastCommand(events, j) == LastCommand(events, i)
    decreases j
  {
    if i < j {
      LastCommandQuiet(events, i, j - 1);
    }
  }

  /** While paused, no insert is attempted and no select recorded; at any other time every tick is
      recorded, in order. A command that is neither a stop nor a pause resumes. */
  lemma {:induction false} QuietStretch(events: seq<Event>, i: nat, j: nat)
    requires Quiet(events, i, j)
    ensures Attempts(events, j) ==
            Attempts(events, i) + (if LastCommand(events, i) == DataPause then [] else TickKeys(events, i, j))
    decreases j
  {
    if i == j {
      assert Attempts(events, i) + [] == Attempts(events, i);
    } else {
      QuietStretch(events, i, j - 1);
      LastCommandQuiet(events, i, j - 1);
    }
  }

  /** Command by command: behind a pause no tick is recorded until the next command, behind any other
      command, and at the beginning, every tick is. */
  lemma AfterCommand(events: seq<Event>, i: nat, j: nat)
    requires i < j && Quiet(events, i + 1, j) && events[i].Received?
    ensures Attempts(events, j) ==
            Attempts(events, i) + (if events[i].cmd == "Pause" then [] else TickKeys(events, i + 1, j))
  {
    hide Attempts, LastCommand, TickKeys, Table, Failures;
    OneMore(multiset{}, events, i);
    QuietStretch(events, i + 1, j);
  }

  lemma AtTheBeginning(events: seq<Event>, j: nat)
    requires Quiet(events, 0, j)
    ensures Attempts(events, j) == TickKeys(events, 0, j)
  {
    hide Attempts, LastCommand, TickKeys, Table, Failures;
    Beginning(multiset{}, events);
    QuietStretch(events, 0, j);
  }
}
