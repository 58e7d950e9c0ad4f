// The mock connection: a call first draws a ticket from an atomic counter, then takes the lock and
// claims the canned result of that ticket. Other callers may come in between.
module MockDriver {
  import opened Sqlite
  import opened Driver
  import opened MockDatabase

  class MockDatabaseConnection<E, Q> {
    var executeCounter: nat
    var queryCounter: nat
    const mocker: Mock<E, Q>

    constructor (mocker: Mock<E, Q>)
      ensures this.mocker == mocker && executeCounter == 0 && queryCounter == 0
    {
      this.mocker := mocker;
      executeCounter := 0;
      queryCounter := 0;
    }

    // A call that nobody interrupts.
    method Execute(sql: Sql) returns (r: Reply<E>)
      modifies this`executeCounter, mocker`log, mocker`execResults, mocker.transaction
      ensures executeCounter == old(executeCounter) + 1
      ensures (r, mocker.execResults) == TakeSlot(old(mocker.execResults), old(executeCounter))
      ensures mocker.View() == Record(old(mocker.View()), Op.Execute(sql))
    {
      var counter := executeCounter;
      executeCounter := counter + 1;
      r := mocker.Execute(counter, sql);
    }

    method QueryAll(sql: Sql) returns (r: Reply<Q>)
      modifies this`queryCounter, mocker`log, mocker`queryResults, mocker.transaction
      ensures queryCounter == old(queryCounter) + 1
      ensures (r, mocker.queryResults) == TakeSlot(old(mocker.queryResults), old(queryCounter))
      ensures mocker.View() == Record(old(mocker.View()), Op.Execute(sql))
    {
      var counter := queryCounter;
      queryCounter := counter + 1;
      r := mocker.Query(counter, sql);
    }
  }

  // ---- Interleaved callers of one counter; statements and queries have one each ----

  datatype Desk<R> = Desk(
    next: nat,                      // the counter
    slots: seq<Slot<R>>,
    waiting: map<nat, nat>,         // callers that hold a ticket but not yet the lock
    served: seq<(nat, Reply<R>)>)   // tickets with what they were handed, in lock order

  datatype Step = FetchAdd(caller: nat) | LockAndTake(caller: nat)

  function Advance<R>(d: Desk<R>, s: Step): Desk<R> {
    match s
    case FetchAdd(c) =>
      if c in d.waiting then d
      else d.(next := d.next + 1, waiting := d.waiting[c := d.next])
    case LockAndTake(c) =>
      if c !in d.waiting then d
      else
        var (reply, slots) := TakeSlot(d.slots, d.waiting[c]);
        d.(slots := slots, waiting := d.waiting - {c}, served := d.served + [(d.waiting[c], reply)])
  }

  function RunDesk<R>(d: Desk<R>, steps: seq<Step>): Desk<R>
    decreases |steps|
  {
    if steps == [] then d else RunDesk(Advance(d, steps[0]), steps[1..])
  }

  function Fresh<R>(canned: seq<R>): Desk<R> {
    Desk(0, seq(|canned|, i requires 0 <= i < |canned| => Canned(canned[i])), map[], [])
  }

  function Tickets<R>(d: Desk<R>): set<nat> {
    set j | 0 <= j < |d.served| :: d.served[j].0
  }

  function Due<R>(canned: seq<R>, ticket: nat): Reply<R> {
    if ticket < |canned| then Delivered(canned[ticket]) else BufferEmpty
  }

  // Every ticket drawn is held by one waiting caller or has been served, once.
  ghost predicate TicketsInOrder<R>(d: Desk<R>) {
    && (forall c :: c in d.waiting ==> d.waiting[c] < d.next && d.waiting[c] !in Tickets(d))
    && (forall c, c' :: c in d.waiting && c' in d.waiting && c != c' ==> d.waiting[c] != d.waiting[c'])
    && (forall j, k :: 0 <= j < k < |d.served| ==> d.served[j].0 != d.served[k].0)
    && (forall t :: t in Tickets(d) ==> t < d.next)
    && (forall t :: 0 <= t < d.next ==> t in d.waiting.Values || t in Tickets(d))
  }

  // Ticket k got entry k, and that entry is gone.
  ghost predicate SlotsInOrder<R>(d: Desk<R>, canned: seq<R>) {
    && (forall j :: 0 <= j < |d.served| ==> d.served[j].1 == Due(canned, d.served[j].0))
    && |d.slots| == |canned|
    && (forall k :: 0 <= k < |canned| ==>
          d.slots[k] == if k in Tickets(d) then Consumed else Canned(canned[k]))
  }

  lemma ServedTickets<R>(d: Desk<R>, c: nat)
    requires c in d.waiting
    ensures Tickets(Advance(d, LockAndTake(c))) == Tickets(d) + {d.waiting[c]}
  {
    var d' := Advance(d, LockAndTake(c));
    assert d'.served[|d.served|].0 == d.waiting[c];
    assert forall j :: 0 <= j < |d.served| ==> d'.served[j] == d.served[j];
  }

  lemma DrawKeepsOrder<R>(d: Desk<R>, canned: seq<R>, c: nat)
    requires TicketsInOrder(d) && SlotsInOrder(d, canned) && c !in d.waiting
    ensures TicketsInOrder(Advance(d, FetchAdd(c))) && SlotsInOrder(Advance(d, FetchAdd(c)), canned)
  {
    var d' := Advance(d, FetchAdd(c));
    assert Tickets(d') == Tickets(d);
    forall t | 0 <= t < d'.next ensures t in d'.waiting.Values || t in Tickets(d') {
      if t == d.next {
        assert d'.waiting[c] == t;
      } else if t in d.waiting.Values {
        var c' :| c' in d.waiting && d.waiting[c'] == t;
        assert d'.waiting[c'] == t;
      }
    }
  }

  lemma ServeKeepsTickets<R>(d: Desk<R>, c: nat)
    requires TicketsInOrder(d) && c in d.waiting
    ensures TicketsInOrder(Advance(d, LockAndTake(c)))
  {
    var d' := Advance(d, LockAndTake(c));
    ServedTickets(d, c);
    forall j | 0 <= j < |d.served| ensures d.served[j].0 in Tickets(d) {}
    forall t | 0 <= t < d'.next ensures t in d'.waiting.Values || t in Tickets(d') {
      if t != d.waiting[c] && t in d.waiting.Values {
        var c' :| c' in d.waiting && d.waiting[c'] == t;
        assert d'.waiting[c'] == t;
      }
    }
  }

  lemma ServeKeepsSlots<R>(d: Desk<R>, canned: seq<R>, c: nat)
    requires SlotsInOrder(d, canned) && c in d.waiting && d.waiting[c] !in Tickets(d)
    ensures SlotsInOrder(Advance(d, LockAndTake(c)), canned)
  {
    ServedTickets(d, c);
  }

  lemma {:induction false} RunIsOrderly<R>(d: Desk<R>, canned: seq<R>, steps: seq<Step>)
    requires TicketsInOrder(d) && SlotsInOrder(d, canned)
    ensures TicketsInOrder(RunDesk(d, steps)) && SlotsInOrder(RunDesk(d, steps), canned)
    decreases |steps|
  {
    if steps != [] {
      var d' := Advance(d, steps[0]);
      match steps[0] {
        case FetchAdd(c) => if c !in d.waiting { DrawKeepsOrder(d, canned, c); }
        case LockAndTake(c) => if c in d.waiting { ServeKeepsTickets(d, c); ServeKeepsSlots(d, canned, c); }
      }
      RunIsOrderly(d', canned, steps[1..]);
    }
  }

  // A caller that holds no ticket draws the next one, and one that does is served for it and goes.
  lemma DrawAndServe<R>(d: Desk<R>, c: nat)
    ensures c !in d.waiting ==>
      var d' := Advance(d, FetchAdd(c));
      && d'.next == d.next + 1 && d'.waiting == d.waiting[c := d.next]
      && d'.served == d.served && d'.slots == d.slots
    ensures c in d.waiting ==>
      var d' := Advance(d, LockAndTake(c));
      && d'.next == d.next && d'.waiting == d.waiting - {c}
      && |d'.served| == |d.served| + 1 && d'.served[..|d.served|] == d.served
      && d'.served[|d.served|].0 == d.waiting[c]
  {
  }

  // One call after the other.
  function CallsInTurn(n: nat): seq<Step> {
    if n == 0 then [] else CallsInTurn(n - 1) + [FetchAdd(0), LockAndTake(0)]
  }

  lemma {:induction false} RunDeskConcat<R>(d: Desk<R>, a: seq<Step>, b: seq<Step>)
    ensures RunDesk(d, a + b) == RunDesk(RunDesk(d, a), b)
    decreases |a|
  {
    if a == [] {
      assert a + b == b;
    } else {
      assert (a + b)[1..] == a[1..] + b;
      RunDeskConcat(Advance(d, a[0]), a[1..], b);
    }
  }

  // A single caller gets the canned results in order, and the empty-buffer error from then on.
  lemma {:induction false} ServedInTurn<R>(canned: seq<R>, n: nat)
    ensures RunDesk(Fresh(canned), CallsInTurn(n)).served == seq(n, k requires 0 <= k < n => (k, Due(canned, k)))
    ensures RunDesk(Fresh(canned), CallsInTurn(n)).next == n
    ensures RunDesk(Fresh(canned), CallsInTurn(n)).waiting == map[]
  {
    if n > 0 {
      var call := [FetchAdd(0), LockAndTake(0)];
      var d := RunDesk(Fresh(canned), CallsInTurn(n - 1));
      ServedInTurn(canned, n - 1);
      RunIsOrderly(Fresh(canned), canned, CallsInTurn(n - 1));
      RunDeskConcat(Fresh(canned), CallsInTurn(n - 1), call);
      assert call[1..] == [LockAndTake(0)] && call[1..][1..] == [];
      var d1 := Advance(d, FetchAdd(0));
      DrawAndServe(d, 0);
      DrawAndServe(d1, 0);
      var d2 := Advance(d1, LockAndTake(0));
      assert RunDesk(d, call) == d2;
      forall t | t in Tickets(d) ensures t < n - 1 {}
      assert d2.waiting == map[];
    }
  }

  // Under every interleaving: each served call holds its own ticket k and gets entry k or, past the end,
  // the empty-buffer error; no canned result is handed out twice, and "consumed already" never occurs.
  // Once nobody waits, the tickets served are all the tickets drawn.
  lemma ResultsAreUsedOnce<R>(canned: seq<R>, steps: seq<Step>)
    ensures var d := RunDesk(Fresh(canned), steps);
            && (forall j, k :: 0 <= j < k < |d.served| ==> d.served[j].0 != d.served[k].0)
            && (forall j :: 0 <= j < |d.served| ==>
                  d.served[j].1 == Due(canned, d.served[j].0) && !d.served[j].1.ConsumedAlready?)
            && (d.waiting == map[] ==> forall t: nat :: t in Tickets(d) <==> t < d.next)
  {
    RunIsOrderly(Fresh(canned), canned, steps);
  }
}
