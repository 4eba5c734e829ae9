/** One call of `assign_pending_guests`, as a function of the state it starts
    from: the pairs of `Order(2 * total)` are visited one by one, and each pair
    that the queue holds gets a guest, a round and a vacant room. */
module Batch {
  import opened Guests
  import opened Probing
  import opened Traversal
  import opened Queue

  /** What a batch reads but never changes: the queue, its total and the two bases. */
  datatype Setup = Setup(pending: map<nat, nat>, total: nat, base1: nat, base2: nat)

  /** What a batch changes: the rooms, the round counters, the channels that
      already received a guest in this batch, and the number of guests assigned so far. */
  datatype State = State(rooms: map<int, Guest>, thod: map<Tag, nat>, processed: set<nat>, assignedCount: nat)

  /** Gives guest `p` its round and its room (`create_and_assign`). The channel's
      counter goes up the first time the channel receives a guest in this batch. */
  function Assign(setup: Setup, st: State, p: Pair): (r: State)
    ensures Extends(st.rooms, r.rooms) && |r.rooms| == |st.rooms| + 1
    ensures r.assignedCount == st.assignedCount + 1 && p.channel in r.processed
  {
    var tag := Numbered(p.channel);
    var thod := if p.channel in st.processed then st.thod else st.thod[tag := Count(st.thod, tag) + 1];
    var guest := Guest(tag, Numbered(p.sequence), Count(thod, tag));
    var room := Probe(st.rooms.Keys, NominalRoom(setup.base1, setup.base2, p.sequence, p.channel));
    State(st.rooms[room := guest], thod, st.processed + {p.channel}, st.assignedCount + 1)
  }

  /** One candidate pair: assigned while the batch is short of its total and the
      channel has at least `p.sequence` queued guests. */
  function Visit(setup: Setup, st: State, p: Pair): (r: State)
    ensures Extends(st.rooms, r.rooms)
    ensures st.assignedCount <= setup.total ==> r.assignedCount <= setup.total
  {
    if st.assignedCount < setup.total && Count(setup.pending, p.channel) >= p.sequence
    then Assign(setup, st, p)
    else st
  }

  /** Visits the pairs of `ps` in order. */
  function VisitAll(setup: Setup, st: State, ps: seq<Pair>): (r: State)
    ensures st.assignedCount <= setup.total ==> r.assignedCount <= setup.total
    decreases |ps|
  {
    if ps == [] then st
    else Visit(setup, VisitAll(setup, st, ps[..|ps| - 1]), ps[|ps| - 1])
  }

  /** The whole batch: layers `1..2 * total` from an empty `processed` set and no guest assigned yet. */
  ghost function RunBatch(rooms: map<int, Guest>, thod: map<Tag, nat>, pending: map<nat, nat>,
                          base1: nat, base2: nat): (r: State)
    ensures r.assignedCount <= Total(pending)
  {
    var total := Total(pending);
    VisitAll(Setup(pending, total, base1, base2), State(rooms, thod, {}, 0), Order(2 * total))
  }

  /** Guests that the queue holds and that a batch can reach: channels `1..2 * total`. */
  ghost function Reachable(pending: map<nat, nat>): set<Pair>
  {
    set p | p in Queued(pending) && 1 <= p.channel <= 2 * Total(pending)
  }

  // ---------------------------------------------------------------------------
  // Facts about the fold

  lemma {:induction false} VisitAllAppend(setup: Setup, st: State, a: seq<Pair>, b: seq<Pair>)
    ensures VisitAll(setup, st, a + b) == VisitAll(setup, VisitAll(setup, st, a), b)
    decreases |b|
  {
    if b == [] {
      assert a + b == a;
    } else {
      VisitAllAppend(setup, st, a, b[..|b| - 1]);
      assert (a + b)[..|a + b| - 1] == a + b[..|b| - 1];
    }
  }

  /** Visiting one more pair is one more step of the fold. */
  lemma VisitAllSnoc(setup: Setup, st: State, ps: seq<Pair>, p: Pair)
    ensures VisitAll(setup, st, ps + [p]) == Visit(setup, VisitAll(setup, st, ps), p)
  {
    assert (ps + [p])[..|ps + [p]| - 1] == ps;
  }

  /** Once the batch has assigned its total, no later pair changes anything:
      stopping the layer loop early gives the same result as running all layers. */
  lemma {:induction false} VisitAllSaturated(setup: Setup, st: State, ps: seq<Pair>)
    requires st.assignedCount >= setup.total
    ensures VisitAll(setup, st, ps) == st
    decreases |ps|
  {
    if ps != [] {
      VisitAllSaturated(setup, st, ps[..|ps| - 1]);
    }
  }

  // ---------------------------------------------------------------------------
  // The invariant of the fold

  predicate Eligible(pending: map<nat, nat>, p: Pair)
  {
    1 <= p.sequence <= Count(pending, p.channel)
  }

  /** The pairs of `ps` that the queue holds. */
  ghost function Accepted(pending: map<nat, nat>, ps: seq<Pair>): set<Pair>
  {
    set i | 0 <= i < |ps| && Eligible(pending, ps[i]) :: ps[i]
  }

  /** The (channel, sequence) pairs of the guests in `rooms` that are not in `before`. */
  ghost function Placed(before: map<int, Guest>, rooms: map<int, Guest>): set<Pair>
  {
    set r | r in rooms && r !in before && rooms[r].channel.Numbered? && rooms[r].sequence.Numbered?
      :: Pair(rooms[r].channel.id, rooms[r].sequence.id)
  }

  function Square(j: nat): nat
  {
    j * j
  }

  /** `room` is on the probe path from `original`: `original + j * j` for some `j`. */
  ghost predicate OnProbePath(room: int, original: int)
  {
    exists j: nat :: room == original + Square(j)
  }

  /** Every binding of `before` is still there, unchanged. */
  ghost predicate Extends(before: map<int, Guest>, rooms: map<int, Guest>)
  {
    forall r :: r in before ==> r in rooms && rooms[r] == before[r]
  }

  /** The rooms that are new since `before` hold numbered guests whose round is
      their channel's counter and whose room lies on the probe path of their nominal room. */
  ghost predicate NewGuestsWellFormed(setup: Setup, before: map<int, Guest>, st: State)
  {
    forall r :: r in st.rooms && r !in before ==>
      && st.rooms[r].channel.Numbered? && st.rooms[r].sequence.Numbered?
      && st.rooms[r].round == Count(st.thod, st.rooms[r].channel)
      && OnProbePath(r, NominalRoom(setup.base1, setup.base2, st.rooms[r].sequence.id, st.rooms[r].channel.id))
  }

  /** No two new rooms hold the same (channel, sequence). */
  ghost predicate NewGuestsDistinct(before: map<int, Guest>, rooms: map<int, Guest>)
  {
    forall r1, r2 :: r1 in rooms && r1 !in before && r2 in rooms && r2 !in before && r1 != r2 ==>
      rooms[r1].channel != rooms[r2].channel || rooms[r1].sequence != rooms[r2].sequence
  }

  /** Each counter is its starting value, plus one for the channels that received a guest. */
  ghost predicate CountersBumped(thod0: map<Tag, nat>, processed: set<nat>, thod: map<Tag, nat>)
  {
    && (forall t :: Count(thod, t) == Count(thod0, t) + (if t.Numbered? && t.id in processed then 1 else 0))
    && thod.Keys == thod0.Keys + set c | c in processed :: Numbered(c)
  }

  ghost function Channels(a: set<Pair>): set<nat>
  {
    set p | p in a :: p.channel
  }

  /** What holds after the pairs `a` have been assigned, starting from `rooms0` and `thod0`. */
  ghost predicate Inv(setup: Setup, rooms0: map<int, Guest>, thod0: map<Tag, nat>, a: set<Pair>, st: State)
  {
    && st.assignedCount == |a|
    && Extends(rooms0, st.rooms)
    && NewGuestsWellFormed(setup, rooms0, st)
    && Placed(rooms0, st.rooms) == a
    && NewGuestsDistinct(rooms0, st.rooms)
    && |st.rooms| == |rooms0| + |a|
    && st.processed == Channels(a)
    && CountersBumped(thod0, st.processed, st.thod)
  }

  lemma PlacedAdd(before: map<int, Guest>, rooms: map<int, Guest>, room: int, g: Guest)
    requires room !in rooms && Extends(before, rooms)
    requires g.channel.Numbered? && g.sequence.Numbered?
    ensures Placed(before, rooms[room := g]) == Placed(before, rooms) + {Pair(g.channel.id, g.sequence.id)}
  {
    var rooms' := rooms[room := g];
    forall x | x in Placed(before, rooms')
      ensures x in Placed(before, rooms) + {Pair(g.channel.id, g.sequence.id)}
    {
      var r :| r in rooms' && r !in before && rooms'[r].channel.Numbered? && rooms'[r].sequence.Numbered?
        && x == Pair(rooms'[r].channel.id, rooms'[r].sequence.id);
      if r != room {
        assert x in Placed(before, rooms);
      }
    }
    assert room in rooms' && room !in before;
    assert Pair(g.channel.id, g.sequence.id) in Placed(before, rooms');
    forall x | x in Placed(before, rooms)
      ensures x in Placed(before, rooms')
    {
      var r :| r in rooms && r !in before && rooms[r].channel.Numbered? && rooms[r].sequence.Numbered?
        && x == Pair(rooms[r].channel.id, rooms[r].sequence.id);
      assert r != room && rooms'[r] == rooms[r];
    }
  }

  /** The room `Assign` chooses for `p`: vacant, and on the probe path of `p`'s nominal room. */
  lemma AssignRoom(setup: Setup, st: State, p: Pair)
    ensures var original := NominalRoom(setup.base1, setup.base2, p.sequence, p.channel);
            var room := Probe(st.rooms.Keys, original);
            && room !in st.rooms
            && OnProbePath(room, original)
            && Assign(setup, st, p).rooms == st.rooms[room := Assign(setup, st, p).rooms[room]]
  {
    var original := NominalRoom(setup.base1, setup.base2, p.sequence, p.channel);
    var j := ProbeFrom(st.rooms.Keys, original, 0);
    assert Probe(st.rooms.Keys, original) == original + Square(j);
  }

  lemma StepWellFormed(setup: Setup, rooms0: map<int, Guest>, a: set<Pair>, st: State, p: Pair)
    requires NewGuestsWellFormed(setup, rooms0, st) && Extends(rooms0, st.rooms)
    requires Placed(rooms0, st.rooms) == a && st.processed == Channels(a)
    ensures NewGuestsWellFormed(setup, rooms0, Assign(setup, st, p))
  {
    var st' := Assign(setup, st, p);
    AssignRoom(setup, st, p);
    forall r | r in st.rooms && r !in rooms0
      ensures Count(st'.thod, st.rooms[r].channel) == Count(st.thod, st.rooms[r].channel)
    {
      var q := Pair(st.rooms[r].channel.id, st.rooms[r].sequence.id);
      assert q in a;
      assert q.channel in Channels(a);
    }
  }

  lemma StepDistinct(rooms0: map<int, Guest>, a: set<Pair>, st: State, setup: Setup, p: Pair)
    requires NewGuestsDistinct(rooms0, st.rooms) && Extends(rooms0, st.rooms)
    requires NewGuestsWellFormed(setup, rooms0, st)
    requires Placed(rooms0, st.rooms) == a && p !in a
    ensures NewGuestsDistinct(rooms0, Assign(setup, st, p).rooms)
  {
    AssignRoom(setup, st, p);
  }

  lemma StepCounters(thod0: map<Tag, nat>, st: State, setup: Setup, p: Pair)
    requires CountersBumped(thod0, st.processed, st.thod)
    ensures CountersBumped(thod0, Assign(setup, st, p).processed, Assign(setup, st, p).thod)
  {
    var st' := Assign(setup, st, p);
    assert (set c | c in st'.processed :: Numbered(c)) == (set c | c in st.processed :: Numbered(c)) + {Numbered(p.channel)};
  }

  lemma StepSizes(setup: Setup, rooms0: map<int, Guest>, a: set<Pair>, st: State, p: Pair)
    requires Extends(rooms0, st.rooms) && |st.rooms| == |rooms0| + |a| && st.assignedCount == |a|
    requires p !in a
    ensures Extends(rooms0, Assign(setup, st, p).rooms)
    ensures |Assign(setup, st, p).rooms| == |rooms0| + |a + {p}|
    ensures Assign(setup, st, p).assignedCount == |a + {p}|
  {
    AssignRoom(setup, st, p);
  }

  /** Assigning one more queued pair keeps the invariant, with that pair added. */
  lemma AssignStep(setup: Setup, rooms0: map<int, Guest>, thod0: map<Tag, nat>, a: set<Pair>, st: State, p: Pair)
    requires Inv(setup, rooms0, thod0, a, st)
    requires p !in a
    ensures Inv(setup, rooms0, thod0, a + {p}, Assign(setup, st, p))
  {
    var st' := Assign(setup, st, p);
    AssignRoom(setup, st, p);
    var room := Probe(st.rooms.Keys, NominalRoom(setup.base1, setup.base2, p.sequence, p.channel));
    PlacedAdd(rooms0, st.rooms, room, st'.rooms[room]);
    StepWellFormed(setup, rooms0, a, st, p);
    StepDistinct(rooms0, a, st, setup, p);
    StepCounters(thod0, st, setup, p);
    StepSizes(setup, rooms0, a, st, p);
    ChannelsAdd(a, p);
  }

  lemma ChannelsAdd(a: set<Pair>, p: Pair)
    ensures Channels(a + {p}) == Channels(a) + {p.channel}
  {
  }

  lemma AcceptedSnoc(pending: map<nat, nat>, ps: seq<Pair>)
    requires ps != []
    ensures var q, p := ps[..|ps| - 1], ps[|ps| - 1];
            Accepted(pending, ps) == Accepted(pending, q) + (if Eligible(pending, p) then {p} else {})
  {
    var q, p := ps[..|ps| - 1], ps[|ps| - 1];
    forall x | x in Accepted(pending, ps)
      ensures x in Accepted(pending, q) + (if Eligible(pending, p) then {p} else {})
    {
      var i :| 0 <= i < |ps| && Eligible(pending, ps[i]) && x == ps[i];
      if i < |q| {
        assert q[i] == x;
      }
    }
    forall x | x in Accepted(pending, q)
      ensures x in Accepted(pending, ps)
    {
      var i :| 0 <= i < |q| && Eligible(pending, q[i]) && x == q[i];
      assert ps[i] == x;
    }
    if Eligible(pending, p) {
      assert ps[|ps| - 1] == p;
    }
  }

  /** Every accepted pair is a guest the queue holds. */
  lemma AcceptedQueued(pending: map<nat, nat>, ps: seq<Pair>)
    ensures Accepted(pending, ps) <= Queued(pending)
  {
    forall x | x in Accepted(pending, ps)
      ensures x in Queued(pending)
    {
      assert x.channel in pending;
      assert x == Pair(x.channel, x.sequence);
    }
  }

  lemma InvStart(setup: Setup, rooms0: map<int, Guest>, thod0: map<Tag, nat>)
    ensures Inv(setup, rooms0, thod0, {}, State(rooms0, thod0, {}, 0))
  {
    assert Placed(rooms0, rooms0) == {};
    assert (set c | c in {} :: Numbered(c)) == {};
  }

  /** Visiting one pair: a queued pair not yet assigned is assigned (the batch is
      still short of its total), any other pair changes nothing. */
  lemma VisitStep(setup: Setup, rooms0: map<int, Guest>, thod0: map<Tag, nat>, a: set<Pair>, st: State, p: Pair)
    requires setup.total == Total(setup.pending)
    requires Inv(setup, rooms0, thod0, a, st)
    requires a <= Queued(setup.pending) && p.sequence >= 1
    requires Eligible(setup.pending, p) ==> p !in a
    ensures Inv(setup, rooms0, thod0, a + (if Eligible(setup.pending, p) then {p} else {}), Visit(setup, st, p))
  {
    if Eligible(setup.pending, p) {
      VisitQueued(setup, rooms0, thod0, a, st, p);
    } else {
      VisitSkipped(setup, rooms0, thod0, a, st, p);
    }
  }

  lemma VisitQueued(setup: Setup, rooms0: map<int, Guest>, thod0: map<Tag, nat>, a: set<Pair>, st: State, p: Pair)
    requires setup.total == Total(setup.pending)
    requires Inv(setup, rooms0, thod0, a, st)
    requires a <= Queued(setup.pending) && Eligible(setup.pending, p) && p !in a
    ensures Inv(setup, rooms0, thod0, a + {p}, Visit(setup, st, p))
  {
    RoomForQueued(setup.pending, a, p);
    AssignStep(setup, rooms0, thod0, a, st, p);
  }

  lemma VisitSkipped(setup: Setup, rooms0: map<int, Guest>, thod0: map<Tag, nat>, a: set<Pair>, st: State, p: Pair)
    requires Inv(setup, rooms0, thod0, a, st)
    requires !Eligible(setup.pending, p) && p.sequence >= 1
    ensures Inv(setup, rooms0, thod0, a + {}, Visit(setup, st, p))
  {
    assert a + {} == a;
  }

  /** While a queued guest is still unassigned, fewer than `total` guests have been assigned. */
  lemma RoomForQueued(pending: map<nat, nat>, a: set<Pair>, p: Pair)
    requires a <= Queued(pending) && Eligible(pending, p) && p !in a
    ensures |a| < Total(pending)
  {
    assert p in Queued(pending) by {
      assert p.channel in pending;
      assert p == Pair(p.channel, p.sequence);
    }
    SubsetCard(a, Queued(pending) - {p});
    QueuedCard(pending);
  }

  /** The fold over any duplicate-free sequence of pairs assigns exactly the
      pairs of the sequence that the queue holds: the `assigned < total` guard
      never turns a queued guest away, because the queue holds only `total` guests. */
  lemma {:induction false} VisitAllInv(setup: Setup, rooms0: map<int, Guest>, thod0: map<Tag, nat>, ps: seq<Pair>)
    requires setup.total == Total(setup.pending)
    requires NoDup(ps) && forall i :: 0 <= i < |ps| ==> ps[i].sequence >= 1
    ensures Inv(setup, rooms0, thod0, Accepted(setup.pending, ps), VisitAll(setup, State(rooms0, thod0, {}, 0), ps))
    decreases |ps|
  {
    if ps == [] {
      assert Accepted(setup.pending, ps) == {};
      InvStart(setup, rooms0, thod0);
    } else {
      var q, p := ps[..|ps| - 1], ps[|ps| - 1];
      VisitAllInv(setup, rooms0, thod0, q);
      var a := Accepted(setup.pending, q);
      AcceptedSnoc(setup.pending, ps);
      AcceptedQueued(setup.pending, q);
      VisitStep(setup, rooms0, thod0, a, VisitAll(setup, State(rooms0, thod0, {}, 0), q), p);
    }
  }

  /** The pairs a batch accepts are exactly the reachable queued guests. */
  lemma AcceptedOrder(pending: map<nat, nat>)
    ensures Accepted(pending, Order(2 * Total(pending))) == Reachable(pending)
  {
    var n := 2 * Total(pending);
    var o := Order(n);
    forall x | x in Accepted(pending, o)
      ensures x in Reachable(pending)
    {
      var i :| 0 <= i < |o| && Eligible(pending, o[i]) && x == o[i];
      OrderMembers(n, x);
      AcceptedQueued(pending, o);
    }
    forall x | x in Reachable(pending)
      ensures x in Accepted(pending, o)
    {
      var c, s :| c in pending && 1 <= s <= pending[c] && x == Pair(c, s);
      CountAtMostTotal(pending, c);
      OrderPosition(n, x);
      assert o[Position(x)] == x;
    }
  }

  /** The invariant holds at the end of a batch, for exactly the reachable queued guests. */
  lemma BatchInv(rooms: map<int, Guest>, thod: map<Tag, nat>, pending: map<nat, nat>, base1: nat, base2: nat)
    ensures Inv(Setup(pending, Total(pending), base1, base2), rooms, thod, Reachable(pending),
                RunBatch(rooms, thod, pending, base1, base2))
  {
    var n := 2 * Total(pending);
    OrderNoDup(n);
    forall i | 0 <= i < |Order(n)|
      ensures Order(n)[i].sequence >= 1
    {
      OrderMembers(n, Order(n)[i]);
    }
    VisitAllInv(Setup(pending, Total(pending), base1, base2), rooms, thod, Order(n));
    AcceptedOrder(pending);
  }

  // ---------------------------------------------------------------------------
  // What a batch guarantees

  /** A batch never overwrites or removes an existing binding. */
  lemma BatchKeepsBindings(rooms: map<int, Guest>, thod: map<Tag, nat>, pending: map<nat, nat>, base1: nat, base2: nat)
    ensures Extends(rooms, RunBatch(rooms, thod, pending, base1, base2).rooms)
  {
    BatchInv(rooms, thod, pending, base1, base2);
  }

  /** A batch gives a room to every reachable queued guest and to no one else,
      one room per guest, each on the probe path of the guest's nominal room;
      the registry grows by exactly that many rooms, at most the queue's total. */
  lemma BatchPlacesReachable(rooms: map<int, Guest>, thod: map<Tag, nat>, pending: map<nat, nat>, base1: nat, base2: nat)
    ensures var st := RunBatch(rooms, thod, pending, base1, base2);
            && Placed(rooms, st.rooms) == Reachable(pending)
            && NewGuestsDistinct(rooms, st.rooms)
            && (forall r :: r in st.rooms && r !in rooms ==>
                  && st.rooms[r].channel.Numbered? && st.rooms[r].sequence.Numbered?
                  && OnProbePath(r, NominalRoom(base1, base2, st.rooms[r].sequence.id, st.rooms[r].channel.id)))
            && |st.rooms| == |rooms| + |Reachable(pending)|
            && st.assignedCount == |Reachable(pending)| <= Total(pending)
  {
    BatchInv(rooms, thod, pending, base1, base2);
    SubsetCard(Reachable(pending), Queued(pending));
    QueuedCard(pending);
  }

  /** When every queued channel lies in `1..2 * total`, every queued guest gets
      exactly one room and the registry grows by the queue's total. */
  lemma BatchComplete(rooms: map<int, Guest>, thod: map<Tag, nat>, pending: map<nat, nat>, base1: nat, base2: nat)
    requires forall c :: c in pending ==> 1 <= c <= 2 * Total(pending)
    ensures var st := RunBatch(rooms, thod, pending, base1, base2);
            && Placed(rooms, st.rooms) == Queued(pending)
            && NewGuestsDistinct(rooms, st.rooms)
            && |st.rooms| == |rooms| + Total(pending)
            && st.assignedCount == Total(pending)
  {
    BatchPlacesReachable(rooms, thod, pending, base1, base2);
    assert Reachable(pending) == Queued(pending);
    QueuedCard(pending);
  }

  /** A queued channel outside `1..2 * total` is never visited: none of its
      guests gets a room, and the queue is cleared all the same. */
  lemma BatchDropsUnreachable(rooms: map<int, Guest>, thod: map<Tag, nat>, pending: map<nat, nat>,
                              base1: nat, base2: nat, c: nat)
    requires c in pending && (c == 0 || c > 2 * Total(pending))
    ensures var st := RunBatch(rooms, thod, pending, base1, base2);
            forall r :: r in st.rooms && r !in rooms ==> st.rooms[r].channel != Numbered(c)
  {
    var st := RunBatch(rooms, thod, pending, base1, base2);
    BatchPlacesReachable(rooms, thod, pending, base1, base2);
    forall r | r in st.rooms && r !in rooms
      ensures st.rooms[r].channel != Numbered(c)
    {
      var p := Pair(st.rooms[r].channel.id, st.rooms[r].sequence.id);
      assert p in Placed(rooms, st.rooms);
    }
  }

  /** Each channel that receives a guest in the batch has its counter raised by
      exactly one; other counters are unchanged; every guest placed in the batch
      carries its channel's new counter as its round. */
  lemma BatchRounds(rooms: map<int, Guest>, thod: map<Tag, nat>, pending: map<nat, nat>, base1: nat, base2: nat)
    ensures var st := RunBatch(rooms, thod, pending, base1, base2);
            && CountersBumped(thod, Channels(Reachable(pending)), st.thod)
            && forall r :: r in st.rooms && r !in rooms ==> st.rooms[r].round == Count(st.thod, st.rooms[r].channel)
  {
    BatchInv(rooms, thod, pending, base1, base2);
  }

  /** A batch keeps the counters positive and ahead of every occupant's round. */
  lemma BatchKeepsRoundsValid(rooms: map<int, Guest>, thod: map<Tag, nat>, pending: map<nat, nat>, base1: nat, base2: nat)
    requires RoundsValid(rooms, thod) && CountersPositive(thod)
    ensures var st := RunBatch(rooms, thod, pending, base1, base2);
            RoundsValid(st.rooms, st.thod) && CountersPositive(st.thod)
  {
    var st := RunBatch(rooms, thod, pending, base1, base2);
    BatchInv(rooms, thod, pending, base1, base2);
    var bumped := Channels(Reachable(pending));
    assert st.processed == bumped;
    forall t | t in st.thod
      ensures st.thod[t] >= 1
    {
      assert Count(st.thod, t) == Count(thod, t) + (if t.Numbered? && t.id in bumped then 1 else 0);
    }
    forall r | r in st.rooms
      ensures st.rooms[r].channel in st.thod && 1 <= st.rooms[r].round <= st.thod[st.rooms[r].channel]
    {
      var t := st.rooms[r].channel;
      assert Count(st.thod, t) == Count(thod, t) + (if t.Numbered? && t.id in bumped then 1 else 0);
      if r in rooms {
        assert st.rooms[r] == rooms[r];
      } else {
        var p := Pair(t.id, st.rooms[r].sequence.id);
        assert p in Placed(rooms, st.rooms);
        assert t.id in bumped;
      }
    }
  }
}
