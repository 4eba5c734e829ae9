/** The pending-request queue: guests waiting per channel, their total, and the
    set of (channel, sequence) pairs they stand for. */
module Queue {
  import opened Guests
  import opened Traversal

  /** Sum of all queued counts (`sum(pending_requests.values())`). */
  ghost function Total(m: map<nat, nat>): (t: nat)
    ensures forall c :: c in m ==> m[c] <= t
    decreases m.Keys
  {
    if m.Keys == {} then 0
    else
      var c :| c in m.Keys;
      assert forall d :: d in m && d != c ==> d in m - {c} && (m - {c})[d] == m[d];
      m[c] + Total(m - {c})
  }

  /** The total does not depend on which channel is taken out first. */
  lemma {:induction false} TotalRemove(m: map<nat, nat>, c: nat)
    requires c in m
    ensures Total(m) == m[c] + Total(m - {c})
    decreases m.Keys
  {
    var d :| d in m.Keys && Total(m) == m[d] + Total(m - {d});
    if d != c {
      TotalRemove(m - {d}, c);
      TotalRemove(m - {c}, d);
      assert m - {d} - {c} == m - {c} - {d};
    }
  }

  /** One queued channel never holds more guests than the whole queue. */
  lemma CountAtMostTotal(m: map<nat, nat>, c: nat)
    ensures Count(m, c) <= Total(m)
  {
    if c in m {
      TotalRemove(m, c);
    }
  }

  /** A non-empty queue of positive counts has a positive total. */
  lemma TotalPositive(m: map<nat, nat>)
    requires m.Keys != {} && forall c :: c in m ==> m[c] >= 1
    ensures Total(m) >= 1
  {
    var c :| c in m;
    TotalRemove(m, c);
  }

  /** Adding `n` guests to channel `c` raises the total by exactly `n`. */
  lemma TotalAdd(m: map<nat, nat>, c: nat, n: nat)
    ensures Total(m[c := Count(m, c) + n]) == Total(m) + n
  {
    var m' := m[c := Count(m, c) + n];
    TotalRemove(m', c);
    if c in m {
      TotalRemove(m, c);
      assert m' - {c} == m - {c};
    } else {
      assert m' - {c} == m;
    }
  }

  /** Every guest the queue stands for: sequence `1..m[c]` of each queued channel `c`. */
  ghost function Queued(m: map<nat, nat>): set<Pair>
  {
    set c, s | c in m && 1 <= s <= m[c] :: Pair(c, s)
  }

  ghost function ChannelGuests(c: nat, n: nat): set<Pair>
  {
    set s | 1 <= s <= n :: Pair(c, s)
  }

  lemma {:induction false} ChannelGuestsCard(c: nat, n: nat)
    ensures |ChannelGuests(c, n)| == n
  {
    if n > 0 {
      ChannelGuestsCard(c, n - 1);
      assert ChannelGuests(c, n) == ChannelGuests(c, n - 1) + {Pair(c, n)};
    }
  }

  /** The queue stands for exactly `Total(m)` distinct guests. */
  lemma {:induction false} QueuedCard(m: map<nat, nat>)
    ensures |Queued(m)| == Total(m)
    decreases m.Keys
  {
    if m.Keys != {} {
      var c :| c in m;
      TotalRemove(m, c);
      QueuedCard(m - {c});
      ChannelGuestsCard(c, m[c]);
      QueuedSplit(m, c);
    }
  }

  /** Taking channel `c` out of the queue splits its guests off from the rest. */
  lemma QueuedSplit(m: map<nat, nat>, c: nat)
    requires c in m
    ensures Queued(m) == Queued(m - {c}) + ChannelGuests(c, m[c])
    ensures Queued(m - {c}) !! ChannelGuests(c, m[c])
  {
  }

  /** Computes `sum(pending_requests.values())` channel by channel. */
  method SumOfCounts(m: map<nat, nat>) returns (total: nat)
    ensures total == Total(m)
  {
    total := 0;
    var rest := m;
    while rest.Keys != {}
      invariant total + Total(rest) == Total(m)
      decreases rest.Keys
    {
      var c :| c in rest;
      TotalRemove(rest, c);
      total := total + rest[c];
      rest := rest - {c};
    }
  }
}
