/** The values the hotel stores: guests, their channel and sequence tags, and
    the counters kept per channel. */
module Guests {

  /** A channel or sequence field: a non-negative number for guests that arrive
      in a group (channel 0 is never visited by a batch), or the `Manual` marker
      the console passes for a guest added by hand. */
  datatype Tag = Numbered(id: nat) | Manual

  /** One guest: the channel it arrived on, its position in that channel, and
      the round (the channel's counter) at the time it was given a room. */
  datatype Guest = Guest(channel: Tag, sequence: Tag, round: nat)

  datatype Option<T> = None | Some(value: T)

  /** The value stored under `k`, or 0 when `k` is absent (`dict.get(k, 0)`). */
  function Count<K>(m: map<K, nat>, k: K): nat
  {
    if k in m then m[k] else 0
  }

  /** Every round counter has been advanced at least once. */
  ghost predicate CountersPositive(thod: map<Tag, nat>)
  {
    forall c :: c in thod ==> thod[c] >= 1
  }

  /** Every occupant's channel has a round counter, and the occupant's round
      lies between 1 and that counter: counters never fall behind their guests. */
  ghost predicate RoundsValid(rooms: map<int, Guest>, thod: map<Tag, nat>)
  {
    forall r :: r in rooms ==>
      rooms[r].channel in thod && 1 <= rooms[r].round <= thod[rooms[r].channel]
  }
}
