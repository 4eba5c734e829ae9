/** The room-allocation engine `HilbertHotel`: the registry of occupied rooms,
    the queue of guest groups waiting for rooms, the per-channel round counters
    and the two prime bases of the room formula. */
module Hotel {
  import opened Guests
  import opened Primes
  import opened Probing
  import opened Traversal
  import opened Queue
  import opened Batch
  import HeapSort

  class HilbertHotel {
    /** Occupied room number -> its guest. */
    var rooms: map<int, Guest>
    /** Channel -> number of guests queued on it. */
    var pendingRequests: map<nat, nat>
    /** Channel (or the manual marker) -> its round counter. */
    var thod: map<Tag, nat>
    /** The two prime bases of the room formula. */
    var lastPrimeRoom: (nat, nat)

    /** What every operation keeps: two increasing prime bases, positive queued
        counts, and round counters that are positive and ahead of every occupant. */
    ghost predicate Valid()
      reads this
    {
      && IsPrime(lastPrimeRoom.0) && IsPrime(lastPrimeRoom.1) && lastPrimeRoom.0 < lastPrimeRoom.1
      && (forall c :: c in pendingRequests ==> pendingRequests[c] >= 1)
      && CountersPositive(thod)
      && RoundsValid(rooms, thod)
    }

    /** A new hotel: nobody in, nothing queued, bases 2 and 3. */
    constructor ()
      ensures Valid()
      ensures rooms == map[] && pendingRequests == map[] && thod == map[]
      ensures lastPrimeRoom == (2, 3)
    {
      rooms := map[];
      pendingRequests := map[];
      thod := map[];
      lastPrimeRoom := (2, 3);
      assert IsPrime(2) && IsPrime(3);
    }

    /** `add_guest_group`: a request for fewer than one guest is refused;
        otherwise the channel's queued count grows by `numGuests`. */
    method AddGuestGroup(channelId: nat, numGuests: int)
      requires Valid()
      modifies this
      ensures Valid()
      ensures numGuests < 1 ==> pendingRequests == old(pendingRequests)
      ensures numGuests >= 1 ==>
                pendingRequests == old(pendingRequests)[channelId := Count(old(pendingRequests), channelId) + numGuests]
      ensures numGuests >= 1 ==> Total(pendingRequests) == Total(old(pendingRequests)) + numGuests
      ensures rooms == old(rooms) && thod == old(thod) && lastPrimeRoom == old(lastPrimeRoom)
    {
      if numGuests < 1 {
        return;
      }
      TotalAdd(pendingRequests, channelId, numGuests);
      pendingRequests := pendingRequests[channelId := Count(pendingRequests, channelId) + numGuests];
    }

    /** `create_and_assign`: raises the channel's counter on its first guest of
        the batch, then binds the guest to its nominal room or, when that is
        taken, to the first vacant `original + i * i`. */
    method CreateAndAssign(ghost setup: Setup, ch: nat, sequence: nat, processed: set<nat>, assignedCount: nat)
      returns (processed': set<nat>, assignedCount': nat)
      requires setup.base1 == lastPrimeRoom.0 && setup.base2 == lastPrimeRoom.1
      requires forall c :: c in processed ==> Numbered(c) in thod
      modifies this
      ensures State(rooms, thod, processed', assignedCount')
              == Assign(setup, State(old(rooms), old(thod), processed, assignedCount), Pair(ch, sequence))
      ensures forall c :: c in processed' ==> Numbered(c) in thod
      ensures pendingRequests == old(pendingRequests) && lastPrimeRoom == old(lastPrimeRoom)
    {
      var tag := Numbered(ch);
      processed' := processed;
      if ch !in processed {
        thod := thod[tag := Count(thod, tag) + 1];
        processed' := processed + {ch};
      }
      var currentRound := thod[tag];
      var guest := Guest(tag, Numbered(sequence), currentRound);
      var basePrime1, basePrime2 := lastPrimeRoom.0, lastPrimeRoom.1;
      var finalRoom: int := Pow(basePrime1, sequence) * Pow(basePrime2, ch);
      ghost var nominal := finalRoom;
      if finalRoom in rooms {
        var original := finalRoom;
        var i: nat := 1;
        while finalRoom in rooms
          invariant i >= 1 && finalRoom == original + (i - 1) * (i - 1)
          invariant forall m :: 0 <= m < i - 1 ==> original + m * m in rooms
          modifies {}  // probing only reads the registry
          decreases |Above(rooms.Keys, finalRoom)|
        {
          assert (i - 1) * (i - 1) < i * i;
          AboveShrinks(rooms.Keys, finalRoom, original + i * i);
          finalRoom := original + i * i;
          i := i + 1;
        }
        ProbeFromIsLeast(rooms.Keys, original, 0, i - 1);
      } else {
        ProbeFromIsLeast(rooms.Keys, nominal, 0, 0);
      }
      rooms := rooms[finalRoom := guest];
      assignedCount' := assignedCount + 1;
    }

    /** `assign_pending_guests`: with an empty queue nothing changes. Otherwise
        the layers `k = 1, 2, ...` of (channel, sequence) pairs are visited (the
        column pass, then the row pass) until the queue's total is assigned or
        layer `2 * total` is done; then both bases advance to their next primes
        and the queue is cleared. */
    method AssignPending()
      requires Valid()
      modifies this
      ensures Valid()
      ensures old(pendingRequests) == map[] ==>
                rooms == old(rooms) && thod == old(thod) && lastPrimeRoom == old(lastPrimeRoom)
                && pendingRequests == old(pendingRequests)
      ensures old(pendingRequests) != map[] ==>
                var st := RunBatch(old(rooms), old(thod), old(pendingRequests), old(lastPrimeRoom).0, old(lastPrimeRoom).1);
                && rooms == st.rooms && thod == st.thod
                && IsNextPrime(old(lastPrimeRoom).0, lastPrimeRoom.0)
                && IsNextPrime(old(lastPrimeRoom).1, lastPrimeRoom.1)
                && pendingRequests == map[]
    {
      if pendingRequests == map[] {
        return;
      }
      var totalNewGuests := SumOfCounts(pendingRequests);
      assert pendingRequests.Keys != {};
      TotalPositive(pendingRequests);
      ghost var setup := Setup(pendingRequests, totalNewGuests, lastPrimeRoom.0, lastPrimeRoom.1);
      ghost var start := State(rooms, thod, {}, 0);
      var processedChannels, assignedCount, done := VisitLayers(setup, totalNewGuests);
      BatchEnd(setup, start, done, State(rooms, thod, processedChannels, assignedCount));
      AdvanceBases();
      pendingRequests := map[];
    }

    /** Moves both bases of the room formula to their next primes, for the next batch. */
    method AdvanceBases()
      requires IsPrime(lastPrimeRoom.0) && IsPrime(lastPrimeRoom.1) && lastPrimeRoom.0 < lastPrimeRoom.1
      modifies this
      ensures IsNextPrime(old(lastPrimeRoom).0, lastPrimeRoom.0)
      ensures IsNextPrime(old(lastPrimeRoom).1, lastPrimeRoom.1)
      ensures IsPrime(lastPrimeRoom.0) && IsPrime(lastPrimeRoom.1) && lastPrimeRoom.0 < lastPrimeRoom.1
      ensures rooms == old(rooms) && thod == old(thod) && pendingRequests == old(pendingRequests)
    {
      var nextPrime1 := FindNextPrime(lastPrimeRoom.0);
      var nextPrime2 := FindNextPrime(lastPrimeRoom.1);
      NextPrimeMonotone(lastPrimeRoom.0, lastPrimeRoom.1, nextPrime1, nextPrime2);
      lastPrimeRoom := (nextPrime1, nextPrime2);
    }

    /** The layer loop of `assign_pending_guests`: layers `k = 1, 2, ...`, each
        a column pass and a row pass, until the batch has assigned its total or
        layer `2 * total` (the safety bound) is done. The result is the fold
        over the layers visited. */
    method VisitLayers(ghost setup: Setup, totalNewGuests: nat)
      returns (processedChannels: set<nat>, assignedCount: nat, ghost done: nat)
      requires setup.total == totalNewGuests >= 1
      requires setup.pending == pendingRequests && setup.base1 == lastPrimeRoom.0 && setup.base2 == lastPrimeRoom.1
      modifies this
      ensures done <= 2 * totalNewGuests
      ensures State(rooms, thod, processedChannels, assignedCount)
              == VisitAll(setup, State(old(rooms), old(thod), {}, 0), Order(done))
      ensures assignedCount >= totalNewGuests || done == 2 * totalNewGuests
      ensures pendingRequests == old(pendingRequests) && lastPrimeRoom == old(lastPrimeRoom)
    {
      processedChannels := {};
      assignedCount := 0;
      var k: nat := 1;
      ghost var start := State(rooms, thod, {}, 0);
      while assignedCount < totalNewGuests
        invariant 1 <= k <= 2 * totalNewGuests
        invariant State(rooms, thod, processedChannels, assignedCount) == VisitAll(setup, start, Order(k - 1))
        invariant forall c :: c in processedChannels ==> Numbered(c) in thod
        invariant pendingRequests == old(pendingRequests) && lastPrimeRoom == old(lastPrimeRoom)
        decreases 2 * totalNewGuests - k
      {
        processedChannels, assignedCount := ColumnPass(setup, totalNewGuests, k, processedChannels, assignedCount);
        ghost var mid := State(rooms, thod, processedChannels, assignedCount);
        processedChannels, assignedCount := RowPass(setup, totalNewGuests, k, processedChannels, assignedCount);
        LayerStep(setup, start, k, mid, State(rooms, thod, processedChannels, assignedCount));
        k := k + 1;
        if k > totalNewGuests * 2 {
          break;
        }
      }
      done := k - 1;
    }

    /** The column pass of layer `k` (`for row in range(1, k + 1)`): pairs
        `(k, 1), ..., (k, k)`, each taken when the batch is short of its total
        and the channel has that many guests queued. */
    method ColumnPass(ghost setup: Setup, totalNewGuests: nat, k: nat, processed: set<nat>, assignedCount: nat)
      returns (processed': set<nat>, assignedCount': nat)
      requires setup.total == totalNewGuests
      requires setup.pending == pendingRequests && setup.base1 == lastPrimeRoom.0 && setup.base2 == lastPrimeRoom.1
      requires forall c :: c in processed ==> Numbered(c) in thod
      modifies this
      ensures State(rooms, thod, processed', assignedCount')
              == VisitAll(setup, State(old(rooms), old(thod), processed, assignedCount), Column(k))
      ensures forall c :: c in processed' ==> Numbered(c) in thod
      ensures pendingRequests == old(pendingRequests) && lastPrimeRoom == old(lastPrimeRoom)
    {
      ghost var st0 := State(rooms, thod, processed, assignedCount);
      processed', assignedCount' := processed, assignedCount;
      for row := 1 to k + 1
        invariant State(rooms, thod, processed', assignedCount') == VisitAll(setup, st0, Column(k)[..row - 1])
        invariant forall c :: c in processed' ==> Numbered(c) in thod
        invariant pendingRequests == old(pendingRequests) && lastPrimeRoom == old(lastPrimeRoom)
      {
        if assignedCount' < totalNewGuests && Count(pendingRequests, k) >= row {
          processed', assignedCount' := CreateAndAssign(setup, k, row, processed', assignedCount');
        }
        assert Column(k)[..row] == Column(k)[..row - 1] + [Pair(k, row)];
        VisitAllSnoc(setup, st0, Column(k)[..row - 1], Pair(k, row));
      }
      assert Column(k)[..k] == Column(k);
    }

    /** The row pass of layer `k` (`for col in range(1, k)`): pairs
        `(1, k), ..., (k - 1, k)`, under the same test as the column pass. */
    method RowPass(ghost setup: Setup, totalNewGuests: nat, k: nat, processed: set<nat>, assignedCount: nat)
      returns (processed': set<nat>, assignedCount': nat)
      requires k >= 1
      requires setup.total == totalNewGuests
      requires setup.pending == pendingRequests && setup.base1 == lastPrimeRoom.0 && setup.base2 == lastPrimeRoom.1
      requires forall c :: c in processed ==> Numbered(c) in thod
      modifies this
      ensures State(rooms, thod, processed', assignedCount')
              == VisitAll(setup, State(old(rooms), old(thod), processed, assignedCount), Row(k))
      ensures forall c :: c in processed' ==> Numbered(c) in thod
      ensures pendingRequests == old(pendingRequests) && lastPrimeRoom == old(lastPrimeRoom)
    {
      ghost var st0 := State(rooms, thod, processed, assignedCount);
      processed', assignedCount' := processed, assignedCount;
      for col := 1 to k
        invariant State(rooms, thod, processed', assignedCount') == VisitAll(setup, st0, Row(k)[..col - 1])
        invariant forall c :: c in processed' ==> Numbered(c) in thod
        invariant pendingRequests == old(pendingRequests) && lastPrimeRoom == old(lastPrimeRoom)
      {
        if assignedCount' < totalNewGuests && Count(pendingRequests, col) >= k {
          processed', assignedCount' := CreateAndAssign(setup, col, k, processed', assignedCount');
        }
        assert Row(k)[..col] == Row(k)[..col - 1] + [Pair(col, k)];
        VisitAllSnoc(setup, st0, Row(k)[..col - 1], Pair(col, k));
      }
      assert Row(k)[..k - 1] == Row(k);
    }

    /** `manual_add_room`: an occupied room is refused; otherwise the channel's
        counter goes up by one and the room gets a guest with that round. */
    method ManualAddRoom(roomNumber: int, channel: Tag, sequence: Tag) returns (added: bool)
      requires Valid()
      modifies this
      ensures Valid()
      ensures added <==> roomNumber !in old(rooms)
      ensures !added ==> rooms == old(rooms) && thod == old(thod)
      ensures added ==>
                && thod == old(thod)[channel := Count(old(thod), channel) + 1]
                && rooms == old(rooms)[roomNumber := Guest(channel, sequence, Count(old(thod), channel) + 1)]
      ensures pendingRequests == old(pendingRequests) && lastPrimeRoom == old(lastPrimeRoom)
    {
      if roomNumber in rooms {
        return false;
      }
      thod := thod[channel := Count(thod, channel) + 1];
      var currentChannelRound := thod[channel];
      var newGuest := Guest(channel, sequence, currentChannelRound);
      rooms := rooms[roomNumber := newGuest];
      return true;
    }

    /** `manual_delete_room`: vacates the room if it is occupied, and nothing else. */
    method ManualDeleteRoom(roomNumber: int)
      requires Valid()
      modifies this
      ensures Valid()
      ensures rooms == old(rooms) - {roomNumber}
      ensures thod == old(thod) && pendingRequests == old(pendingRequests) && lastPrimeRoom == old(lastPrimeRoom)
    {
      if roomNumber in rooms {
        rooms := rooms - {roomNumber};
      }
    }

    /** `search_room`: the occupant of the room, or none when it is vacant. */
    function SearchRoom(roomNumber: int): (g: Option<Guest>)
      reads this
      ensures g.Some? <==> roomNumber in rooms
      ensures g.Some? ==> g.value == rooms[roomNumber]
    {
      if roomNumber in rooms then Some(rooms[roomNumber]) else None
    }

    /** `get_sorted_room_numbers`: the occupied room numbers, listed and then
        heap-sorted, in strictly ascending order. */
    method SortedRoomNumbers() returns (r: seq<int>)
      ensures forall i, j :: 0 <= i < j < |r| ==> r[i] < r[j]
      ensures forall x :: x in r <==> x in rooms
      ensures |r| == |rooms|
    {
      var arr := KeyList(rooms.Keys);
      var n := arr.Length;
      if n <= 1 {
        return arr[..];
      }
      ghost var listed := arr[..];
      HeapSort.Sort(arr);
      r := arr[..];
      HeapSort.HeapSortedCorrect(listed);
      SortedPermutationOfDistinct(listed, r);
    }
  }

  /** Running the column pass and then the row pass of layer `k` after layers
      `1..k-1` is the fold over layers `1..k`. */
  lemma LayerStep(setup: Setup, start: State, k: nat, mid: State, end: State)
    requires k >= 1
    requires mid == VisitAll(setup, VisitAll(setup, start, Order(k - 1)), Column(k))
    requires end == VisitAll(setup, mid, Row(k))
    ensures end == VisitAll(setup, start, Order(k))
  {
    assert Order(k) == Order(k - 1) + Column(k) + Row(k);
    VisitAllThree(setup, start, Order(k - 1), Column(k), Row(k), mid, end);
  }

  /** Folding over `a`, then `b`, then `c` is folding over `a + b + c`. */
  lemma VisitAllThree(setup: Setup, start: State, a: seq<Pair>, b: seq<Pair>, c: seq<Pair>, mid: State, end: State)
    requires mid == VisitAll(setup, VisitAll(setup, start, a), b)
    requires end == VisitAll(setup, mid, c)
    ensures end == VisitAll(setup, start, a + b + c)
  {
    VisitAllAppend(setup, start, a, b);
    VisitAllAppend(setup, start, a + b, c);
  }

  /** When the layer loop stops, the registry and the counters are those of
      the whole batch, and the counters are still valid for every occupant. */
  lemma BatchEnd(setup: Setup, start: State, done: nat, st: State)
    requires setup.total == Total(setup.pending) && start.processed == {} && start.assignedCount == 0
    requires RoundsValid(start.rooms, start.thod) && CountersPositive(start.thod)
    requires done <= 2 * setup.total && st == VisitAll(setup, start, Order(done))
    requires st.assignedCount >= setup.total || done == 2 * setup.total
    ensures var batch := RunBatch(start.rooms, start.thod, setup.pending, setup.base1, setup.base2);
            st.rooms == batch.rooms && st.thod == batch.thod
    ensures RoundsValid(st.rooms, st.thod) && CountersPositive(st.thod)
  {
    BatchFinished(setup, start, done, 2 * setup.total);
    assert start == State(start.rooms, start.thod, {}, 0);
    BatchKeepsRoundsValid(start.rooms, start.thod, setup.pending, setup.base1, setup.base2);
  }

  /** After the last layer the loop ran (`done`), the state equals the fold over
      all layers up to `2 * total`: either the last layer was reached, or the
      total was assigned and later pairs change nothing. */
  lemma BatchFinished(setup: Setup, start: State, done: nat, last: nat)
    requires done <= last
    requires VisitAll(setup, start, Order(done)).assignedCount >= setup.total || done == last
    ensures VisitAll(setup, start, Order(last)) == VisitAll(setup, start, Order(done))
  {
    if done < last {
      var rest := OrderSplit(done, last);
      SaturatedSuffix(setup, start, Order(done), rest);
    }
  }

  /** Once a run of pairs has assigned the total, appending more pairs changes nothing. */
  lemma SaturatedSuffix(setup: Setup, start: State, a: seq<Pair>, b: seq<Pair>)
    requires VisitAll(setup, start, a).assignedCount >= setup.total
    ensures VisitAll(setup, start, a + b) == VisitAll(setup, start, a)
  {
    VisitAllAppend(setup, start, a, b);
    VisitAllSaturated(setup, VisitAll(setup, start, a), b);
  }

  /** `list(self.rooms.keys())`: the keys of the registry, each once, in a fresh array. */
  method KeyList(keys: set<int>) returns (arr: array<int>)
    ensures fresh(arr) && arr.Length == |keys|
    ensures NoDup(arr[..])
    ensures forall x :: x in arr[..] <==> x in keys
  {
    arr := new int[|keys|];
    var rest := keys;
    var i := 0;
    while rest != {}
      invariant 0 <= i <= arr.Length && i + |rest| == arr.Length
      invariant rest <= keys
      invariant NoDup(arr[..i])
      invariant forall x :: x in arr[..i] ==> x in keys && x !in rest
      invariant forall x :: x in keys ==> x in rest || x in arr[..i]
      decreases |rest|
    {
      HasMember(rest);
      var x :| x in rest;
      arr[i] := x;
      assert arr[..i + 1] == arr[..i] + [x];
      rest := rest - {x};
      i := i + 1;
    }
    assert arr[..] == arr[..i];
  }

  /** A non-empty set has a member. */
  lemma HasMember(s: set<int>)
    requires s != {}
    ensures exists x :: x in s
  {
    if forall x :: x !in s {
      assert false;
    }
  }

  /** A value that occurs twice in a sequence has multiplicity at least two. */
  lemma RepeatedMultiplicity(s: seq<int>, i: int, j: int)
    requires 0 <= i < j < |s| && s[i] == s[j]
    ensures multiset(s)[s[i]] >= 2
  {
    assert s == s[..j] + s[j..];
    assert s[i] in s[..j] && s[j] in s[j..];
  }

  /** Each value of a sequence without repetitions has multiplicity at most one. */
  lemma {:induction false} DistinctMultiplicity(s: seq<int>, x: int)
    requires NoDup(s)
    ensures multiset(s)[x] <= 1
    decreases |s|
  {
    if s != [] {
      var t := s[..|s| - 1];
      assert s == t + [s[|s| - 1]];
      assert NoDup(t);
      DistinctMultiplicity(t, x);
      if x == s[|s| - 1] {
        assert x !in t;
      }
    }
  }

  /** A sorted permutation of a sequence without repetitions is strictly
      ascending and has the same members. */
  lemma SortedPermutationOfDistinct(s: seq<int>, r: seq<int>)
    requires NoDup(s) && HeapSort.Sorted(r) && multiset(r) == multiset(s)
    ensures forall i, j :: 0 <= i < j < |r| ==> r[i] < r[j]
    ensures forall x :: x in r <==> x in s
    ensures |r| == |s|
  {
    assert |r| == |multiset(r)| == |multiset(s)| == |s|;
    forall x
      ensures x in r <==> x in s
    {
      assert x in r <==> x in multiset(r);
    }
    forall i, j | 0 <= i < j < |r|
      ensures r[i] < r[j]
    {
      if r[i] == r[j] {
        RepeatedMultiplicity(r, i, j);
        DistinctMultiplicity(s, r[i]);
      }
    }
  }
}
