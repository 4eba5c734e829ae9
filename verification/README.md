# Hilbert Hotel room allocation, modelled in Dafny

The Hilbert Hotel (the Python program `main.py`) manages an unbounded hotel.
Guests arrive in groups, one group per channel. Each group is queued as a
pending request (channel -> number of guests). One batch assignment then gives
every queued guest a room. Guest `sequence` of channel `ch` is sent to the
nominal room `base1^sequence * base2^ch`, where `base1` and `base2` are the
hotel's two current prime bases. When the nominal room is taken, the program
probes `original + 1, original + 4, original + 9, ...` until it finds a vacant
room. The batch visits the (channel, sequence) pairs diagonal layer by
diagonal layer (`k = 1, 2, ...`). Each layer has a column pass over channel `k`
and then a row pass over sequence `k`. A layer bound of `2 * total` is a safety
stop. Every channel that receives a guest in the batch has its round counter
raised by one. After the batch, both bases advance to their next primes and
the queue is cleared. Single rooms can also be added, removed and looked up by
hand. The occupied room numbers can be listed in ascending order with a heap
sort.

The project has these modules:

- `Guests`: the stored values. A guest carries a channel, a sequence and a
  round. The channel and sequence are each `Tag = Numbered(n) | Manual`, and
  `Manual` is the marker the console passes for a guest added by hand.
- `Primes`: primality and `find_next_prime`, an imperative search with trial
  division.
- `Probing`: the room formula and quadratic probing, as functions.
- `Traversal`: the order in which a batch visits pairs (`Order(n)`: layers
  `1..n`, each a column pass then a row pass), with its members and the
  absence of repeats.
- `Queue`: the pending queue, its total and the set of guests it stands for.
- `Batch`: one whole batch as a pure fold (`RunBatch`) over `Order(2 * total)`,
  and the lemmas about what a batch does.
- `HeapSort`: `sift_down`, heapify and the sort phase, in place on an array.
  Each method is specified by a function on the array's contents, and the
  functions are proved to yield a sorted permutation.
- `Hotel`: the class `HilbertHotel`, whose fields the operations update in
  place. Each method is tied to the functions above.

The layer bound of `2 * total` is a safety stop (main.py:146-148). A queued
channel id above `2 * total`, or channel 0, is never visited, and its guests
are dropped when the queue is cleared (main.py:152).
`Batch.BatchDropsUnreachable` states this. `Batch.BatchComplete` states that
every guest gets a room when no channel is that large.

## Model

| member | source | states |
|---|---|---|
| `Primes.FindNextPrime` | main.py:20-39 | The result is the least prime strictly greater than `number`. |
| `Primes.OddHasNoFactor` | main.py:31-36 | For an odd candidate `n >= 3`, trial division by the odd numbers whose square is at most `n` answers true exactly when `n` is prime. |
| `Primes.OddTrialDivision` | main.py:33-36 | If no odd `d` with `3 <= d` and `d * d <= n` divides the odd `n`, then `n` is prime: the square-root bound is enough. |
| `Primes.NextOddDivisor` | main.py:33 | Stepping the trial divisor by 2 skips only even numbers, none of which divides an odd candidate. |
| `Primes.EvenNotPrime` | main.py:29-30 | An even candidate above 2 is not prime. |
| `Primes.PrimeAbove` | main.py:23-39 | A prime exists above every integer, so the search loop ends. |
| `Primes.DivisorAtMost` | main.py:33-34 | A positive divisor of a positive number is at most that number. |
| `Primes.GcdDivides` | main.py:113 | The greatest common divisor of two numbers, not both zero, is positive and divides both. |
| `Primes.Bezout` | main.py:113 | The greatest common divisor is an integer combination of the two numbers. |
| `Primes.EuclidPrime` | main.py:113 | A prime dividing a product, and not its first factor, divides the second. This is the step behind the uniqueness of room numbers. |
| `Primes.NextPrimeMonotone` | main.py:151 | Advancing both bases to their next primes keeps `base1 < base2`. |
| `Probing.NominalRoom` | main.py:114-116 | The nominal room `base1^sequence * base2^channel` is positive for positive bases. |
| `Probing.Pow` | main.py:116 | Python's `**` on non-negative integers; a positive base gives a positive power. |
| `Probing.PowAdd` | main.py:116 | Multiplying powers of one base adds their exponents. |
| `Probing.PowStrict` | main.py:116 | For a base of at least 2, a larger exponent gives a strictly larger power. |
| `Probing.PrimeNotDividesPow` | main.py:113-116 | A prime never divides a power of a different prime. |
| `Probing.FirstExponentDiffers` | main.py:113-116 | Two nominal rooms whose `base1` exponents (sequences) differ are different rooms. |
| `Probing.NominalRoomInjective` | main.py:113-116 | For two distinct prime bases, equal nominal rooms mean equal sequence and equal channel: the room number identifies the guest. |
| `Probing.ProbeFrom` | main.py:118-126 | The first step `j >= i` whose probe `original + j*j` is vacant: every earlier step is occupied. |
| `Probing.Probe` | main.py:116-126 | The chosen room is vacant and at least the nominal room, and it is the nominal room when that one is vacant. |
| `Probing.ProbeFromIsLeast` | main.py:122-125 | A vacant probe step preceded only by occupied steps is the one probing finds. |
| `Probing.AboveShrinks` | main.py:122-125 | Moving past an occupied number strictly shrinks the set of occupied numbers ahead, so probing ends. |
| `Traversal.Column` | main.py:133-138 | The column pass of layer `k`: `k` pairs, exactly those of channel `k` with sequence `1..k`. |
| `Traversal.Row` | main.py:139-143 | The row pass of layer `k`: `k - 1` pairs, exactly those of sequence `k` with channel `1..k-1`, leaving out the corner. |
| `Traversal.Order` | main.py:101-145 | Layers `1..n` in visiting order. Every pair visited has both components in `1..n`. |
| `Traversal.LastLayerPosition` | main.py:133-143 | A pair of the last layer `n` sits at its closed-form position, after the `(n-1)^2` pairs of the earlier layers. |
| `Traversal.LayerMembers` | main.py:133-143 | Layer `k` holds exactly the pairs of positive numbers whose larger component is `k`. |
| `Traversal.OrderSize` | main.py:133-143 | Layers `1..n` hold `n * n` pairs. |
| `Traversal.OrderPosition` | main.py:133-143 | Each pair with components in `1..n` sits at its closed-form position in the visiting order. |
| `Traversal.OrderMembers` | main.py:133-143 | Layers `1..n` visit exactly the pairs with both components in `1..n`. |
| `Traversal.OrderNoDup` | main.py:133-143 | No pair is visited twice. |
| `Traversal.OrderPrefix` | main.py:101-145 | Running more layers only appends to the visiting order. |
| `Traversal.OrderSplit` | main.py:101-145 | The first `n` layers are the first `m` layers followed by the later ones. |
| `Traversal.OrderByLayer` | main.py:101-145 | Layers never go backwards along the visiting order. |
| `Queue.Total` | main.py:98 | `sum(pending_requests.values())`, and no channel's count exceeds it. |
| `Queue.SumOfCounts` | main.py:98 | Computes the queue's total, the sum of all queued counts. |
| `Queue.TotalRemove` | main.py:98 | The total is a channel's count plus the total of the other channels, whichever channel is taken out. |
| `Queue.TotalAdd` | main.py:83-84 | Adding `n` guests to one channel raises the total by exactly `n`. |
| `Queue.CountAtMostTotal` | main.py:98 | One channel never holds more than the total. |
| `Queue.TotalPositive` | main.py:93-98 | A non-empty queue of positive counts has a positive total. |
| `Queue.QueuedCard` | main.py:98 | The queue stands for exactly `total` distinct (channel, sequence) guests. |
| `Batch.Assign` | main.py:104-131 | `create_and_assign` on values: raises the channel's counter on its first guest of the batch and binds the guest to its probed room. The old bindings are kept, the registry grows by one room, the assigned count grows by one, and the channel is marked as processed. |
| `Batch.Visit` | main.py:136-137 | One candidate pair under the guard `assigned < total` and `count >= sequence`. The old bindings are kept, and the assigned count never passes the total. |
| `Batch.VisitAll` | main.py:133-144 | Visits a run of pairs in order. The assigned count never passes the total. `BatchKeepsBindings` states that old bindings are kept. |
| `Batch.RunBatch` | main.py:98-148 | The whole batch over layers `1..2*total` from no guest assigned. At most the total is assigned. |
| `Batch.VisitAllAppend` | main.py:133-145 | Folding over two consecutive runs of pairs is folding over their concatenation. |
| `Batch.VisitAllSnoc` | main.py:134-143 | Visiting one more pair is one more step of the fold. |
| `Batch.VisitAllSaturated` | main.py:103 | Once the batch has assigned its total, later pairs change nothing: stopping the loop early gives the same state as running every layer. |
| `Batch.RoomForQueued` | main.py:136 | While a queued guest is unassigned, fewer than `total` guests have been assigned, so the `assigned < total` guard never turns a queued guest away. |
| `Batch.AssignStep` | main.py:104-131 | Assigning a new queued pair keeps the batch invariant: old bindings kept, one more room, a distinct new guest on its probe path, round equal to its channel's counter. |
| `Batch.VisitAllInv` | main.py:103-144 | Over any repeat-free run of pairs, the fold assigns exactly the pairs the queue holds, each once. |
| `Batch.AcceptedOrder` | main.py:103-148 | The pairs a batch accepts are exactly the queued guests on channels `1..2*total`. |
| `Batch.BatchKeepsBindings` | main.py:118-128 | A batch never overwrites or removes an existing room binding. |
| `Batch.BatchPlacesReachable` | main.py:88-153 | A batch gives one room to each queued guest on a channel in `1..2*total` and to no one else. Each such room is on the guest's probe path. The registry grows by exactly that number, at most the total. |
| `Batch.BatchComplete` | main.py:88-153 | When every queued channel is in `1..2*total`, every queued guest gets exactly one room and the registry grows by exactly the queue's total. |
| `Batch.BatchDropsUnreachable` | main.py:146-152 | A queued channel of 0 or above `2*total` gets no room in the batch, while `AssignPending` clears the queue all the same. |
| `Batch.BatchRounds` | main.py:106-111 | Each channel that receives a guest has its counter raised by exactly one, the other counters are unchanged, and each new guest's round is its channel's new counter. |
| `Batch.BatchKeepsRoundsValid` | main.py:106-128 | After a batch, counters stay positive and no lower than any occupant's round. |
| `HeapSort.HeapRootMax` | main.py:198-210 | In a heap, the root is at least every element of the heap. |
| `HeapSort.BiggerChild` | main.py:201-205 | The child `sift_down` picks is the larger one that lies within `end`. |
| `HeapSort.Sift` | main.py:198-210 | `sift_down(root, end)` on a sequence: swaps the root with its larger child while the child is larger, and keeps the length. `SiftCorrect` states what it achieves. |
| `HeapSort.SiftCorrect` | main.py:198-210 | Sifting down restores heap order on `start..end` and permutes the elements, leaving those outside `start..end` unchanged. |
| `HeapSort.SiftDown` | main.py:198-210 | The in-place `sift_down` leaves the array equal to `Sift` of its old contents. |
| `HeapSort.Heapify` | main.py:212-214 | Sifts down from `start` back to the root over the whole array, keeping the length. `HeapifyCorrect` states the result is a heap. |
| `HeapSort.HeapifyCorrect` | main.py:212-214 | Heapify turns the whole array into a heap and permutes it. |
| `HeapSort.SortRound` | main.py:217-219 | One round of swapping the root to `end` and sifting down keeps the sort invariant one position lower and permutes the array. |
| `HeapSort.SortDown` | main.py:216-219 | For `end` down to 1: swaps the root to `end` and sifts down within `0..end-1`, keeping the length. `SortDownCorrect` states the result is sorted. |
| `HeapSort.SortDownCorrect` | main.py:216-219 | The sort phase, started from a heap, yields a sorted permutation. |
| `HeapSort.HeapSorted` | main.py:212-219 | Heapify then the sort phase, for at least two elements, keeping the length. `HeapSortedCorrect` states the result is a sorted permutation. |
| `HeapSort.HeapSortedCorrect` | main.py:212-219 | Heap sort returns a sorted permutation of its input. |
| `HeapSort.BuildHeap` | main.py:212-214 | The in-place heapify loop equals `Heapify` of the old contents. |
| `HeapSort.SortPhase` | main.py:216-219 | The in-place sort loop equals `SortDown` of the old contents. |
| `HeapSort.Sort` | main.py:212-219 | The array ends as `HeapSorted` of its old contents. |
| `Hotel.HilbertHotel.constructor` | main.py:69-73 | A new hotel has no rooms, no queue, no counters and the bases 2 and 3. |
| `Hotel.HilbertHotel.AddGuestGroup` | main.py:76-85 | A request for fewer than one guest changes nothing. Otherwise the channel's queued count grows by `numGuests`, and so does the total. Rooms, counters and bases are unchanged. |
| `Hotel.HilbertHotel.CreateAndAssign` | main.py:104-131 | The state after one guest is `Assign` of the old state: the counter is raised on the channel's first guest of the batch, the guest is bound to the probed room, and the assigned count goes up by one. |
| `Hotel.HilbertHotel.ColumnPass` | main.py:133-138 | The column pass of layer `k` is the fold over `(k,1)..(k,k)`. |
| `Hotel.HilbertHotel.RowPass` | main.py:139-143 | The row pass of layer `k` is the fold over `(1,k)..(k-1,k)`. |
| `Hotel.HilbertHotel.VisitLayers` | main.py:101-148 | The layer loop is the fold over the layers it ran, and it stops only when the total is assigned or layer `2*total` is done. |
| `Hotel.HilbertHotel.AssignPending` | main.py:88-153 | With an empty queue nothing changes. Otherwise rooms and counters become those of `RunBatch`, both bases become their next primes, and the queue is emptied. The class invariant is kept. |
| `Hotel.HilbertHotel.AdvanceBases` | main.py:150-151 | Both bases become their next primes and stay prime and in increasing order. Nothing else changes. |
| `Hotel.SaturatedSuffix` | main.py:103 | Once a run of pairs has assigned the total, appending more pairs changes nothing. |
| `Hotel.LayerStep` | main.py:133-145 | One column pass and one row pass after layers `1..k-1` make the fold over layers `1..k`. |
| `Hotel.BatchFinished` | main.py:145-148 | Wherever the layer loop stops, the state equals the fold over all layers up to `2*total`. |
| `Hotel.BatchEnd` | main.py:103-148 | When the layer loop ends, the rooms and counters are those of the whole batch, and the counters are still valid. |
| `Hotel.HilbertHotel.ManualAddRoom` | main.py:157-170 | Adding succeeds exactly when the room is vacant. A refused add changes nothing. A successful one raises the channel's counter by one and binds the room to a guest with that round. |
| `Hotel.HilbertHotel.ManualDeleteRoom` | main.py:173-179 | The room is vacated if it was occupied, and nothing else changes. |
| `Hotel.HilbertHotel.SearchRoom` | main.py:182-188 | Returns the occupant exactly when the room is occupied, and nothing otherwise. |
| `Hotel.KeyList` | main.py:193 | Lists every occupied room number once. |
| `Hotel.SortedPermutationOfDistinct` | main.py:191-221 | A sorted permutation of distinct room numbers is strictly ascending and has the same members. |
| `Hotel.HilbertHotel.SortedRoomNumbers` | main.py:191-221 | Returns the occupied room numbers, each once, in strictly ascending order. This holds for the `n <= 1` shortcut too. |

## Left out

- Console output, the `time_it` timing decorator, screen clearing and the banner are left out. They change no state.
- The interactive menu and its input parsing are left out. The model's parameter types stand in for the validation it does: channel ids are `nat` and guest counts are checked by `AddGuestGroup` itself.
- Memory-usage reporting, file export and the room display are left out. They only read the registry and write to the outside world.
- `Primes.OddHasNoFactor` tests `i * i <= n` in place of the floating-point `int(math.sqrt(n))`. The two agree on the candidates tried, but floating-point rounding is not modelled.
- `Hotel.HilbertHotel.AddGuestGroup` takes a `nat` channel id. The Python method accepts any integer, and negative ids, which the menu refuses, are not modelled. Channel 0 is modelled, and it is never visited.
- `Hotel.HilbertHotel.ManualAddRoom` takes a `Tag` for channel and sequence: a number or the `Manual` marker. Other dynamically typed values are not modelled.
- `Hotel.KeyList`: Python lists the keys in dictionary insertion order. The model lists them in an unspecified order, which heap sort makes irrelevant to the result.
- The Python list built from the keys becomes a Dafny `array<int>`. The result is returned as a sequence.
- The layer loop of `assign_pending_guests` is split into `VisitLayers`, `ColumnPass`, `RowPass` and `CreateAndAssign`. The closure's `nonlocal` counter and processed set become parameters and results of those methods.
