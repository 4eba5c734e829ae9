/** The order in which a batch visits (channel, sequence) pairs: layer by layer,
    `k = max(channel, sequence)`, each layer a column pass then a row pass. */
module Traversal {

  /** A candidate guest: sequence number `sequence` of channel `channel`. */
  datatype Pair = Pair(channel: nat, sequence: nat)

  /** The layer in which a pair is visited. */
  function LayerOf(p: Pair): nat
  {
    if p.channel >= p.sequence then p.channel else p.sequence
  }

  /** Column pass of layer `k`: channel `k`, sequences `1..k` ascending. */
  function Column(k: nat): (col: seq<Pair>)
    ensures |col| == k
    ensures forall p :: p in col <==> p.channel == k && 1 <= p.sequence <= k
  {
    var col := seq(k, i requires 0 <= i => Pair(k, i + 1));
    assert forall p: Pair :: p.channel == k && 1 <= p.sequence <= k ==> col[p.sequence - 1] == p;
    col
  }

  /** Row pass of layer `k`: channels `1..k-1` ascending, sequence `k` (the corner is left out). */
  function Row(k: nat): (row: seq<Pair>)
    ensures |row| == if k == 0 then 0 else k - 1
    ensures forall p :: p in row <==> 1 <= p.channel < k && p.sequence == k
  {
    var row := seq(if k == 0 then 0 else k - 1, i requires 0 <= i => Pair(i + 1, k));
    assert forall p: Pair :: 1 <= p.channel < k && p.sequence == k ==> row[p.channel - 1] == p;
    row
  }

  function Layer(k: nat): seq<Pair>
  {
    Column(k) + Row(k)
  }

  /** All pairs of layers `1..n`, in visiting order. */
  function Order(n: nat): (order: seq<Pair>)
    ensures forall p :: p in order ==> 1 <= p.channel <= n && 1 <= p.sequence <= n
  {
    if n == 0 then [] else Order(n - 1) + Layer(n)
  }

  ghost predicate NoDup<T>(s: seq<T>)
  {
    forall i, j :: 0 <= i < j < |s| ==> s[i] != s[j]
  }

  /** Where pair `p` sits in the visiting order: after all `(k-1)^2` pairs of the
      earlier layers, column pass first, ascending index within each pass. */
  function Position(p: Pair): nat
    requires p.channel >= 1 && p.sequence >= 1
  {
    var k := LayerOf(p);
    (k - 1) * (k - 1) + (if p.channel == k then p.sequence - 1 else k + p.channel - 1)
  }

  /** Layer `k` holds exactly the pairs of positive numbers whose larger component is `k`. */
  lemma LayerMembers(k: nat, p: Pair)
    ensures p in Layer(k) <==> p.channel >= 1 && p.sequence >= 1 && LayerOf(p) == k
  {
    if p.channel >= 1 && p.sequence >= 1 && LayerOf(p) == k {
      if p.channel == k {
        assert Layer(k)[p.sequence - 1] == p;
      } else {
        assert Layer(k)[k + p.channel - 1] == p;
      }
    }
  }

  /** Layers `1..n` together hold `n * n` pairs. */
  lemma {:induction false} OrderSize(n: nat)
    ensures |Order(n)| == n * n
  {
    if n > 0 {
      OrderSize(n - 1);
      assert (n - 1) * (n - 1) + 2 * n - 1 == n * n;
    }
  }

  /** A pair of the last layer `n` sits at `Position(p)`, after the `(n-1)^2` pairs before it. */
  lemma LastLayerPosition(n: nat, p: Pair)
    requires 1 <= p.channel <= n && 1 <= p.sequence <= n && LayerOf(p) == n
    ensures Position(p) < |Order(n)| && Order(n)[Position(p)] == p
  {
    OrderSize(n - 1);
    var prev := Order(n - 1);
    assert Order(n) == prev + Layer(n);
    if p.channel == n {
      assert Column(n)[p.sequence - 1] == p;
      assert Layer(n)[p.sequence - 1] == p;
    } else {
      assert Row(n)[p.channel - 1] == p;
      assert Layer(n)[n + p.channel - 1] == p;
    }
  }

  /** Every pair of numbers in `1..n` is visited by the first `n` layers, at `Position(p)`. */
  lemma {:induction false} OrderPosition(n: nat, p: Pair)
    requires 1 <= p.channel <= n && 1 <= p.sequence <= n
    ensures Position(p) < |Order(n)| && Order(n)[Position(p)] == p
  {
    if LayerOf(p) == n {
      LastLayerPosition(n, p);
    } else {
      OrderPosition(n - 1, p);
      OrderPrefix(n - 1, n);
    }
  }

  /** The first `n` layers visit exactly the pairs of numbers in `1..n`. */
  lemma {:induction false} OrderMembers(n: nat, p: Pair)
    ensures p in Order(n) <==> 1 <= p.channel <= n && 1 <= p.sequence <= n
  {
    if 1 <= p.channel <= n && 1 <= p.sequence <= n {
      OrderPosition(n, p);
    }
    if n > 0 && p in Order(n) {
      if p in Order(n - 1) {
        OrderMembers(n - 1, p);
      } else {
        LayerMembers(n, p);
      }
    }
  }

  /** No pair is visited twice. */
  lemma {:induction false} OrderNoDup(n: nat)
    ensures NoDup(Order(n))
  {
    if n > 0 {
      OrderNoDup(n - 1);
      var a, b := Order(n - 1), Layer(n);
      forall i, j | 0 <= i < j < |a + b|
        ensures (a + b)[i] != (a + b)[j]
      {
        if i < |a| && j >= |a| {
          OrderMembers(n - 1, a[i]);
          LayerMembers(n, b[j - |a|]);
        }
      }
    }
  }

  /** Earlier layers are a prefix of later ones: visiting more layers only appends. */
  lemma {:induction false} OrderPrefix(m: nat, n: nat)
    requires m <= n
    ensures |Order(m)| <= |Order(n)| && Order(n)[..|Order(m)|] == Order(m)
    decreases n - m
  {
    if m < n {
      OrderPrefix(m, n - 1);
      assert Order(n)[..|Order(n - 1)|] == Order(n - 1);
    }
  }

  /** Layers `1..n` are layers `1..m` followed by the pairs of the later layers. */
  lemma OrderSplit(m: nat, n: nat) returns (rest: seq<Pair>)
    requires m <= n
    ensures Order(n) == Order(m) + rest
  {
    OrderPrefix(m, n);
    rest := Order(n)[|Order(m)|..];
    assert Order(n) == Order(n)[..|Order(m)|] + rest;
  }

  /** Layers never go backwards along the visiting order. */
  lemma OrderByLayer(n: nat, i: nat, j: nat)
    requires i <= j < |Order(n)|
    ensures LayerOf(Order(n)[i]) <= LayerOf(Order(n)[j])
  {
    var p, q := Order(n)[i], Order(n)[j];
    OrderMembers(n, p);
    OrderMembers(n, q);
    OrderPosition(n, p);
    OrderPosition(n, q);
    OrderNoDup(n);
  }
}
