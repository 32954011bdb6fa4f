/** Weighted dispatch: `compute_server_availability` gives the k-th entry of the
    slowest-first list the cumulative weight 1 + 2 + ... + k, and `assign_server`
    picks the first entry whose cumulative weight reaches a drawn number. */
module Selector {
  import opened Text
  import opened Registry

  /** The k-th triangular number 1 + 2 + ... + k: the running `availability_factor`. */
  function Tri(k: nat): (r: nat)
    ensures k <= r
  {
    if k == 0 then 0 else Tri(k - 1) + k
  }

  /** The closed form k(k+1)/2. */
  lemma {:induction false} TriClosedForm(k: nat)
    ensures 2 * Tri(k) == k * (k + 1)
  {
    if k > 0 {
      TriClosedForm(k - 1);
    }
  }

  /** Triangular numbers strictly increase. */
  lemma {:induction false} TriIncreasing(i: nat, j: nat)
    ensures i < j ==> Tri(i) < Tri(j)
    decreases j - i
  {
    if i + 1 < j {
      TriIncreasing(i + 1, j);
    }
  }

  /** The list with weights assigned: entry k (counting from 0) gets weight Tri(k + 1). */
  function Weighted(servers: seq<Server>): (t: seq<Server>)
    ensures |t| == |servers|
  {
    seq(|servers|, k requires 0 <= k < |servers| =>
      Server(servers[k].host, servers[k].port, servers[k].latency, Tri(k + 1)))
  }

  /** compute_server_availability: `availability_factor += i` for i = 1, 2, ..., each entry
      copied with the running factor as its weight. */
  method ComputeServerAvailability(servers: seq<Server>) returns (table: seq<Server>)
    ensures table == Weighted(servers)
  {
    var factor := 0;
    table := [];
    for i := 1 to |servers| + 1
      invariant factor == Tri(i - 1)
      invariant |table| == i - 1
      invariant forall k :: 0 <= k < i - 1 ==> table[k] == Weighted(servers)[k]
    {
      factor := factor + i;
      var server := servers[i - 1];
      table := table + [Server(server.host, server.port, server.latency, factor)];
    }
  }

  /** The weighted list has the same entries in the same order, only the weights change,
      and the k-th weight (counting from 1) is k(k+1)/2. */
  lemma WeightedEntries(servers: seq<Server>)
    ensures |Weighted(servers)| == |servers|
    ensures forall k :: 0 <= k < |servers| ==>
              && Weighted(servers)[k].host == servers[k].host
              && Weighted(servers)[k].port == servers[k].port
              && Weighted(servers)[k].latency == servers[k].latency
              && 2 * Weighted(servers)[k].weight == (k + 1) * (k + 2)
  {
    forall k | 0 <= k < |servers|
      ensures 2 * Weighted(servers)[k].weight == (k + 1) * (k + 2)
    {
      TriClosedForm(k + 1);
    }
  }

  /** Weights strictly increase along the weighted list. */
  predicate Increasing(table: seq<Server>) {
    forall i, j :: 0 <= i < j < |table| ==> table[i].weight < table[j].weight
  }

  lemma WeightsIncrease(servers: seq<Server>)
    ensures Increasing(Weighted(servers))
  {
    forall i, j | 0 <= i < j < |servers|
      ensures Weighted(servers)[i].weight < Weighted(servers)[j].weight
    {
      TriIncreasing(i + 1, j + 1);
    }
  }

  /** The last weight of a list of N entries is N(N+1)/2: the upper end of the draw. */
  lemma LastWeight(servers: seq<Server>)
    requires servers != []
    ensures 2 * Weighted(servers)[|servers| - 1].weight == |servers| * (|servers| + 1)
  {
    TriClosedForm(|servers|);
  }

  // ---------------------------------------------------------------------
  // assign_server

  /** Index of the first entry whose weight reaches `draw`. */
  function FirstCovering(table: seq<Server>, draw: int): (i: nat)
    requires table != [] && draw <= table[|table| - 1].weight
    ensures i < |table| && draw <= table[i].weight
    ensures forall k :: 0 <= k < i ==> table[k].weight < draw
    decreases |table|
  {
    if draw <= table[0].weight then 0
    else 1 + FirstCovering(table[1..], draw)
  }

  /** The range `random.randint(1, last_weight)` draws from; any draw for an empty list. */
  predicate DrawInRange(table: seq<Server>, draw: int) {
    table != [] ==> 1 <= draw <= table[|table| - 1].weight
  }

  /** assign_server with the random number passed in as `draw`: no entry for an
      empty list, otherwise the first entry whose weight reaches the draw. */
  method AssignServer(table: seq<Server>, draw: int) returns (selected: Option<Server>)
    requires DrawInRange(table, draw)
    ensures selected.None? <==> table == []
    ensures selected.Some? ==> selected.value == table[FirstCovering(table, draw)]
  {
    if table == [] {
      return None;
    }
    var i := 0;
    while draw > table[i].weight
      invariant i < |table|
      invariant forall k :: 0 <= k < i ==> table[k].weight < draw
      decreases |table| - i
    {
      i := i + 1;
    }
    selected := Some(table[i]);
  }

  /** Two bands (Tri(i), Tri(i+1)] never share a draw. */
  lemma BandsDisjoint(i: nat, j: nat, draw: int)
    requires Tri(i) < draw <= Tri(i + 1) && Tri(j) < draw <= Tri(j + 1)
    ensures i == j
  {
    if i < j {
      TriIncreasing(i + 1, j);
    } else if j < i {
      TriIncreasing(j + 1, i);
    }
  }

  /** On a weighted list, entry i takes exactly the draws in (Tri(i), Tri(i+1)]: a band
      of i + 1 numbers, so entries further down the slowest-first list are picked more often. */
  lemma SelectionBands(servers: seq<Server>, draw: int, i: nat)
    requires servers != [] && 1 <= draw <= Tri(|servers|)
    ensures DrawInRange(Weighted(servers), draw)
    ensures FirstCovering(Weighted(servers), draw) == i <==>
            i < |servers| && Tri(i) < draw <= Tri(i + 1)
  {
    var table := Weighted(servers);
    var f := FirstCovering(table, draw);
    assert draw <= Tri(f + 1);
    // the band of f starts above the weight before it, which is Tri(f)
    assert Tri(f) < draw by {
      if f > 0 {
        assert table[f - 1].weight < draw;
      }
    }
    if i < |servers| && Tri(i) < draw <= Tri(i + 1) {
      BandsDisjoint(f, i, draw);
    }
  }
}
