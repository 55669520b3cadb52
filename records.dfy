/** Records of the SwarmAid dispatch demo and the pure bookkeeping over them:
    the shelter and volunteer records, how a volunteer's aid is drawn, how the
    typed-in count falls back to its default, and the accounting functions
    (aid delivered per shelter, aid gained in one tick, volunteers per shelter)
    with the lemmas that relate them. */
module Records {

  /** Aid units a new shelter asks for. */
  const NeedsPerShelter: int := 5
  /** Count used when the typed-in count is not a number or is zero. */
  const DefaultCount: int := 10
  /** Largest aid a volunteer can carry. */
  const MaxAid: int := 3

  /** A shelter: the aid it needs and the aid delivered to it so far.
      Its map position only matters to the arrival test, which is an input here. */
  datatype Shelter = Shelter(needs: int, received: int)

  /** A volunteer: the index of the shelter it walks to, the aid it carries,
      and whether it has arrived. */
  datatype Volunteer = Volunteer(target: nat, aid: int, arrived: bool)

  /** What `parseInt` produced: a number, or NaN. */
  datatype Parsed = Number(value: int) | NaN

  /** A shelter counts as fulfilled once what it received reaches what it needs. */
  predicate Fulfilled(sh: Shelter) {
    sh.received >= sh.needs
  }

  /** Whether some volunteer of the batch is still on its way. */
  predicate Pending(vs: seq<Volunteer>) {
    exists i :: 0 <= i < |vs| && !vs[i].arrived
  }

  /** The least integer not below `x`. */
  function Ceil(x: real): (c: int)
    ensures (c - 1) as real < x <= c as real
  {
    if x.Floor as real == x then x.Floor else x.Floor + 1
  }

  /** Aid of a volunteer from one draw `r` of the random generator, which lies in [0, 1):
      three times the draw, rounded up. The result is between 0 and 3, and it is 0
      exactly when the draw is 0. */
  function AidFromRandom(r: real): (aid: int)
    requires 0.0 <= r < 1.0
    ensures 0 <= aid <= MaxAid
    ensures aid == 0 <==> r == 0.0
    ensures aid >= 1 ==> (aid - 1) as real < 3.0 * r <= aid as real
  {
    Ceil(3.0 * r)
  }

  /** The number of volunteers a dispatch spawns: the parsed count, or the default
      when the count is NaN or zero (both falsy). A negative count stays negative. */
  function EffectiveCount(p: Parsed): (n: int)
    ensures n != 0
    ensures n == DefaultCount || p == Number(n)
    ensures p == NaN || p == Number(0) ==> n == DefaultCount
    ensures p.Number? && p.value != 0 ==> n == p.value
  {
    match p
    case Number(k) => if k == 0 then DefaultCount else k
    case NaN => DefaultCount
  }

  /** How many volunteers a spawn loop `for (i = 0; i < n; i++)` creates. */
  function Spawned(n: int): (k: nat)
    ensures n <= 0 ==> k == 0
    ensures n >= 0 ==> k == n
  {
    if n < 0 then 0 else n
  }

  /** What volunteer `v` has delivered to shelter `s`. */
  function Contribution(v: Volunteer, s: nat): int {
    if v.arrived && v.target == s then v.aid else 0
  }

  /** Aid delivered to shelter `s` by the batch `vs`: the sum of `aid` over the
      arrived volunteers that target `s`. */
  function Delivered(vs: seq<Volunteer>, s: nat): int {
    if vs == [] then 0 else Delivered(vs[..|vs| - 1], s) + Contribution(vs[|vs| - 1], s)
  }

  /** Whether volunteer `i` of the batch arrives in a tick whose arrival test
      passes for the indices in `reach`. */
  predicate Arrives(vs: seq<Volunteer>, i: nat, reach: set<nat>)
    requires i < |vs|
  {
    !vs[i].arrived && i in reach
  }

  /** Aid that shelter `s` gains in one tick: the sum of `aid` over the volunteers
      that arrive in that tick and target `s`. */
  function Gain(vs: seq<Volunteer>, reach: set<nat>, s: nat): int {
    if vs == [] then 0
    else
      var k := |vs| - 1;
      Gain(vs[..k], reach, s) + (if Arrives(vs, k, reach) && vs[k].target == s then vs[k].aid else 0)
  }

  /** A tick never takes aid away from a shelter: volunteers carry no negative aid. */
  lemma {:induction false} GainNonNegative(vs: seq<Volunteer>, reach: set<nat>, s: nat)
    requires forall i :: 0 <= i < |vs| ==> vs[i].aid >= 0
    ensures Gain(vs, reach, s) >= 0
  {
    if vs != [] {
      GainNonNegative(vs[..|vs| - 1], reach, s);
    }
  }

  /** Shelters that some volunteer arriving in this tick targets. */
  function ArrivalTargets(vs: seq<Volunteer>, reach: set<nat>): set<nat> {
    if vs == [] then {}
    else
      var k := |vs| - 1;
      ArrivalTargets(vs[..k], reach) + (if Arrives(vs, k, reach) then {vs[k].target} else {})
  }

  /** Taking volunteer i into account adds its target to the arrival targets when it
      arrives in this tick. */
  lemma ArrivalTargetsStep(vs: seq<Volunteer>, reach: set<nat>, i: nat)
    requires i < |vs|
    ensures ArrivalTargets(vs[..i + 1], reach)
      == ArrivalTargets(vs[..i], reach) + (if Arrives(vs, i, reach) then {vs[i].target} else {})
  {
    assert vs[..i + 1][..i] == vs[..i];
  }

  /** A shelter is an arrival target of a tick exactly when some volunteer that
      arrives in that tick targets it. */
  lemma {:induction false} ArrivalTargetsMember(vs: seq<Volunteer>, reach: set<nat>, s: nat)
    ensures s in ArrivalTargets(vs, reach)
      <==> exists i :: 0 <= i < |vs| && Arrives(vs, i, reach) && vs[i].target == s
  {
    if vs != [] {
      var k := |vs| - 1;
      var front := vs[..k];
      ArrivalTargetsMember(front, reach, s);
      if s in ArrivalTargets(front, reach) {
        var i :| 0 <= i < |front| && Arrives(front, i, reach) && front[i].target == s;
        assert Arrives(vs, i, reach) && vs[i].target == s;
      }
      if exists i :: 0 <= i < |vs| && Arrives(vs, i, reach) && vs[i].target == s {
        var i :| 0 <= i < |vs| && Arrives(vs, i, reach) && vs[i].target == s;
        if i < k {
          assert Arrives(front, i, reach) && front[i].target == s;
        }
      }
    }
  }

  /** Number of volunteers of the batch that target shelter `s`. */
  function Share(vs: seq<Volunteer>, s: nat): nat {
    if vs == [] then 0 else Share(vs[..|vs| - 1], s) + (if vs[|vs| - 1].target == s then 1 else 0)
  }

  /** Aid carried by the arrived volunteers of the batch, whatever their target. */
  function ArrivedAid(vs: seq<Volunteer>): int {
    if vs == [] then 0
    else ArrivedAid(vs[..|vs| - 1]) + (if vs[|vs| - 1].arrived then vs[|vs| - 1].aid else 0)
  }

  /** Aid delivered by the batch to shelters 0 .. m-1 together. */
  function DeliveredBelow(vs: seq<Volunteer>, m: nat): int {
    if m == 0 then 0 else DeliveredBelow(vs, m - 1) + Delivered(vs, m - 1)
  }

  /** What volunteer `v` has delivered to shelters 0 .. m-1 together. */
  function ContributionBelow(v: Volunteer, m: nat): int {
    if m == 0 then 0 else ContributionBelow(v, m - 1) + Contribution(v, m - 1)
  }

  /** A shelter that no arrived volunteer targets has been delivered nothing. */
  lemma {:induction false} DeliveredNone(vs: seq<Volunteer>, s: nat)
    requires forall i :: 0 <= i < |vs| ==> !vs[i].arrived || vs[i].target != s
    ensures Delivered(vs, s) == 0
  {
    if vs != [] {
      DeliveredNone(vs[..|vs| - 1], s);
    }
  }

  /** Marking one unarrived volunteer as arrived adds its aid to what its target has
      been delivered, exactly once, and changes no other shelter's total. */
  lemma {:induction false} DeliveredArrive(vs: seq<Volunteer>, i: nat, s: nat)
    requires i < |vs| && !vs[i].arrived
    ensures Delivered(vs[i := vs[i].(arrived := true)], s)
         == Delivered(vs, s) + (if vs[i].target == s then vs[i].aid else 0)
  {
    var k := |vs| - 1;
    var ws := vs[i := vs[i].(arrived := true)];
    if i == k {
      assert ws[..k] == vs[..k];
    } else {
      assert ws[..k] == vs[..k][i := vs[i].(arrived := true)];
      DeliveredArrive(vs[..k], i, s);
    }
  }

  /** Appending a volunteer that has not arrived changes no shelter's delivered total. */
  lemma DeliveredAppendUnarrived(vs: seq<Volunteer>, v: Volunteer, s: nat)
    requires !v.arrived
    ensures Delivered(vs + [v], s) == Delivered(vs, s)
  {
    assert (vs + [v])[..|vs|] == vs;
  }

  /** Summing one volunteer's contribution over shelters 0 .. m-1 gives its aid when it
      has arrived at one of them, and nothing otherwise. */
  lemma {:induction false} ContributionBelowIsAid(v: Volunteer, m: nat)
    ensures ContributionBelow(v, m) == if v.arrived && v.target < m then v.aid else 0
  {
    if m > 0 {
      ContributionBelowIsAid(v, m - 1);
    }
  }

  /** Splitting the last volunteer off a batch splits the sum over shelters. */
  lemma {:induction false} DeliveredBelowSplit(vs: seq<Volunteer>, m: nat)
    requires vs != []
    ensures DeliveredBelow(vs, m)
         == DeliveredBelow(vs[..|vs| - 1], m) + ContributionBelow(vs[|vs| - 1], m)
  {
    if m > 0 {
      DeliveredBelowSplit(vs, m - 1);
    }
  }

  /** No double counting: when every volunteer targets one of the first m shelters,
      the aid delivered to those shelters together is exactly the aid carried by the
      arrived volunteers. */
  lemma {:induction false} DeliveredTotal(vs: seq<Volunteer>, m: nat)
    requires forall i :: 0 <= i < |vs| ==> vs[i].target < m
    ensures DeliveredBelow(vs, m) == ArrivedAid(vs)
  {
    if vs == [] {
      DeliveredBelowZero(m);
    } else {
      var k := |vs| - 1;
      DeliveredBelowSplit(vs, m);
      ContributionBelowIsAid(vs[k], m);
      DeliveredTotal(vs[..k], m);
    }
  }

  /** The empty batch has delivered nothing to any shelter. */
  lemma {:induction false} DeliveredBelowZero(m: nat)
    ensures DeliveredBelow([], m) == 0
  {
    if m > 0 {
      DeliveredBelowZero(m - 1);
    }
  }

  /** Delivered totals only grow while volunteers arrive: a batch in which every
      volunteer keeps its target and aid and no arrived volunteer reverts has
      delivered to each shelter its old total plus the aid of those that arrived
      since. */
  lemma {:induction false} DeliveredAdvance(vs: seq<Volunteer>, ws: seq<Volunteer>, reach: set<nat>, s: nat)
    requires |ws| == |vs|
    requires forall i :: 0 <= i < |vs| ==>
      ws[i] == vs[i].(arrived := vs[i].arrived || i in reach)
    ensures Delivered(ws, s) == Delivered(vs, s) + Gain(vs, reach, s)
  {
    if vs != [] {
      var k := |vs| - 1;
      DeliveredAdvance(vs[..k], ws[..k], reach, s);
    }
  }

  /** A product with a factor of at least one is at least the other factor. */
  lemma MulAtLeast(d: int, m: nat)
    requires d >= 1
    ensures d * m >= m
  {
    if d > 1 {
      MulAtLeast(d - 1, m);
      assert d * m == (d - 1) * m + m;
    }
  }

  /** Quotient and remainder are the only ones: `a == q * m + r` with `0 <= r < m`
      pins down `a / m` and `a % m`. */
  lemma DivModUnique(a: int, m: nat, q: int, r: int)
    requires m >= 1 && 0 <= r < m && a == q * m + r
    ensures a / m == q && a % m == r
  {
    var q0, r0 := a / m, a % m;
    assert a == q0 * m + r0;
    assert (q - q0) * m == r0 - r;
    if q > q0 {
      MulAtLeast(q - q0, m);
    } else if q < q0 {
      MulAtLeast(q0 - q, m);
    }
  }

  /** Successor step of Euclidean division by a positive m. */
  lemma DivModNext(k: nat, m: nat)
    requires m >= 1
    ensures k % m == m - 1 ==> (k + 1) % m == 0 && (k + 1) / m == k / m + 1
    ensures k % m != m - 1 ==> (k + 1) % m == k % m + 1 && (k + 1) / m == k / m
  {
    var q, r := k / m, k % m;
    assert k == q * m + r;
    if r == m - 1 {
      assert k + 1 == (q + 1) * m + 0;
      DivModUnique(k + 1, m, q + 1, 0);
    } else {
      DivModUnique(k + 1, m, q, r + 1);
    }
  }

  /** Number of indices i below n with i mod m equal to s. */
  function RoundRobinCount(n: nat, m: nat, s: nat): nat
    requires m >= 1
  {
    if n == 0 then 0 else RoundRobinCount(n - 1, m, s) + (if (n - 1) % m == s then 1 else 0)
  }

  /** When volunteer i targets shelter i mod m, shelter s's share is the number of
      indices congruent to s. */
  lemma {:induction false} ShareOfRoundRobin(vs: seq<Volunteer>, m: nat, s: nat)
    requires 1 <= m
    requires forall i :: 0 <= i < |vs| ==> vs[i].target == i % m
    ensures Share(vs, s) == RoundRobinCount(|vs|, m, s)
  {
    if vs != [] {
      var k := |vs| - 1;
      var front := vs[..k];
      assert forall i :: 0 <= i < |front| ==> front[i] == vs[i];
      ShareOfRoundRobin(front, m, s);
    }
  }

  /** Indices congruent to s below n: n div m, plus one when s < n mod m. */
  lemma {:induction false} RoundRobinCountClosed(n: nat, m: nat, s: nat)
    requires 1 <= m && s < m
    ensures RoundRobinCount(n, m, s) == n / m + (if s < n % m then 1 else 0)
  {
    if n > 0 {
      RoundRobinCountClosed(n - 1, m, s);
      ShareStep(n - 1, m, s);
    }
  }

  /** Round-robin assignment cycles evenly: when volunteer i targets shelter i mod m,
      shelter s gets n div m volunteers, plus one when s < n mod m. */
  lemma RoundRobinShare(vs: seq<Volunteer>, m: nat, s: nat)
    requires 1 <= m && s < m
    requires forall i :: 0 <= i < |vs| ==> vs[i].target == i % m
    ensures Share(vs, s) == |vs| / m + (if s < |vs| % m then 1 else 0)
  {
    ShareOfRoundRobin(vs, m, s);
    RoundRobinCountClosed(|vs|, m, s);
  }

  /** One more volunteer, number k, moves shelter s's round-robin share on by one
      exactly when k mod m is s. */
  lemma ShareStep(k: nat, m: nat, s: nat)
    requires 1 <= m && s < m
    ensures k / m + (if s < k % m then 1 else 0) + (if k % m == s then 1 else 0)
         == (k + 1) / m + (if s < (k + 1) % m then 1 else 0)
  {
    DivModNext(k, m);
  }

  /** With at least as many volunteers as shelters, round robin serves every shelter. */
  lemma RoundRobinServesAll(vs: seq<Volunteer>, m: nat, s: nat)
    requires 1 <= m <= |vs| && s < m
    requires forall i :: 0 <= i < |vs| ==> vs[i].target == i % m
    ensures Share(vs, s) >= 1
  {
    RoundRobinShare(vs, m, s);
    var n := |vs|;
    var q, r := n / m, n % m;
    assert n == q * m + r;
    if q < 1 {
      if q < 0 {
        MulAtLeast(-q, m);
      }
      assert false;
    }
  }
}
