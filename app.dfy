/** The dispatch and delivery bookkeeping of the SwarmAid map page: the shelters the
    user places, the batch of volunteers a dispatch spawns, and the per-frame tick that
    records arrivals and credits the shelters. */
module App {
  import opened Records

  /** What pressing Dispatch does: nothing when there is no shelter yet, otherwise it
      spawns `count` volunteers and runs the first tick, which says whether more
      ticks are to come and which shelters it showed as fulfilled. */
  datatype DispatchOutcome = Rejected | Started(count: int, more: bool, marked: set<nat>)

  class Simulation {
    /** The placed shelters, in placement order; volunteers refer to them by index. */
    var shelters: seq<Shelter>
    /** The current batch; a dispatch replaces it wholesale. */
    var volunteers: seq<Volunteer>
    /** What each shelter had received when the current batch was spawned. */
    ghost var baseline: seq<int>

    /** Every volunteer targets a placed shelter and carries 0 to 3 units, every
        shelter needs the default amount, and each shelter has received its amount at
        dispatch time plus the aid of the arrived volunteers that target it. */
    ghost predicate Valid()
      reads this
    {
      |baseline| == |shelters| &&
      (forall s :: 0 <= s < |shelters| ==> shelters[s].needs == NeedsPerShelter) &&
      (forall i :: 0 <= i < |volunteers| ==>
        volunteers[i].target < |shelters| && 0 <= volunteers[i].aid <= MaxAid) &&
      (forall s :: 0 <= s < |shelters| ==>
        shelters[s].received == baseline[s] + Delivered(volunteers, s))
    }

    /** The page at load: no shelter and an empty batch. */
    constructor ()
      ensures Valid()
      ensures shelters == [] && volunteers == []
    {
      shelters := [];
      volunteers := [];
      baseline := [];
    }

    /** A click on the map appends a shelter that needs the default amount and has
        received nothing; the other shelters and the batch are untouched. */
    method AddShelter()
      requires Valid()
      modifies this
      ensures Valid()
      ensures shelters == old(shelters) + [Shelter(NeedsPerShelter, 0)]
      ensures volunteers == old(volunteers)
      ensures baseline == old(baseline) + [0]
    {
      DeliveredNone(volunteers, |shelters|);
      shelters := shelters + [Shelter(NeedsPerShelter, 0)];
      baseline := baseline + [0];
    }

    /** Replaces the batch by `num` fresh volunteers (none when `num` is not positive):
        volunteer i targets shelter i mod the number of shelters and carries the aid
        drawn from `draws[i]`. Shelters keep what they had received, which becomes
        the new batch's baseline. */
    method Spawn(num: int, draws: seq<real>)
      requires Valid()
      requires |shelters| > 0
      requires num <= |draws|
      requires forall i :: 0 <= i < |draws| ==> 0.0 <= draws[i] < 1.0
      modifies this
      ensures Valid()
      ensures shelters == old(shelters)
      ensures |volunteers| == Spawned(num)
      ensures forall i :: 0 <= i < |volunteers| ==>
        volunteers[i] == Volunteer(i % |shelters|, AidFromRandom(draws[i]), false)
      ensures forall s :: 0 <= s < |shelters| ==> baseline[s] == shelters[s].received
    {
      volunteers := [];
      var sh := shelters;
      baseline := seq(|sh|, s requires 0 <= s < |sh| => sh[s].received);
      var i := 0;
      while i < num
        invariant 0 <= i <= Spawned(num)
        invariant shelters == old(shelters)
        invariant |volunteers| == i
        invariant forall j :: 0 <= j < i ==>
          volunteers[j] == Volunteer(j % |shelters|, AidFromRandom(draws[j]), false)
        invariant Valid()
        invariant forall s :: 0 <= s < |shelters| ==> baseline[s] == shelters[s].received
      {
        var v := Volunteer(i % |shelters|, AidFromRandom(draws[i]), false);
        forall s | 0 <= s < |shelters|
          ensures Delivered(volunteers + [v], s) == Delivered(volunteers, s)
        {
          DeliveredAppendUnarrived(volunteers, v, s);
        }
        volunteers := volunteers + [v];
        i := i + 1;
      }
    }

    /** One animation frame. `reach` holds the indices of the volunteers whose new
        position is within the arrival distance of their shelter. Each volunteer not
        yet arrived whose index is in `reach` becomes arrived and its aid is added to
        its target shelter; arrived volunteers are left alone. `marked` holds the
        shelters shown as fulfilled in this frame, `more` whether another frame
        is requested. */
    method Tick(reach: set<nat>) returns (more: bool, marked: set<nat>)
      requires Valid()
      modifies this
      ensures Valid() && baseline == old(baseline)
      ensures |volunteers| == |old(volunteers)|
      ensures forall i :: 0 <= i < |volunteers| ==>
        volunteers[i] == old(volunteers[i]).(arrived := old(volunteers[i].arrived) || i in reach)
      ensures |shelters| == |old(shelters)|
      ensures forall s :: 0 <= s < |shelters| ==>
        shelters[s] == old(shelters[s]).(received := old(shelters[s].received) + Gain(old(volunteers), reach, s))
      ensures forall s :: 0 <= s < |shelters| ==>
        old(shelters[s].received) <= shelters[s].received &&
        (Fulfilled(old(shelters[s])) ==> Fulfilled(shelters[s]))
      ensures marked <= ArrivalTargets(old(volunteers), reach)
      ensures forall s :: s in ArrivalTargets(old(volunteers), reach) ==>
        s < |shelters| && (s in marked <==> Fulfilled(shelters[s]))
      ensures more == Pending(volunteers)
    {
      ghost var vs0, sh0 := volunteers, shelters;
      marked := {};
      var i := 0;
      while i < |volunteers|
        invariant 0 <= i <= |vs0| == |volunteers|
        invariant |shelters| == |sh0| && baseline == old(baseline)
        invariant forall j :: 0 <= j < i ==>
          volunteers[j] == vs0[j].(arrived := vs0[j].arrived || j in reach)
        invariant forall j :: i <= j < |vs0| ==> volunteers[j] == vs0[j]
        invariant Valid()
        invariant marked <= ArrivalTargets(vs0[..i], reach)
        invariant forall s :: s in ArrivalTargets(vs0[..i], reach) ==>
          s < |shelters| && (s in marked <==> Fulfilled(shelters[s]))
      {
        ArrivalTargetsStep(vs0, reach, i);
        var v := volunteers[i];
        if !v.arrived && i in reach {
          var fulfilled := Arrive(i);
          if fulfilled {
            marked := marked + {v.target};
          }
        }
        i := i + 1;
      }
      assert vs0[..i] == vs0;
      forall s | 0 <= s < |shelters|
        ensures shelters[s].received == sh0[s].received + Gain(vs0, reach, s)
        ensures Gain(vs0, reach, s) >= 0
      {
        DeliveredAdvance(vs0, volunteers, reach, s);
        GainNonNegative(vs0, reach, s);
      }
      more := Pending(volunteers);
    }

    /** Volunteer i, not yet arrived, reaches its shelter: it becomes arrived and its
        aid is added to that shelter and to no other. `fulfilled` says whether the
        shelter has now received what it needs. */
    method Arrive(i: nat) returns (fulfilled: bool)
      requires Valid()
      requires i < |volunteers| && !volunteers[i].arrived
      modifies this
      ensures Valid() && baseline == old(baseline)
      ensures volunteers == old(volunteers)[i := old(volunteers[i]).(arrived := true)]
      ensures var t := old(volunteers[i]).target;
        t < |shelters| &&
        shelters == old(shelters)[t := old(shelters[t]).(received := old(shelters[t].received) + old(volunteers[i]).aid)] &&
        fulfilled == Fulfilled(shelters[t])
    {
      var v := volunteers[i];
      forall s | 0 <= s < |shelters|
        ensures Delivered(volunteers[i := v.(arrived := true)], s)
             == Delivered(volunteers, s) + (if v.target == s then v.aid else 0)
      {
        DeliveredArrive(volunteers, i, s);
      }
      volunteers := volunteers[i := v.(arrived := true)];
      var t := v.target;
      shelters := shelters[t := shelters[t].(received := shelters[t].received + v.aid)];
      fulfilled := Fulfilled(shelters[t]);
    }

    /** The Dispatch button. With no shelter it is rejected and nothing changes.
        Otherwise it spawns `EffectiveCount(p)` volunteers (none when that is
        negative) and runs the first tick: volunteer i targets shelter i mod the
        number of shelters, carries the aid drawn from `draws[i]` and has arrived
        exactly when i is in `reach`; each shelter has received its earlier amount
        plus the aid of the arrived volunteers that target it. The first tick shows as
        fulfilled exactly the shelters that an arrived volunteer targets and that have
        received what they need. */
    method Dispatch(p: Parsed, draws: seq<real>, reach: set<nat>) returns (outcome: DispatchOutcome)
      requires Valid()
      requires |shelters| > 0 ==> EffectiveCount(p) <= |draws|
      requires forall i :: 0 <= i < |draws| ==> 0.0 <= draws[i] < 1.0
      modifies this
      ensures Valid()
      ensures old(|shelters|) == 0 ==>
        outcome == Rejected && shelters == old(shelters) && volunteers == old(volunteers)
      ensures old(|shelters|) > 0 ==>
        outcome.Started? && outcome.count == EffectiveCount(p) &&
        |shelters| == old(|shelters|) && |volunteers| == Spawned(outcome.count) &&
        (forall i :: 0 <= i < |volunteers| ==>
          volunteers[i] == Volunteer(i % |shelters|, AidFromRandom(draws[i]), i in reach)) &&
        (forall s :: 0 <= s < |shelters| ==>
          shelters[s] == old(shelters[s]).(received := old(shelters[s].received) + Delivered(volunteers, s))) &&
        outcome.more == Pending(volunteers) &&
        (forall s: nat :: s in outcome.marked <==>
          s < |shelters| && Fulfilled(shelters[s]) &&
          exists i :: 0 <= i < |volunteers| && volunteers[i].arrived && volunteers[i].target == s)
    {
      if |shelters| == 0 {
        return Rejected;
      }
      var count := EffectiveCount(p);
      Spawn(count, draws);
      ghost var spawned := volunteers;
      var more, marked := Tick(reach);
      forall s: nat
        ensures s in marked <==>
          s < |shelters| && Fulfilled(shelters[s]) &&
          exists i :: 0 <= i < |volunteers| && volunteers[i].arrived && volunteers[i].target == s
      {
        ArrivalTargetsMember(spawned, reach, s);
        assert forall i :: 0 <= i < |volunteers| ==>
          (Arrives(spawned, i, reach) <==> volunteers[i].arrived) && volunteers[i].target == spawned[i].target;
      }
      outcome := Started(count, more, marked);
    }
  }
}
