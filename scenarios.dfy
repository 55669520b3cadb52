/** Client scenarios of the dispatch bookkeeping, proved from the contracts of
    `App.Simulation` alone. */
module Scenarios {
  import opened Records
  import opened App

  /** One shelter, five volunteers each drawing one unit of aid, all within reach on
      the first frame: the shelter receives exactly what it needs, is fulfilled, and
      the page reports completion. */
  method OneShelterFilled() returns (received: int, fulfilled: bool, more: bool)
    ensures received == NeedsPerShelter && fulfilled && !more
  {
    var sim := new Simulation();
    sim.AddShelter();
    var draws := [0.25, 0.25, 0.25, 0.25, 0.25];
    var outcome := sim.Dispatch(Number(5), draws, {0, 1, 2, 3, 4});
    var vs := sim.volunteers;
    assert forall i :: 0 <= i < 5 ==> vs[i] == Volunteer(0, 1, true);
    assert Delivered(vs[..1], 0) == 1 by { assert vs[..1][..0] == []; }
    assert Delivered(vs[..2], 0) == 2 by { assert vs[..2][..1] == vs[..1]; }
    assert Delivered(vs[..3], 0) == 3 by { assert vs[..3][..2] == vs[..2]; }
    assert Delivered(vs[..4], 0) == 4 by { assert vs[..4][..3] == vs[..3]; }
    assert Delivered(vs, 0) == 5;
    received := sim.shelters[0].received;
    fulfilled := Fulfilled(sim.shelters[0]);
    more := outcome.more;
  }

  /** Dispatch with no shelter is rejected and spawns nobody. */
  method NoShelterRejected() returns (outcome: DispatchOutcome, spawned: nat)
    ensures outcome == Rejected && spawned == 0
  {
    var sim := new Simulation();
    outcome := sim.Dispatch(NaN, [], {});
    spawned := |sim.volunteers|;
  }

  /** Three shelters and seven volunteers: shelter 0 gets volunteers 0, 3 and 6,
      shelters 1 and 2 get two each. */
  method SevenOverThree() returns (shares: seq<nat>)
    ensures shares == [3, 2, 2]
  {
    var sim := new Simulation();
    sim.AddShelter();
    sim.AddShelter();
    sim.AddShelter();
    var outcome := sim.Dispatch(Number(7), [0.5, 0.5, 0.5, 0.5, 0.5, 0.5, 0.5], {});
    var vs := sim.volunteers;
    RoundRobinShare(vs, 3, 0);
    RoundRobinShare(vs, 3, 1);
    RoundRobinShare(vs, 3, 2);
    shares := [Share(vs, 0), Share(vs, 1), Share(vs, 2)];
  }

  /** A count that does not parse falls back to ten volunteers. */
  method UnparsedCountIsTen() returns (spawned: nat)
    ensures spawned == DefaultCount
  {
    var sim := new Simulation();
    sim.AddShelter();
    var draws := seq(10, _ => 0.5);
    var outcome := sim.Dispatch(NaN, draws, {});
    spawned := |sim.volunteers|;
  }

  /** A negative count is not replaced: the batch is empty and the first frame already
      reports completion. */
  method NegativeCountCompletes() returns (spawned: nat, more: bool)
    ensures spawned == 0 && !more
  {
    var sim := new Simulation();
    sim.AddShelter();
    var outcome := sim.Dispatch(Number(-4), [], {});
    spawned := |sim.volunteers|;
    more := outcome.more;
  }
}
