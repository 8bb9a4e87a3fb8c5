/**
 * The showcase carousel: a cursor over the active vehicles, moved one step
 * at a time by the arrow buttons and the arrow keys (wrapping at both ends),
 * or set directly by a click on a thumbnail. The direction of the last move
 * only picks the slide animation.
 */
module VehicleShowcase {
  import opened Optional
  import opened VehicleData
  import Modular

  /**
   * The index `paginate` moves to: add the step, then send a position before
   * the start to the last index and a position past the end to 0.
   */
  function PaginateIndex(index: int, step: int, n: nat): (r: int)
    ensures n > 0 ==> 0 <= r < n
  {
    var i := index + step;
    var i := if i < 0 then n - 1 else i;
    if i >= n then 0 else i
  }

  /** A single step from a valid position wraps around modulo the number of vehicles. */
  lemma PaginateWraps(index: int, step: int, n: nat)
    requires 0 <= index < n
    requires step == 1 || step == -1
    ensures PaginateIndex(index, step, n) == (index + step) % n
    ensures 0 <= PaginateIndex(index, step, n) < n
  {
    if index + step == n {
      assert (index + step) % n == 0;
    } else if index + step < 0 {
      assert index + step == -1;
      Modular.DivModUnique(-1, -1, n - 1, n);
    } else {
      Modular.DivModUnique(index + step, 0, index + step, n);
    }
  }

  /** The index after k steps in the same direction. */
  function PaginateTimes(index: int, step: int, n: nat, k: nat): int
    decreases k
  {
    if k == 0 then index else PaginateTimes(PaginateIndex(index, step, n), step, n, k - 1)
  }

  /** k steps in one direction from a valid position land on (index + k * step) mod n. */
  lemma {:induction false} PaginateTimesModular(index: int, step: int, n: nat, k: nat)
    requires 0 <= index < n
    requires step == 1 || step == -1
    ensures PaginateTimes(index, step, n, k) == (index + k * step) % n
    decreases k
  {
    if k == 0 {
      Modular.DivModUnique(index, 0, index, n);
    } else {
      var next := PaginateIndex(index, step, n);
      PaginateWraps(index, step, n);
      PaginateTimesModular(next, step, n, k - 1);
      Modular.ModAddLeft(index + step, (k - 1) * step, n);
      assert index + step + (k - 1) * step == index + k * step;
    }
  }

  /** As many steps as there are vehicles, in either direction, come back to the start. */
  lemma FullTurn(index: int, step: int, n: nat)
    requires 0 <= index < n
    requires step == 1 || step == -1
    ensures PaginateTimes(index, step, n, n) == index
  {
    PaginateTimesModular(index, step, n, n);
    Modular.ModShift(index, step, n);
    assert index + n * step == index + step * n;
    Modular.DivModUnique(index, 0, index, n);
  }

  /** The step a key asks for: -1 for ArrowLeft, 1 for ArrowRight, none for any other key. */
  function KeyStep(key: string): Option<int> {
    if key == "ArrowLeft" then Some(-1)
    else if key == "ArrowRight" then Some(1)
    else None
  }

  /** The index after a key press. */
  function KeyIndex(index: int, key: string, n: nat): (r: int)
    ensures n > 0 && KeyStep(key).Some? ==> 0 <= r < n
    ensures KeyStep(key).None? ==> r == index
  {
    match KeyStep(key)
    case Some(step) => PaginateIndex(index, step, n)
    case None => index
  }

  /** The direction after a key press. */
  function KeyDirection(direction: int, key: string): int {
    match KeyStep(key)
    case Some(step) => step
    case None => direction
  }

  /** A key press moves a valid cursor one step back or forward, wrapping, and other keys leave it. */
  lemma KeyIndexWraps(index: int, key: string, n: nat)
    requires 0 <= index < n
    ensures key == "ArrowLeft" ==> KeyIndex(index, key, n) == (index - 1) % n
    ensures key == "ArrowRight" ==> KeyIndex(index, key, n) == (index + 1) % n
    ensures key != "ArrowLeft" && key != "ArrowRight" ==> KeyIndex(index, key, n) == index
    ensures 0 <= KeyIndex(index, key, n) < n
  {
    match KeyStep(key)
    case Some(step) => PaginateWraps(index, step, n);
    case None =>
  }

  class Carousel {
    const vehicles: seq<Vehicle>
    var currentIndex: int
    var direction: int

    /** While there is a vehicle to show, the cursor points at one. */
    ghost predicate Valid()
      reads this
    {
      |vehicles| > 0 ==> 0 <= currentIndex < |vehicles|
    }

    /** The state when the showcase mounts: the first vehicle, no direction yet. */
    constructor (vehicles: seq<Vehicle>)
      ensures this.vehicles == vehicles
      ensures currentIndex == 0 && direction == 0
      ensures Valid()
    {
      this.vehicles := vehicles;
      currentIndex := 0;
      direction := 0;
    }

    /** The vehicle on show; none (and nothing is rendered) when the index is outside the list. */
    function ActiveVehicle(): (r: Option<Vehicle>)
      reads this
      ensures r.Some? <==> 0 <= currentIndex < |vehicles|
      ensures r.Some? ==> r.value == vehicles[currentIndex]
      ensures Valid() && |vehicles| > 0 ==> r.Some?
    {
      if 0 <= currentIndex < |vehicles| then Some(vehicles[currentIndex]) else None
    }

    /** One step back (-1) or forward (1), wrapping at both ends. */
    method Paginate(newDirection: int)
      requires newDirection == -1 || newDirection == 1
      modifies this
      ensures direction == newDirection
      ensures currentIndex == PaginateIndex(old(currentIndex), newDirection, |vehicles|)
      ensures old(Valid()) && |vehicles| > 0 ==> currentIndex == (old(currentIndex) + newDirection) % |vehicles|
      ensures old(Valid()) ==> Valid()
    {
      direction := newDirection;
      var newIndex := currentIndex + newDirection;
      if newIndex < 0 {
        newIndex := |vehicles| - 1;
      }
      if newIndex >= |vehicles| {
        newIndex := 0;
      }
      if 0 <= currentIndex < |vehicles| {
        PaginateWraps(currentIndex, newDirection, |vehicles|);
      }
      currentIndex := newIndex;
    }

    /** A click on the thumbnail at idx: show that vehicle, animating forward only when idx is further on. */
    method SelectThumbnail(idx: int)
      requires 0 <= idx < |vehicles|
      modifies this
      ensures currentIndex == idx
      ensures direction == (if idx > old(currentIndex) then 1 else -1)
      ensures Valid()
    {
      direction := if idx > currentIndex then 1 else -1;
      currentIndex := idx;
    }

    /** The window keydown listener: ArrowLeft pages back, ArrowRight pages forward. */
    method HandleKeyDown(key: string)
      modifies this
      ensures currentIndex == KeyIndex(old(currentIndex), key, |vehicles|)
      ensures direction == KeyDirection(old(direction), key)
      ensures old(Valid()) ==> Valid()
    {
      if key == "ArrowLeft" {
        Paginate(-1);
      }
      if key == "ArrowRight" {
        Paginate(1);
      }
    }
  }

}
