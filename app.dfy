/**
 * The page: the catalog without the sold vehicles, the carousel over it, and
 * the detail overlay, whose state is the selected vehicle or none. The overlay
 * pages through the same list by looking the selection up by id, and both the
 * overlay and the carousel listen to the window's keydown events.
 */
module App {
  import opened Optional
  import opened VehicleData
  import opened VehicleShowcase
  import Modular

  /** `!v.sold` is false only for a vehicle whose sold flag is present and true. */
  predicate IsSold(v: Vehicle) {
    v.sold == Some(true)
  }

  /** The catalog shown on the page: the vehicles not sold, in their original order. */
  function ActiveVehicles(vs: seq<Vehicle>): (r: seq<Vehicle>)
    ensures |r| <= |vs|
  {
    if vs == [] then [] else (if IsSold(vs[0]) then [] else [vs[0]]) + ActiveVehicles(vs[1..])
  }

  /** The filter keeps exactly the vehicles that are not sold. */
  lemma {:induction false} ActiveVehiclesMembers(vs: seq<Vehicle>, v: Vehicle)
    ensures v in ActiveVehicles(vs) <==> v in vs && !IsSold(v)
  {
    if vs != [] {
      ActiveVehiclesMembers(vs[1..], v);
      assert vs == [vs[0]] + vs[1..];
    }
  }

  /** The number of sold vehicles in a list. */
  function CountSold(vs: seq<Vehicle>): nat {
    if vs == [] then 0 else (if IsSold(vs[0]) then 1 else 0) + CountSold(vs[1..])
  }

  /** Filtering a concatenation filters each part and keeps them in order: the filter is stable. */
  lemma {:induction false} ActiveVehiclesAppend(a: seq<Vehicle>, b: seq<Vehicle>)
    ensures ActiveVehicles(a + b) == ActiveVehicles(a) + ActiveVehicles(b)
    decreases |a|
  {
    if a == [] {
      assert a + b == b;
    } else {
      var c := a + b;
      assert c[0] == a[0] && c[1..] == a[1..] + b;
      var head := if IsSold(a[0]) then [] else [a[0]];
      assert ActiveVehicles(c) == head + ActiveVehicles(a[1..] + b);
      ActiveVehiclesAppend(a[1..], b);
      assert ActiveVehicles(a) == head + ActiveVehicles(a[1..]);
    }
  }

  /** Of N vehicles with K sold, N - K remain. */
  lemma {:induction false} ActiveVehiclesCount(vs: seq<Vehicle>)
    ensures |ActiveVehicles(vs)| == |vs| - CountSold(vs)
  {
    if vs != [] {
      ActiveVehiclesCount(vs[1..]);
    }
  }

  /** A list with nothing sold is shown whole. */
  lemma {:induction false} ActiveVehiclesNoneSold(vs: seq<Vehicle>)
    requires forall i :: 0 <= i < |vs| ==> !IsSold(vs[i])
    ensures ActiveVehicles(vs) == vs
  {
    if vs != [] {
      ActiveVehiclesNoneSold(vs[1..]);
      assert [vs[0]] + vs[1..] == vs;
    }
  }

  /** A catalog built from records none of which is sold is shown whole. */
  lemma CatalogAllActive(raws: seq<RawVehicle>)
    requires forall i :: 0 <= i < |raws| ==> !raws[i].sold
    ensures ActiveVehicles(Catalog(raws)) == Catalog(raws)
  {
    ActiveVehiclesNoneSold(Catalog(raws));
  }

  /** Nothing in the stock is sold, so the page shows all six vehicles. */
  lemma StockAllActive()
    ensures ActiveVehicles(Vehicles()) == Vehicles()
  {
    StockUnsold();
    CatalogAllActive(RawVehicles);
  }

  /** The page's active list has pairwise distinct ids, so the lemmas about paging below apply to it. */
  lemma PageIdsDistinct()
    ensures DistinctIds(ActiveVehicles(Vehicles()))
  {
    StockAllActive();
    StockIdsDistinct();
  }

  /** `findIndex` by id: the first position holding the id, or -1 when there is none. */
  function FindIndexById(vs: seq<Vehicle>, id: string): (i: int)
    ensures -1 <= i < |vs|
    ensures i == -1 <==> forall j :: 0 <= j < |vs| ==> vs[j].id != id
    ensures i >= 0 ==> vs[i].id == id && forall j :: 0 <= j < i ==> vs[j].id != id
  {
    if vs == [] then -1
    else if vs[0].id == id then 0
    else
      var k := FindIndexById(vs[1..], id);
      if k == -1 then -1 else k + 1
  }

  /** No two vehicles of the list share an id. */
  predicate DistinctIds(vs: seq<Vehicle>) {
    forall i, j :: 0 <= i < j < |vs| ==> vs[i].id != vs[j].id
  }

  /** With distinct ids, looking up the id of the vehicle at j finds j. */
  lemma FindIndexOfMember(vs: seq<Vehicle>, j: int)
    requires DistinctIds(vs)
    requires 0 <= j < |vs|
    ensures FindIndexById(vs, vs[j].id) == j
  {
  }

  datatype NavDirection = Next | Prev

  /**
   * The position after i in the given direction, wrapping around. Both operands
   * of the remainder are non-negative, so JavaScript's `%` agrees with Dafny's.
   */
  function StepIndex(i: int, n: nat, dir: NavDirection): (r: int)
    requires 0 <= i < n
    ensures 0 <= r < n
    ensures r == (i + (if dir == Next then 1 else -1)) % n
  {
    if dir == Next then (i + 1) % n
    else
      Modular.ModShift(i - 1, 1, n);
      (i - 1 + n) % n
  }

  /** The selection after `navigateVehicle(dir)`. */
  function Navigate(selected: Option<Vehicle>, active: seq<Vehicle>, dir: NavDirection): (r: Option<Vehicle>)
    ensures r.None? <==> selected.None?
    ensures r != selected ==> r.Some? && r.value in active
  {
    match selected
    case None => None
    case Some(v) =>
      var i := FindIndexById(active, v.id);
      if i == -1 then selected else Some(active[StepIndex(i, |active|, dir)])
  }

  /**
   * Paging the overlay from the vehicle at position j selects the vehicle
   * one position further on or back, wrapping at both ends.
   */
  lemma NavigateFromMember(active: seq<Vehicle>, j: int, dir: NavDirection)
    requires DistinctIds(active)
    requires 0 <= j < |active|
    ensures dir == Next ==> Navigate(Some(active[j]), active, dir) == Some(active[(j + 1) % |active|])
    ensures dir == Prev ==> Navigate(Some(active[j]), active, dir) == Some(active[(j - 1) % |active|])
    ensures Navigate(Some(active[j]), active, dir) == Some(active[StepIndex(j, |active|, dir)])
  {
    FindIndexOfMember(active, j);
  }

  /** With nothing selected, or a selection whose id is not in the list, paging changes nothing. */
  lemma NavigateWithoutMatch(selected: Option<Vehicle>, active: seq<Vehicle>, dir: NavDirection)
    requires selected.None? || forall j :: 0 <= j < |active| ==> active[j].id != selected.value.id
    ensures Navigate(selected, active, dir) == selected
  {
  }

  /** With distinct ids, a page in one direction followed by a page in the other comes back. */
  lemma ReturnTrip(active: seq<Vehicle>, j: int, dir: NavDirection, back: NavDirection)
    requires DistinctIds(active)
    requires 0 <= j < |active|
    requires back != dir
    ensures Navigate(Navigate(Some(active[j]), active, dir), active, back) == Some(active[j])
  {
    var n := |active|;
    var step := if dir == Next then 1 else -1;
    var there := StepIndex(j, n, dir);
    NavigateFromMember(active, j, dir);
    NavigateFromMember(active, there, back);
    assert StepIndex(there, n, back) == j by {
      Modular.ModAddLeft(j + step, -step, n);
      Modular.ModFullTurn(j, n);
      assert j + step + -step == j;
    }
  }

  /** With distinct ids, 'next' then 'prev' (and 'prev' then 'next') come back to the same vehicle. */
  lemma NextPrevInverse(active: seq<Vehicle>, j: int)
    requires DistinctIds(active)
    requires 0 <= j < |active|
    ensures Navigate(Navigate(Some(active[j]), active, Next), active, Prev) == Some(active[j])
    ensures Navigate(Navigate(Some(active[j]), active, Prev), active, Next) == Some(active[j])
  {
    ReturnTrip(active, j, Next, Prev);
    ReturnTrip(active, j, Prev, Next);
  }

  /** The selection after k pages in one direction. */
  function NavigateTimes(selected: Option<Vehicle>, active: seq<Vehicle>, dir: NavDirection, k: nat): Option<Vehicle>
    decreases k
  {
    if k == 0 then selected else NavigateTimes(Navigate(selected, active, dir), active, dir, k - 1)
  }

  /** k pages forward from the vehicle at j select the vehicle at (j + k) mod n. */
  lemma {:induction false} NextTimes(active: seq<Vehicle>, j: int, k: nat)
    requires DistinctIds(active)
    requires 0 <= j < |active|
    ensures NavigateTimes(Some(active[j]), active, Next, k) == Some(active[(j + k) % |active|])
    decreases k
  {
    var n := |active|;
    if k == 0 {
      Modular.ModFullTurn(j, n);
    } else {
      var after := StepIndex(j, n, Next);
      assert Navigate(Some(active[j]), active, Next) == Some(active[after]) by {
        NavigateFromMember(active, j, Next);
      }
      assert NavigateTimes(Some(active[j]), active, Next, k)
          == NavigateTimes(Some(active[after]), active, Next, k - 1);
      NextTimes(active, after, k - 1);
      assert (after + (k - 1)) % n == (j + k) % n by {
        Modular.ModAddLeft(j + 1, k - 1, n);
      }
    }
  }

  /** n pages forward through n vehicles come back to the start. */
  lemma NextFullTurn(active: seq<Vehicle>, j: int)
    requires DistinctIds(active)
    requires 0 <= j < |active|
    ensures NavigateTimes(Some(active[j]), active, Next, |active|) == Some(active[j])
  {
    var n := |active|;
    NextTimes(active, j, n);
    Modular.ModFullTurn(j, n);
  }

  /**
   * The selection after the overlay's keydown listener: nothing while the
   * overlay is closed; otherwise ArrowLeft pages back, ArrowRight pages on
   * and Escape closes.
   */
  function ModalKey(selected: Option<Vehicle>, active: seq<Vehicle>, key: string): (r: Option<Vehicle>)
    ensures r.Some? ==> selected.Some?
    ensures r != selected ==> r.None? || r.value in active
  {
    if selected.None? then selected
    else if key == "ArrowLeft" then Navigate(selected, active, Prev)
    else if key == "ArrowRight" then Navigate(selected, active, Next)
    else if key == "Escape" then None
    else selected
  }

  /**
   * One arrow key press with the overlay open on the vehicle at j and the
   * carousel at i moves both cursors the same way: each listener on the
   * window reacts to the same event.
   */
  lemma ArrowKeyMovesBothCursors(active: seq<Vehicle>, i: int, j: int, key: string)
    requires DistinctIds(active)
    requires 0 <= i < |active| && 0 <= j < |active|
    requires key == "ArrowLeft" || key == "ArrowRight"
    ensures var step := if key == "ArrowRight" then 1 else -1;
      && KeyIndex(i, key, |active|) == (i + step) % |active|
      && ModalKey(Some(active[j]), active, key) == Some(active[(j + step) % |active|])
  {
    KeyIndexWraps(i, key, |active|);
    NavigateFromMember(active, j, if key == "ArrowRight" then Next else Prev);
  }

  /** Keys reach the overlay only while it is open; Escape closes it and leaves the carousel where it is. */
  lemma ModalKeyCases(selected: Option<Vehicle>, active: seq<Vehicle>, key: string, i: int)
    ensures selected.None? ==> ModalKey(selected, active, key) == None
    ensures ModalKey(selected, active, "Escape") == None
    ensures KeyIndex(i, "Escape", |active|) == i
    ensures key != "ArrowLeft" && key != "ArrowRight" && key != "Escape" ==> ModalKey(selected, active, key) == selected
  {
  }

  class Page {
    const activeVehicles: seq<Vehicle>
    const showcase: Carousel
    var selectedVehicle: Option<Vehicle>

    /** The carousel runs over the page's active list and keeps its cursor on it. */
    ghost predicate Valid()
      reads this, showcase
    {
      showcase.vehicles == activeVehicles && showcase.Valid()
    }

    /** The page as first rendered: nothing selected, the carousel at the first vehicle. */
    constructor (vehicles: seq<Vehicle>)
      ensures activeVehicles == ActiveVehicles(vehicles)
      ensures selectedVehicle == None
      ensures fresh(showcase)
      ensures showcase.currentIndex == 0 && showcase.direction == 0
      ensures Valid()
    {
      var active := ActiveVehicles(vehicles);
      activeVehicles := active;
      showcase := new Carousel(active);
      selectedVehicle := None;
    }

    /** The overlay is rendered exactly when a vehicle is selected. */
    predicate OverlayOpen()
      reads this
    {
      selectedVehicle.Some?
    }

    /** `onSelect` from the showcase: select the given vehicle, whatever it is. */
    method Select(v: Vehicle)
      modifies this
      ensures selectedVehicle == Some(v) && OverlayOpen()
      ensures unchanged(showcase)
    {
      selectedVehicle := Some(v);
    }

    /** A click on the carousel's slide or its details button opens the vehicle on show. */
    method SelectShowcaseVehicle()
      requires Valid()
      requires showcase.ActiveVehicle().Some?
      modifies this
      ensures selectedVehicle == showcase.ActiveVehicle() && OverlayOpen()
      ensures selectedVehicle.value in activeVehicles
      ensures unchanged(showcase) && Valid()
    {
      Select(showcase.ActiveVehicle().value);
    }

    /** The close button, a click on the backdrop, and Escape: clear the selection. */
    method Close()
      modifies this
      ensures selectedVehicle == None && !OverlayOpen()
      ensures unchanged(showcase)
    {
      selectedVehicle := None;
    }

    /** `navigateVehicle`: move the selection to the next or previous active vehicle, wrapping. */
    method NavigateVehicle(dir: NavDirection)
      modifies this
      ensures selectedVehicle == Navigate(old(selectedVehicle), activeVehicles, dir)
      ensures unchanged(showcase)
    {
      if selectedVehicle.None? {
        return;
      }
      var currentIndex := FindIndexById(activeVehicles, selectedVehicle.value.id);
      if currentIndex == -1 {
        return;
      }
      var nextIndex;
      if dir == Next {
        nextIndex := (currentIndex + 1) % |activeVehicles|;
      } else {
        nextIndex := (currentIndex - 1 + |activeVehicles|) % |activeVehicles|;
      }
      selectedVehicle := Some(activeVehicles[nextIndex]);
    }

    /** The overlay's window keydown listener. */
    method HandleModalKeyDown(key: string)
      modifies this
      ensures selectedVehicle == ModalKey(old(selectedVehicle), activeVehicles, key)
      ensures unchanged(showcase)
    {
      if selectedVehicle.None? {
        return;
      }
      if key == "ArrowLeft" {
        NavigateVehicle(Prev);
      }
      if key == "ArrowRight" {
        NavigateVehicle(Next);
      }
      if key == "Escape" {
        Close();
      }
    }

    /**
     * One keydown event on the window reaches both listeners, the carousel's
     * and the overlay's, in either order, since they change disjoint state.
     */
    method KeyDown(key: string)
      requires Valid()
      modifies this, showcase
      ensures showcase.currentIndex == KeyIndex(old(showcase.currentIndex), key, |activeVehicles|)
      ensures showcase.direction == KeyDirection(old(showcase.direction), key)
      ensures selectedVehicle == ModalKey(old(selectedVehicle), activeVehicles, key)
      ensures Valid()
    {
      showcase.HandleKeyDown(key);
      HandleModalKeyDown(key);
    }
  }

}
