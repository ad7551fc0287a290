/**
 * The per-car interpolation state: applying a decoded record retargets one
 * car, and each render tick moves every tracked car one step towards (or,
 * after a large jump, straight onto) its target.
 */
module Physics {
  import opened Frame

  /** `struct Car`: the shown position and the per-tick step are floats, the target and position are ints. */
  datatype Car = Car(currentX: real, currentY: real, targetX: int, targetY: int,
                     stepX: real, stepY: real, pos: int, active: bool)

  /** Ticks a glide is spread over: updates arrive about every 3 ticks, so a car never runs out of step. */
  const GlideTicks: real := 6.0

  /** An X gap larger than this is a lag spike: the car jumps instead of gliding. */
  const SnapDistance: real := 500.0

  function Abs(x: real): (a: real)
    ensures a >= 0.0 && (a == x || a == -x)
  {
    if x < 0.0 then -x else x
  }

  /** `cars.find(id) == cars.end() || cars[id].currentX == 0`: no shown position yet. */
  predicate Unplaced(cars: map<int, Car>, id: int)
  {
    id !in cars || cars[id].currentX == 0.0
  }

  /**
   * One accepted record. A car seen for the first time, or still at X = 0,
   * jumps to the target; otherwise the shown position stays and the step is
   * a sixth of the remaining gap. Target, race position and `active` are set
   * in every case. A new car starts from the zeroed `Car{}` that
   * `std::map::operator[]` creates.
   */
  function ApplyRecord(cars: map<int, Car>, r: Record): (m: map<int, Car>)
    ensures m.Keys == cars.Keys + {r.id}
    ensures forall id :: id in cars && id != r.id ==> m[id] == cars[id]
    ensures m[r.id].targetX == r.x && m[r.id].targetY == r.y && m[r.id].pos == r.pos && m[r.id].active
    ensures Unplaced(cars, r.id) ==>
              m[r.id].currentX == r.x as real && m[r.id].currentY == r.y as real
              && m[r.id].stepX == 0.0 && m[r.id].stepY == 0.0
    ensures !Unplaced(cars, r.id) ==>
              m[r.id].currentX == cars[r.id].currentX && m[r.id].currentY == cars[r.id].currentY
              && m[r.id].currentX + GlideTicks * m[r.id].stepX == r.x as real
              && m[r.id].currentY + GlideTicks * m[r.id].stepY == r.y as real
  {
    var snap := Unplaced(cars, r.id);
    var cx := if snap then r.x as real else cars[r.id].currentX;
    var cy := if snap then r.y as real else cars[r.id].currentY;
    cars[r.id := Car(cx, cy, r.x, r.y, (r.x as real - cx) / GlideTicks, (r.y as real - cy) / GlideTicks, r.pos, true)]
  }

  predicate AllActive(cars: map<int, Car>)
  {
    forall id :: id in cars ==> cars[id].active
  }

  /** The car numbers a sequence of records names. */
  function Ids(rs: seq<Record>): (ids: set<int>)
    ensures forall i :: 0 <= i < |rs| ==> rs[i].id in ids
  {
    if |rs| == 0 then {} else {rs[0].id} + Ids(rs[1..])
  }

  /** The records of one frame, applied in wire order. */
  function ApplyAll(cars: map<int, Car>, rs: seq<Record>): map<int, Car>
    decreases |rs|
  {
    if |rs| == 0 then cars else ApplyAll(ApplyRecord(cars, rs[0]), rs[1..])
  }

  /** A frame adds exactly the cars it names to the table and removes none. */
  lemma {:induction false} ApplyAllKeys(cars: map<int, Car>, rs: seq<Record>)
    ensures ApplyAll(cars, rs).Keys == cars.Keys + Ids(rs)
    decreases |rs|
  {
    if |rs| > 0 {
      ApplyAllKeys(ApplyRecord(cars, rs[0]), rs[1..]);
    }
  }

  /** Every tracked car stays active: a frame only ever sets `active`. */
  lemma {:induction false} ApplyAllActive(cars: map<int, Car>, rs: seq<Record>)
    requires AllActive(cars)
    ensures AllActive(ApplyAll(cars, rs))
    decreases |rs|
  {
    if |rs| > 0 {
      ApplyAllActive(ApplyRecord(cars, rs[0]), rs[1..]);
    }
  }

  /** A car that no record of the frame names keeps its state, and stays absent if it was. */
  lemma {:induction false} ApplyAllUntouched(cars: map<int, Car>, rs: seq<Record>, id: int)
    requires forall i :: 0 <= i < |rs| ==> rs[i].id != id
    ensures id in ApplyAll(cars, rs) <==> id in cars
    ensures id in cars ==> ApplyAll(cars, rs)[id] == cars[id]
    decreases |rs|
  {
    if |rs| > 0 {
      ApplyAllUntouched(ApplyRecord(cars, rs[0]), rs[1..], id);
    }
  }

  /** Latest wins: the last record for a car in the frame decides its target and race position. */
  lemma {:induction false} ApplyAllLatestWins(cars: map<int, Car>, rs: seq<Record>, i: nat)
    requires i < |rs|
    requires forall j :: i < j < |rs| ==> rs[j].id != rs[i].id
    ensures rs[i].id in ApplyAll(cars, rs)
    ensures var c := ApplyAll(cars, rs)[rs[i].id];
            c.targetX == rs[i].x && c.targetY == rs[i].y && c.pos == rs[i].pos && c.active
    decreases |rs|
  {
    if i == 0 {
      ApplyAllUntouched(ApplyRecord(cars, rs[0]), rs[1..], rs[0].id);
    } else {
      ApplyAllLatestWins(ApplyRecord(cars, rs[0]), rs[1..], i - 1);
    }
  }

  // ---------------------------------------------------------------------
  // The render tick

  /**
   * One car on one tick of `drawReplay`: inactive cars and cars shown at
   * exactly (0,0) are skipped; an X gap above 500 (the Y gap is not looked
   * at) snaps both coordinates to the target; otherwise both move by one step.
   * Nothing but the shown position ever changes.
   */
  function AdvanceCar(c: Car): (d: Car)
    ensures d.targetX == c.targetX && d.targetY == c.targetY && d.pos == c.pos && d.active == c.active
    ensures d.stepX == c.stepX && d.stepY == c.stepY
    ensures !c.active || (c.currentX == 0.0 && c.currentY == 0.0) ==> d == c
    ensures c.active && !(c.currentX == 0.0 && c.currentY == 0.0) ==>
              if Abs(c.targetX as real - c.currentX) > SnapDistance
              then d.currentX == c.targetX as real && d.currentY == c.targetY as real
              else d.currentX == c.currentX + c.stepX && d.currentY == c.currentY + c.stepY
  {
    if !c.active || (c.currentX == 0.0 && c.currentY == 0.0) then c
    else if Abs(c.targetX as real - c.currentX) > SnapDistance then
      c.(currentX := c.targetX as real, currentY := c.targetY as real)
    else
      c.(currentX := c.currentX + c.stepX, currentY := c.currentY + c.stepY)
  }

  /** `k` ticks with no new record in between. */
  function Ticks(c: Car, k: nat): Car
  {
    if k == 0 then c else AdvanceCar(Ticks(c, k - 1))
  }

  /** Where a glide from `a` towards `t` stands after `j` ticks. */
  function Along(a: real, t: int, j: nat): real
  {
    a + (j as real) * ((t as real - a) / GlideTicks)
  }

  predicate Between(a: real, v: real, b: real)
  {
    (a <= v <= b) || (b <= v <= a)
  }

  lemma ScaleBetween(u: real, s: real)
    requires 0.0 <= u <= 6.0
    ensures s >= 0.0 ==> 0.0 <= u * s <= 6.0 * s
    ensures s < 0.0 ==> 6.0 * s <= u * s <= 0.0
  {
  }

  /** Within six ticks a glide stays between its start and its target, and never widens the gap. */
  lemma AlongBounds(a: real, t: int, j: nat)
    requires j <= 6
    ensures Between(a, Along(a, t, j), t as real)
    ensures Abs(t as real - Along(a, t, j)) <= Abs(t as real - a)
    ensures j == 6 ==> Along(a, t, j) == t as real
  {
    var d := t as real - a;
    var s := d / GlideTicks;
    assert d == 6.0 * s;
    assert t as real - Along(a, t, j) == (6.0 - j as real) * s;
    ScaleBetween(j as real, s);
    ScaleBetween(6.0 - j as real, s);
  }

  /** One tick of an undisturbed glide moves the car from step `j` to step `j + 1`. */
  lemma GlideStep(c: Car, x0: real, y0: real, j: nat)
    requires j < 6 && c.active
    requires c.stepX == (c.targetX as real - x0) / GlideTicks && c.stepY == (c.targetY as real - y0) / GlideTicks
    requires c.currentX == Along(x0, c.targetX, j) && c.currentY == Along(y0, c.targetY, j)
    requires !(c.currentX == 0.0 && c.currentY == 0.0)
    requires Abs(c.targetX as real - x0) <= SnapDistance
    ensures AdvanceCar(c).currentX == Along(x0, c.targetX, j + 1)
    ensures AdvanceCar(c).currentY == Along(y0, c.targetY, j + 1)
  {
    AlongBounds(x0, c.targetX, j);
  }

  /**
   * "Moves slower, but never stops": once a placed car (X not 0) is given a
   * target within the snap distance, each of the next six ticks moves it a
   * sixth of the way, it stays between where it was and the target, and it
   * reaches the target on the sixth tick, provided no intermediate point
   * is exactly (0,0), where the tick loop would leave it standing.
   */
  lemma {:induction false} GlideReachesTarget(cars: map<int, Car>, r: Record, k: nat)
    requires !Unplaced(cars, r.id)
    requires Abs(r.x as real - cars[r.id].currentX) <= SnapDistance
    requires k <= 6
    requires forall j: nat :: j < k ==>
               !(Along(cars[r.id].currentX, r.x, j) == 0.0 && Along(cars[r.id].currentY, r.y, j) == 0.0)
    ensures var c := Ticks(ApplyRecord(cars, r)[r.id], k);
            && c.currentX == Along(cars[r.id].currentX, r.x, k)
            && c.currentY == Along(cars[r.id].currentY, r.y, k)
            && Between(cars[r.id].currentX, c.currentX, r.x as real)
            && Between(cars[r.id].currentY, c.currentY, r.y as real)
            && (k == 6 ==> c.currentX == r.x as real && c.currentY == r.y as real)
  {
    var x0, y0 := cars[r.id].currentX, cars[r.id].currentY;
    Glide(ApplyRecord(cars, r)[r.id], x0, y0, k);
    AlongBounds(x0, r.x, k);
    AlongBounds(y0, r.y, k);
  }

  /** `k` undisturbed ticks of a car set gliding from (`x0`, `y0`) put it `k` sixths of the way. */
  lemma {:induction false} Glide(c: Car, x0: real, y0: real, k: nat)
    requires c.active && c.currentX == x0 && c.currentY == y0
    requires c.stepX == (c.targetX as real - x0) / GlideTicks && c.stepY == (c.targetY as real - y0) / GlideTicks
    requires Abs(c.targetX as real - x0) <= SnapDistance
    requires k <= 6
    requires forall j: nat :: j < k ==> !(Along(x0, c.targetX, j) == 0.0 && Along(y0, c.targetY, j) == 0.0)
    ensures Ticks(c, k).currentX == Along(x0, c.targetX, k) && Ticks(c, k).currentY == Along(y0, c.targetY, k)
    decreases k
  {
    if k > 0 {
      Glide(c, x0, y0, k - 1);
      TicksKeepTarget(c, k - 1);
      GlideStep(Ticks(c, k - 1), x0, y0, k - 1);
    }
  }

  /** Ticking never changes a car's target, step, race position or `active`. */
  lemma {:induction false} TicksKeepTarget(c: Car, k: nat)
    ensures var d := Ticks(c, k);
            d.targetX == c.targetX && d.targetY == c.targetY && d.pos == c.pos && d.active == c.active
            && d.stepX == c.stepX && d.stepY == c.stepY
  {
    if k > 0 {
      TicksKeepTarget(c, k - 1);
    }
  }
}
