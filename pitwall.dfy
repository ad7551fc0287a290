/**
 * The replay screen's live state: the table of tracked cars and the clock
 * text, updated by each text frame from the stream and by each render tick.
 */
module Pitwall {
  import opened Wrappers
  import opened Text
  import opened Frame
  import opened Physics
  import Geometry
  import Roster
  import Sets

  /** A car's dot on the map: its pixel, its team colour, and whether it is ringed as the leader. */
  datatype Marker = Marker(x: int, y: int, colour: Roster.Rgb, leader: bool)

  /** A tick moves this car: it is active and not shown at exactly (0,0). */
  predicate Moving(c: Car)
  {
    c.active && !(c.currentX == 0.0 && c.currentY == 0.0)
  }

  /** Where a car is drawn. */
  function Spot(p: Geometry.Projection, c: Car): (int, int)
  {
    Geometry.WorldToScreen(p, c.currentX, c.currentY)
  }

  /** The dot drawn for car `id` where it is shown now: coloured as its roster entry, ringed when it leads. */
  function MarkerOf(p: Geometry.Projection, drivers: seq<Roster.Driver>, id: int, c: Car): Marker
  {
    Marker(Spot(p, c).0, Spot(p, c).1, Roster.Shown(drivers, id).1, c.pos == 1)
  }

  /**
   * What one tick draws for car `id`, given the car before the tick: its dot
   * where it moved to, or nothing when it does not move or lands off screen.
   */
  function MarkFor(p: Geometry.Projection, drivers: seq<Roster.Driver>, id: int, c: Car): Option<Marker>
  {
    if Moving(c) && Geometry.OnScreen(Spot(p, AdvanceCar(c))) then Some(MarkerOf(p, drivers, id, AdvanceCar(c))) else None
  }

  /** The car that `std::map::operator[]` creates for a number not yet in the table. */
  const Fresh: Car := Car(0.0, 0.0, 0, 0, 0.0, 0.0, 0, false)

  /** Applying a chunk's zero or one record, then the rest, is applying them all. */
  lemma ApplyAllCons(cars: map<int, Car>, all: seq<Record>, kept: seq<Record>, rest: seq<Record>)
    requires |kept| <= 1 && all == kept + rest
    ensures ApplyAll(cars, all) == ApplyAll(ApplyAll(cars, kept), rest)
  {
    if |kept| == 0 {
      assert all == rest;
    } else {
      assert all[0] == kept[0] && all[1..] == rest;
      assert ApplyAll(cars, kept) == ApplyRecord(cars, kept[0]) by {
        assert kept[1..] == [];
      }
    }
  }

  /** One chunk of the text callback: its record applied if it is kept, nothing otherwise. */
  function ApplyChunk(cars: map<int, Car>, chunk: string): map<int, Car>
  {
    match DecodeChunk(chunk)
    case Some(r) => ApplyRecord(cars, r)
    case None => cars
  }

  /**
   * The chunk loop of the text callback from `start` on: apply the chunk up
   * to `ChunkEnd`, then continue after it.
   */
  function ApplyFrom(cars: map<int, Car>, msg: string, start: nat): map<int, Car>
    decreases |msg| - start
  {
    if start < |msg| then
      var e := ChunkEnd(msg, start);
      ApplyFrom(ApplyChunk(cars, Substring(msg, start, e)), msg, e + 1)
    else cars
  }

  /** A chunk's effect is that of the zero or one record it keeps. */
  lemma ApplyChunkKept(cars: map<int, Car>, chunk: string)
    ensures ApplyChunk(cars, chunk) == ApplyAll(cars, Kept(chunk))
  {
    match DecodeChunk(chunk)
    case Some(r) =>
      assert Kept(chunk) == [r];
      assert ApplyAll(cars, [r]) == ApplyAll(ApplyRecord(cars, r), []);
    case None =>
      assert Kept(chunk) == [];
  }

  /** One turn of the chunk loop: the chunk up to `ChunkEnd`, then the rest after it. */
  lemma ApplyFromUnfold(cars: map<int, Car>, msg: string, start: nat)
    requires start < |msg|
    ensures ApplyFrom(cars, msg, start)
            == ApplyFrom(ApplyChunk(cars, Substring(msg, start, ChunkEnd(msg, start))), msg, ChunkEnd(msg, start) + 1)
  {
  }

  /**
   * The chunk loop applies, in wire order, the records of the accepted
   * pieces between the separators from `start` on.
   */
  lemma {:induction false} ApplyFromSplit(cars: map<int, Car>, msg: string, start: nat)
    requires start <= |msg| + 1
    ensures ApplyFrom(cars, msg, start) == ApplyAll(cars, RecordsFrom(msg, start))
    decreases |msg| + 1 - start
  {
    if start < |msg| {
      ApplyFromUnfold(cars, msg, start);
      ApplyChunkKept(cars, Substring(msg, start, ChunkEnd(msg, start)));
      RecordsFromStep(msg, start);
      ApplyFromSplit(ApplyAll(cars, Kept(Substring(msg, start, ChunkEnd(msg, start)))), msg, ChunkEnd(msg, start) + 1);
      ApplyAllCons(cars, RecordsFrom(msg, start), Kept(Substring(msg, start, ChunkEnd(msg, start))),
                   RecordsFrom(msg, ChunkEnd(msg, start) + 1));
    } else if start == |msg| {
      SplitEnd(msg);
    }
  }

  class Replay {
    /** `cars`: the tracked cars by number. */
    var cars: map<int, Car>
    /** `gameTimeStr`: the clock text shown at the top of the sidebar. */
    var gameTime: string

    /** Every tracked car has received at least one record, which made it active. */
    ghost predicate Valid()
      reads this
    {
      AllActive(cars)
    }

    constructor ()
      ensures cars == map[] && gameTime == "00:00"
      ensures Valid()
    {
      cars := map[];
      gameTime := "00:00";
    }

    /** The apply step of the text callback, field by field on the car's table entry. */
    method Apply(r: Record)
      modifies this
      ensures cars == ApplyRecord(old(cars), r)
      ensures AllActive(old(cars)) ==> AllActive(cars)
      ensures gameTime == old(gameTime)
    {
      var car := if r.id in cars then cars[r.id] else Fresh;
      if r.id !in cars || car.currentX == 0.0 {
        car := car.(currentX := r.x as real, currentY := r.y as real);
      }
      car := car.(targetX := r.x, targetY := r.y, pos := r.pos, active := true);
      car := car.(stepX := (r.x as real - car.currentX) / GlideTicks,
                  stepY := (r.y as real - car.currentY) / GlideTicks);
      cars := cars[r.id := car];
    }

    /** One chunk of the text callback: decode it, and apply its record if it is kept. */
    method OnChunk(chunk: string)
      modifies this
      ensures cars == ApplyChunk(old(cars), chunk)
      ensures AllActive(old(cars)) ==> AllActive(cars)
      ensures gameTime == old(gameTime)
    {
      var decoded := DecodeChunk(chunk);
      if decoded.Some? {
        Apply(decoded.value);
      }
    }

    /**
     * One turn of the chunk loop: find the chunk's end (the next '|' or the
     * end of the text), handle the chunk, and continue after it.
     */
    method NextChunk(msg: string, start: nat) returns (next: nat)
      requires start < |msg|
      modifies this
      ensures next == ChunkEnd(msg, start) + 1
      ensures cars == ApplyChunk(old(cars), Substring(msg, start, ChunkEnd(msg, start)))
      ensures start < next <= |msg| + 1
      ensures ApplyFrom(cars, msg, next) == ApplyFrom(old(cars), msg, start)
      ensures AllActive(old(cars)) ==> AllActive(cars)
      ensures gameTime == old(gameTime)
    {
      ApplyFromUnfold(cars, msg, start);
      OnChunk(Substring(msg, start, ChunkEnd(msg, start)));
      next := ChunkEnd(msg, start) + 1;
    }

    /**
     * The text callback. A frame without '|' changes nothing. Otherwise the
     * clock becomes the frame's timestamp and the frame's accepted records
     * are applied to the table in wire order; chunks that are dropped are
     * stepped over and the rest still apply.
     */
    method OnText(msg: string)
      requires Valid()
      modifies this
      ensures Valid()
      ensures DecodeFrame(msg).None? ==> cars == old(cars) && gameTime == old(gameTime)
      ensures DecodeFrame(msg).Some? ==>
        gameTime == DecodeFrame(msg).value.clock && cars == ApplyAll(old(cars), DecodeFrame(msg).value.records)
    {
      var pipe := IndexOf(msg, '|', 0);
      if pipe == -1 {
        return;
      }
      DecodeFrameAt(msg);
      var ms := ToInt(Substring(msg, 0, pipe));
      gameTime := Clock(ms);
      ApplyFromSplit(cars, msg, pipe + 1);
      ApplyChunks(msg, pipe + 1);
    }

    /** The chunk loop of the text callback, from `start` to the end of the text. */
    method ApplyChunks(msg: string, start: nat)
      requires start <= |msg| + 1
      modifies this
      ensures cars == ApplyFrom(old(cars), msg, start)
      ensures AllActive(old(cars)) ==> AllActive(cars)
      ensures gameTime == old(gameTime)
    {
      var i := start;
      while i < |msg|
        invariant start <= i <= |msg| + 1
        invariant ApplyFrom(cars, msg, i) == ApplyFrom(old(cars), msg, start)
        invariant AllActive(old(cars)) ==> AllActive(cars)
        invariant gameTime == old(gameTime)
        decreases |msg| + 1 - i
      {
        i := NextChunk(msg, i);
      }
    }

    /**
     * The car loop of `drawReplay`: every moving car advances one tick, and
     * a marker is produced for each one that then projects onto the screen,
     * coloured as its first roster entry (white without one) and ringed when
     * it leads. Cars that do not move are neither advanced nor drawn; the
     * table keeps its numbers and the clock is untouched.
     */
    method DrawReplay(p: Geometry.Projection, drivers: seq<Roster.Driver>) returns (marks: map<int, Marker>)
      requires Valid()
      modifies this
      ensures Valid()
      ensures cars.Keys == old(cars).Keys && gameTime == old(gameTime)
      ensures forall id :: id in cars ==> cars[id] == AdvanceCar(old(cars)[id])
      ensures forall id :: id in marks <==> id in cars && Moving(old(cars)[id]) && Geometry.OnScreen(Spot(p, cars[id]))
      ensures forall id :: id in marks ==> marks[id] == MarkerOf(p, drivers, id, cars[id])
    {
      marks := map[];
      var left := cars.Keys;
      while left != {}
        invariant left <= cars.Keys && cars.Keys == old(cars).Keys && gameTime == old(gameTime)
        invariant marks.Keys <= cars.Keys && Valid()
        invariant forall id :: id in left ==> cars[id] == old(cars)[id] && id !in marks
        invariant forall id :: id in cars && id !in left ==>
          cars[id] == AdvanceCar(old(cars)[id])
          && (if id in marks then Some(marks[id]) else None) == MarkFor(p, drivers, id, old(cars)[id])
        decreases |left|
      {
        Sets.HasMember(left);
        var id :| id in left;
        left := left - {id};
        var mark := TickCar(p, drivers, id);
        if mark.Some? {
          marks := marks[id := mark.value];
        }
      }
    }

    /**
     * The body of the car loop of `drawReplay` for car `id`: a car that does
     * not move is skipped; otherwise it snaps or steps, and its dot is
     * produced when it lands on the screen.
     */
    method TickCar(p: Geometry.Projection, drivers: seq<Roster.Driver>, id: int) returns (mark: Option<Marker>)
      requires Valid() && id in cars
      modifies this
      ensures Valid()
      ensures cars == old(cars)[id := AdvanceCar(old(cars)[id])] && gameTime == old(gameTime)
      ensures mark == MarkFor(p, drivers, id, old(cars)[id])
    {
      var car := cars[id];
      if !car.active || (car.currentX == 0.0 && car.currentY == 0.0) {
        return None;
      }
      if Abs(car.targetX as real - car.currentX) > SnapDistance {
        car := car.(currentX := car.targetX as real, currentY := car.targetY as real);
      } else {
        car := car.(currentX := car.currentX + car.stepX, currentY := car.currentY + car.stepY);
      }
      cars := cars[id := car];
      var s := Spot(p, car);
      if !Geometry.OnScreen(s) {
        return None;
      }
      var colour := Roster.MarkerColour(drivers, id);
      return Some(Marker(s.0, s.1, colour, car.pos == 1));
    }
  }
}
