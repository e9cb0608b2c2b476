/**
 * A segment of a branch: its duration, the time period it falls in, the
 * rate model that applies to it, the state its start distribution is fixed
 * to (or a sentinel when there is none) and the areas fossils place it in.
 */
module Segments {
  /** The rate model a segment refers to; its contents are not part of this model. */
  class RateModel {
    constructor () {
    }
  }

  /** The sentinel standing for "no start distribution". */
  const NoStartDist: int := -666

  class BranchSegment {
    var duration: real
    var period: int
    var model: RateModel?
    var startDistInt: int
    var fossilAreas: seq<int>

    /** A segment with the given duration and period, no model, no start distribution and no fossil areas. */
    constructor (dur: real, per: int)
      ensures duration == dur && period == per
      ensures model == null
      ensures startDistInt == NoStartDist
      ensures fossilAreas == []
    {
      duration := dur;
      period := per;
      model := null;
      fossilAreas := [];
      startDistInt := NoStartDist;
    }

    method SetModel(mod: RateModel?)
      modifies this
      ensures model == mod
      ensures duration == old(duration) && period == old(period)
      ensures startDistInt == old(startDistInt) && fossilAreas == old(fossilAreas)
    {
      model := mod;
    }

    method GetModel() returns (mod: RateModel?)
      ensures mod == model
    {
      mod := model;
    }

    /** Forgets the start distribution: only the sentinel is stored. */
    method ClearStartDist()
      modifies this
      ensures startDistInt == NoStartDist
      ensures duration == old(duration) && period == old(period)
      ensures model == old(model) && fossilAreas == old(fossilAreas)
    {
      startDistInt := NoStartDist;
    }

    method GetDuration() returns (d: real)
      ensures d == duration
    {
      d := duration;
    }

    method GetPeriod() returns (p: int)
      ensures p == period
    {
      p := period;
    }

    method SetStartDistInt(d: int)
      modifies this
      ensures startDistInt == d
      ensures duration == old(duration) && period == old(period)
      ensures model == old(model) && fossilAreas == old(fossilAreas)
    {
      startDistInt := d;
    }

    method GetStartDistInt() returns (d: int)
      ensures d == startDistInt
    {
      d := startDistInt;
    }

    method GetFossilAreas() returns (areas: seq<int>)
      ensures areas == fossilAreas
    {
      areas := fossilAreas;
    }

    /** Records one more fossil area, after those already recorded. */
    method SetFossilArea(area: int)
      modifies this
      ensures fossilAreas == old(fossilAreas) + [area]
      ensures duration == old(duration) && period == old(period)
      ensures model == old(model) && startDistInt == old(startDistInt)
    {
      fossilAreas := fossilAreas + [area];
    }
  }

  /**
   * The getters of a fresh segment report the duration and period it was
   * made with, no start state and no fossil areas.
   */
  method NewSegmentReadsBack(dur: real, per: int) returns (d: real, p: int, s: int, areas: seq<int>)
    ensures d == dur && p == per && s == NoStartDist && areas == []
  {
    var seg := new BranchSegment(dur, per);
    d := seg.GetDuration();
    p := seg.GetPeriod();
    s := seg.GetStartDistInt();
    areas := seg.GetFossilAreas();
  }

  /** Setting the start state and reading it back gives that state; clearing it gives the sentinel again. */
  method StartDistRoundTrip(seg: BranchSegment, d: int) returns (got: int, cleared: int)
    modifies seg
    ensures got == d && cleared == NoStartDist
    ensures seg.fossilAreas == old(seg.fossilAreas) && seg.model == old(seg.model)
  {
    seg.SetStartDistInt(d);
    got := seg.GetStartDistInt();
    seg.ClearStartDist();
    cleared := seg.GetStartDistInt();
  }

  /** Setting the model and reading it back gives that model. */
  method ModelRoundTrip(seg: BranchSegment, mod: RateModel?) returns (got: RateModel?)
    modifies seg
    ensures got == mod
    ensures seg.startDistInt == old(seg.startDistInt) && seg.fossilAreas == old(seg.fossilAreas)
  {
    seg.SetModel(mod);
    got := seg.GetModel();
  }
}
