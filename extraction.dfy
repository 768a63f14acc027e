/** The per-date pipeline of scripts/extract_data_along_river_paths.py: sample
    every scene along its river path, stitch the scenes into one track, build
    the table and drop repeated coordinates. */
module Extraction {
  import opened Common
  import opened Stats
  import opened Sampler
  import opened Stitcher
  import opened Dedup

  /** The window half-width used for the water variables. */
  const Group: nat := 4

  /** The turbidity range kept before taking the median. */
  const TurMin: real := 0.0
  const TurMax: real := 10000.0

  /** What one scene supplies: the bounding-box tag built from the path file
      name, the pixel path, and the rasters read from its product file. */
  datatype SceneInput = SceneInput(tag: string, path: seq<Cell>, lat: Matrix, lon: Matrix,
                                   tur: Matrix, hue: Matrix, rhow: Matrix)

  /** The coordinates are read pixel by pixel, so the path must lie on the
      coordinate rasters. */
  predicate Fits(s: SceneInput)
  {
    PathFits(s.lat, s.path, 0) && PathFits(s.lon, s.path, 0)
  }

  /** One series of a scene: the value of every path cell, in path order. */
  function Series(m: Matrix, path: seq<Cell>, g: nat, lo: Option<real>, hi: Option<real>): (v: seq<Option<real>>)
    requires PathFits(m, path, g)
    ensures |v| == |path|
  {
    seq(|path|, k requires 0 <= k < |path| => PixelValue(m, path[k], g, lo, hi))
  }

  /** The scene's series: coordinates without a window, turbidity as the
      windowed median within `[TurMin, TurMax]`, hue angle and reflectance as
      unfiltered windowed medians, and the tag on every point. */
  function Sampled(s: SceneInput): (sc: Scene)
    requires Fits(s)
    ensures sc.Valid() && sc.Len() == |s.path|
  {
    Scene(seq(|s.path|, _ => s.tag),
          Series(s.lat, s.path, 0, None, None),
          Series(s.lon, s.path, 0, None, None),
          Series(s.tur, s.path, Group, Some(TurMin), Some(TurMax)),
          Series(s.hue, s.path, Group, None, None),
          Series(s.rhow, s.path, Group, None, None))
  }

  /** Every row of a scene carries the scene's tag and the coordinate pixels
      of its path cell, and a turbidity that is a number lies in range. */
  lemma SampledRows(s: SceneInput, k: nat)
    requires Fits(s) && k < |s.path|
    ensures Rows(Sampled(s))[k].box == s.tag
    ensures Rows(Sampled(s))[k].lat == s.lat[s.path[k].row][s.path[k].col]
    ensures Rows(Sampled(s))[k].lon == s.lon[s.path[k].row][s.path[k].col]
    ensures Rows(Sampled(s))[k].tur.Some? ==> TurMin <= Rows(Sampled(s))[k].tur.value <= TurMax
  {
    var c := s.path[k];
    if PixelValue(s.tur, c, Group, Some(TurMin), Some(TurMax)).Some? {
      AggregateMedian(Window(s.tur, Around(c, Group)), Some(TurMin), Some(TurMax));
    }
  }

  /** Lines 32-43: the five `get_pixel_values` calls of one scene. */
  method BuildScene(s: SceneInput) returns (sc: Scene)
    requires Fits(s)
    ensures sc == Sampled(s)
  {
    var lat := GetPixelValues(s.path, s.lat, 0, None, None);
    var lon := GetPixelValues(s.path, s.lon, 0, None, None);
    var tur := GetPixelValues(s.path, s.tur, Group, Some(TurMax), Some(TurMin));
    var hue := GetPixelValues(s.path, s.hue, Group, None, None);
    var rhow := GetPixelValues(s.path, s.rhow, Group, None, None);
    var box := seq(|s.path|, _ => s.tag);
    sc := Scene(box, lat, lon, tur, hue, rhow);
  }

  ghost function AllSampled(inputs: seq<SceneInput>): (scenes: seq<Scene>)
    requires forall k :: 0 <= k < |inputs| ==> Fits(inputs[k])
    ensures |scenes| == |inputs|
  {
    seq(|inputs|, k requires 0 <= k < |inputs| => Sampled(inputs[k]))
  }

  /** `trail[k]` is the accumulator after the first `k` scenes, for every
      `k` up to the number of scenes merged so far. */
  ghost predicate Trail(scenes: seq<Scene>, trail: seq<Scene>)
  {
    1 <= |trail| <= |scenes| + 1 && trail[0] == Scene([], [], [], [], [], []) &&
    (forall k :: 0 <= k < |trail| ==> trail[k].Valid()) &&
    forall k :: 0 <= k < |trail| - 1 ==> scenes[k].Valid() && Step(trail[k], scenes[k], trail[k + 1])
  }

  /** Merging the next scene extends the trail. */
  lemma TrailExtend(scenes: seq<Scene>, trail: seq<Scene>, out: Scene)
    requires Trail(scenes, trail) && |trail| <= |scenes|
    requires scenes[|trail| - 1].Valid() && out.Valid()
    requires Step(trail[|trail| - 1], scenes[|trail| - 1], out)
    ensures Trail(scenes, trail + [out])
  {
    var t2 := trail + [out];
    forall k | 0 <= k < |t2| - 1
      ensures scenes[k].Valid() && Step(t2[k], scenes[k], t2[k + 1])
    {
      if k < |trail| - 1 {
        assert t2[k] == trail[k] && t2[k + 1] == trail[k + 1];
      }
    }
  }

  /** The scene loop has one outcome. */
  lemma {:induction false} TrailDeterministic(scenes: seq<Scene>, t1: seq<Scene>, t2: seq<Scene>, n: nat)
    requires Trail(scenes, t1) && Trail(scenes, t2) && n < |t1| && n < |t2|
    ensures t1[n] == t2[n]
  {
    if n > 0 {
      TrailDeterministic(scenes, t1, t2, n - 1);
      StepDeterministic(t1[n - 1], scenes[n - 1], t1[n], t2[n]);
    }
  }

  /** Every row of the stitched track is a row of one of the scenes. */
  lemma {:induction false} TrailRows(scenes: seq<Scene>, trail: seq<Scene>, n: nat, row: Row)
    requires Trail(scenes, trail) && n < |trail| && row in Rows(trail[n])
    ensures exists k :: 0 <= k < n && row in Rows(scenes[k])
  {
    if n > 0 {
      StepRows(trail[n - 1], scenes[n - 1], trail[n], row);
      if row in Rows(trail[n - 1]) {
        TrailRows(scenes, trail, n - 1, row);
      }
    }
  }

  /** With a single scene the track is that scene. */
  lemma SingleScene(scenes: seq<Scene>, trail: seq<Scene>)
    requires Trail(scenes, trail) && |trail| == 2
    ensures trail[1] == scenes[0]
  {
    assert Step(trail[0], scenes[0], trail[1]);
  }

  /** One pass of the scene loop: merge the next scene into the track and
      record the new accumulator on the trail. */
  method Advance(track: Track, sc: Scene, ghost scenes: seq<Scene>, ghost trail: seq<Scene>)
    returns (ghost trail': seq<Scene>)
    requires track.Valid() && sc.Valid()
    requires Trail(scenes, trail) && |trail| <= |scenes|
    requires trail[|trail| - 1] == track.Contents() && sc == scenes[|trail| - 1]
    modifies track
    ensures track.Valid() && trail' == trail + [track.Contents()] && Trail(scenes, trail')
  {
    ghost var before := track.Contents();
    var ic, jc := track.Merge(sc);
    MergeStep(before, sc, ic, jc, track.Contents());
    TrailExtend(scenes, trail, track.Contents());
    trail' := trail + [track.Contents()];
  }

  /** One date of the script: the scene loop of lines 26-63 over a `Track`,
      then the table of lines 65-67.  `trail` records the accumulator after
      each scene. */
  method ExtractTrack(inputs: seq<SceneInput>) returns (r: Result<seq<Row>>, ghost trail: seq<Scene>)
    requires forall k :: 0 <= k < |inputs| ==> Fits(inputs[k])
    ensures Trail(AllSampled(inputs), trail) && |trail| == |inputs| + 1
    ensures r.Err? <==> |inputs| == 0
    ensures r.Err? ==> r.error == RhowUnbound
    ensures r.Ok? ==> r.value == DropDuplicates(Rows(trail[|inputs|]))
  {
    ghost var scenes := AllSampled(inputs);
    var track := new Track();
    trail := [track.Contents()];
    var i := 0;
    while i < |inputs|
      invariant i < |trail| == i + 1 <= |inputs| + 1
      invariant track.Valid() && trail[i] == track.Contents()
      invariant Trail(scenes, trail)
    {
      var sc := BuildScene(inputs[i]);
      assert sc == scenes[i];
      trail := Advance(track, sc, scenes, trail);
      i := i + 1;
    }
    if i == 0 {
      r := Err(RhowUnbound);
    } else {
      r := Ok(DropDuplicates(Rows(track.Contents())));
    }
  }

  /** What the written table holds: no two rows share a coordinate pair,
      every row comes from one of the scenes, and a single scene is written
      as sampled, minus repeated coordinates. */
  lemma TableSpec(inputs: seq<SceneInput>, trail: seq<Scene>, row: Row)
    requires forall k :: 0 <= k < |inputs| ==> Fits(inputs[k])
    requires Trail(AllSampled(inputs), trail) && |trail| == |inputs| + 1
    ensures Distinct(DropDuplicates(Rows(trail[|inputs|])))
    ensures row in DropDuplicates(Rows(trail[|inputs|])) ==>
              exists k :: 0 <= k < |inputs| && row in Rows(Sampled(inputs[k]))
    ensures |inputs| == 1 ==> trail[1] == Sampled(inputs[0])
  {
    var scenes, rows := AllSampled(inputs), Rows(trail[|inputs|]);
    DropDuplicatesSpec(rows);
    if row in DropDuplicates(rows) {
      SubsequenceIn(DropDuplicates(rows), rows, row);
      TrailRows(scenes, trail, |inputs|, row);
      var k :| 0 <= k < |inputs| && row in Rows(scenes[k]);
      assert scenes[k] == Sampled(inputs[k]);
    }
    if |inputs| == 1 {
      SingleScene(scenes, trail);
    }
  }
}
