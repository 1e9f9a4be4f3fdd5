/** Detections as the tracker hands them to the frame loop: a track id and an
    integer pixel box (x1, y1, x2, y2). Person ids and helmet ids come from two
    independent trackers and are never compared with each other. */
module Detections {

  datatype Option<+T> = None | Some(value: T)

  /** Axis-aligned box in integer pixel coordinates, as produced by
      `list(map(int, box.xyxy[0]))`. */
  datatype BBox = BBox(x1: int, y1: int, x2: int, y2: int)

  datatype Detection = Detection(id: int, box: BBox)

  /** The set of the elements of a sequence of ids. */
  function IdSet(ids: seq<int>): (s: set<int>)
    ensures forall x :: x in s <==> x in ids
  {
    set x | x in ids
  }

  /** The ids carried by a sequence of detections. */
  function Ids(ds: seq<Detection>): (s: set<int>)
    ensures forall i :: 0 <= i < |ds| ==> ds[i].id in s
    ensures forall x :: x in s ==> exists i :: 0 <= i < |ds| && ds[i].id == x
  {
    set i | 0 <= i < |ds| :: ds[i].id
  }

  /** No id occurs twice. */
  predicate Distinct(s: seq<int>)
  {
    forall i, j :: 0 <= i < j < |s| ==> s[i] != s[j]
  }

  /** The ids of a sequence of detections, in order. */
  function IdList(ds: seq<Detection>): (s: seq<int>)
    ensures |s| == |ds| && forall i :: 0 <= i < |ds| ==> s[i] == ds[i].id
  {
    seq(|ds|, i requires 0 <= i < |ds| => ds[i].id)
  }

  /** No two detections carry the same id. */
  predicate DistinctIds(ds: seq<Detection>)
  {
    Distinct(IdList(ds))
  }
}
