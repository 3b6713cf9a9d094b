/** Face identification (class FaceRecognizer) with the image processing
    abstracted away.

    An encoding is represented by what the code uses it for: its Euclidean
    distances to the stored encodings, one per known name, in store order.
    The located faces, their encodings and the Haar-cascade regions of a frame
    (each with the first encoding found in it, if any) are inputs.
 */
module FaceRecognizer {
  import opened Wrappers

  /** The label given to a face that is not recognised. */
  const Unknown: string := "Inconnu"

  /** A distance, or `float("inf")`. */
  datatype Distance = Finite(d: real) | Infinity

  /** Python's `<` between two such floats. */
  predicate DLess(a: Distance, b: Distance)
  {
    a.Finite? && (b.Infinity? || a.d < b.d)
  }

  /** A face encoding, as its distances to the stored encodings. */
  type Encoding = seq<real>

  /** (top, right, bottom, left) */
  datatype Box = Box(top: int, right: int, bottom: int, left: int)

  /** The loaded store: names in load order and the acceptance threshold. */
  datatype Recognizer = Recognizer(names: seq<string>, threshold: real)

  predicate Fits(rec: Recognizer, e: Encoding)
  {
    |e| == |rec.names|
  }

  datatype Match = Match(name: Option<string>, distance: Distance)

  /** `np.argmin`: an index of the least value, the first one on ties. */
  function ArgMin(ds: seq<real>): (i: nat)
    requires |ds| > 0
    ensures i < |ds|
    ensures forall j :: 0 <= j < |ds| ==> ds[i] <= ds[j]
    ensures forall j :: 0 <= j < i ==> ds[i] < ds[j]
  {
    if |ds| == 1 then 0
    else
      var k := ArgMin(ds[..|ds| - 1]);
      assert forall j :: 0 <= j < |ds| - 1 ==> ds[..|ds| - 1][j] == ds[j];
      if ds[|ds| - 1] < ds[k] then |ds| - 1 else k
  }

  /** `_best_match`: nothing and an infinite distance on an empty store;
      otherwise the first closest known name and its distance. */
  function BestMatch(rec: Recognizer, e: Encoding): (r: Match)
    requires Fits(rec, e)
    ensures |rec.names| == 0 <==> r == Match(None, Infinity)
    ensures |rec.names| > 0 ==> exists i :: 0 <= i < |e| && IsBest(rec, e, i, r)
    ensures r.distance.Finite? <==> r.name.Some?
  {
    if |rec.names| == 0 then Match(None, Infinity)
    else
      var i := ArgMin(e);
      var r := Match(Some(rec.names[i]), Finite(e[i]));
      assert IsBest(rec, e, i, r);
      r
  }

  /** `r` is the match at index `i`, the closest and the first of the
      closest. */
  predicate IsBest(rec: Recognizer, e: Encoding, i: int, r: Match)
    requires Fits(rec, e)
  {
    && 0 <= i < |e|
    && r == Match(Some(rec.names[i]), Finite(e[i]))
    && (forall j :: 0 <= j < |e| ==> e[i] <= e[j])
    && (forall j :: 0 <= j < i ==> e[i] < e[j])
  }

  /** The distance of the best match within one cascade region; a region in
      which no face was encoded is skipped. */
  function RegionDistance(rec: Recognizer, region: Option<Encoding>): Distance
    requires region.Some? ==> Fits(rec, region.value)
  {
    if region.Some? then BestMatch(rec, region.value).distance else Infinity
  }

  predicate AllFit(rec: Recognizer, regions: seq<Option<Encoding>>)
  {
    forall k :: 0 <= k < |regions| && regions[k].Some? ==> Fits(rec, regions[k].value)
  }

  /** The second method: over the cascade regions, keep the best match seen
      so far, replacing it only on a strictly smaller distance; start from
      "Inconnu" at an infinite distance. */
  function Fallback(rec: Recognizer, regions: seq<Option<Encoding>>): (best: (string, Distance))
    requires AllFit(rec, regions)
    ensures best.1.Infinity? ==> best.0 == Unknown
    ensures forall k :: 0 <= k < |regions| ==> !DLess(RegionDistance(rec, regions[k]), best.1)
    ensures best.1.Finite? ==> exists k :: 0 <= k < |regions| && WinsAt(rec, regions, k, best)
  {
    if |regions| == 0 then (Unknown, Infinity)
    else
      var init := regions[..|regions| - 1];
      assert forall k :: 0 <= k < |init| ==> init[k] == regions[k];
      var prev := Fallback(rec, init);
      var last := regions[|regions| - 1];
      var d := RegionDistance(rec, last);
      if last.Some? && DLess(d, prev.1) then
        var best := (BestMatch(rec, last.value).name.value, d);
        assert WinsAt(rec, regions, |regions| - 1, best);
        best
      else
        assert prev.1.Finite? ==> exists k :: 0 <= k < |regions| && WinsAt(rec, regions, k, prev) by {
          if prev.1.Finite? {
            var k :| 0 <= k < |init| && WinsAt(rec, init, k, prev);
            assert WinsAt(rec, regions, k, prev);
          }
        }
        prev
  }

  /** Region `k` holds the best match `best`, and no earlier region is as
      close. */
  predicate WinsAt(rec: Recognizer, regions: seq<Option<Encoding>>, k: int, best: (string, Distance))
    requires AllFit(rec, regions)
  {
    && 0 <= k < |regions|
    && regions[k].Some?
    && BestMatch(rec, regions[k].value) == Match(Some(best.0), best.1)
    && (forall j :: 0 <= j < k ==> DLess(best.1, RegionDistance(rec, regions[j])))
  }

  /** The name given to one located face: its own best match when strictly
      closer than the threshold, else the fallback's when strictly closer,
      else "Inconnu". */
  function Label(rec: Recognizer, e: Encoding, regions: seq<Option<Encoding>>): (name: string)
    requires Fits(rec, e) && AllFit(rec, regions)
    ensures DLess(BestMatch(rec, e).distance, Finite(rec.threshold)) ==>
      Some(name) == BestMatch(rec, e).name
    ensures !DLess(BestMatch(rec, e).distance, Finite(rec.threshold)) ==>
      name == (if DLess(Fallback(rec, regions).1, Finite(rec.threshold)) then Fallback(rec, regions).0 else Unknown)
    ensures name == Unknown || name in rec.names
  {
    var m := BestMatch(rec, e);
    if DLess(m.distance, Finite(rec.threshold)) then m.name.value
    else
      var fb := Fallback(rec, regions);
      if DLess(fb.1, Finite(rec.threshold)) then fb.0 else Unknown
  }

  /** `identify_faces`: one (name, box) per located face paired with an
      encoding, the shorter list deciding how many. */
  function IdentifyFaces(rec: Recognizer, locations: seq<Box>, encodings: seq<Encoding>, regions: seq<Option<Encoding>>)
    : (r: seq<(string, Box)>)
    requires forall i :: 0 <= i < |encodings| ==> Fits(rec, encodings[i])
    requires AllFit(rec, regions)
    ensures |r| == if |locations| < |encodings| then |locations| else |encodings|
    ensures forall i :: 0 <= i < |r| ==> r[i] == (Label(rec, encodings[i], regions), locations[i])
  {
    if |locations| == 0 || |encodings| == 0 then []
    else
      [(Label(rec, encodings[0], regions), locations[0])] + IdentifyFaces(rec, locations[1..], encodings[1..], regions)
  }

  /** Every label is "Inconnu" or a stored name; with an empty store, every
      face is "Inconnu". */
  lemma LabelsAreKnownOrUnknown(rec: Recognizer, locations: seq<Box>, encodings: seq<Encoding>, regions: seq<Option<Encoding>>)
    requires forall i :: 0 <= i < |encodings| ==> Fits(rec, encodings[i])
    requires AllFit(rec, regions)
    ensures var r := IdentifyFaces(rec, locations, encodings, regions);
      && (forall i :: 0 <= i < |r| ==> r[i].0 == Unknown || r[i].0 in rec.names)
      && (|rec.names| == 0 ==> forall i :: 0 <= i < |r| ==> r[i].0 == Unknown)
  {
    var r := IdentifyFaces(rec, locations, encodings, regions);
    forall i | 0 <= i < |r| && |rec.names| == 0
      ensures r[i].0 == Unknown
    {
      var fb := Fallback(rec, regions);
      forall k | 0 <= k < |regions| && regions[k].Some?
        ensures BestMatch(rec, regions[k].value).distance == Infinity
      {
      }
    }
  }

  /** A name is accepted only at a distance strictly below the threshold: a
      face exactly at the threshold, with no region closer, is "Inconnu". */
  lemma ThresholdIsStrict(rec: Recognizer, e: Encoding, regions: seq<Option<Encoding>>)
    requires Fits(rec, e) && AllFit(rec, regions)
    requires BestMatch(rec, e).distance == Finite(rec.threshold)
    requires forall k :: 0 <= k < |regions| ==> !DLess(RegionDistance(rec, regions[k]), Finite(rec.threshold))
    ensures Label(rec, e, regions) == Unknown
  {
    var fb := Fallback(rec, regions);
    if fb.1.Finite? {
      var k :| 0 <= k < |regions| && WinsAt(rec, regions, k, fb);
      assert RegionDistance(rec, regions[k]) == fb.1;
    }
  }
}
