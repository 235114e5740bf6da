/**
 The POST handler of the latency service, without the HTTP layer: a validated
 request names regions and optionally a threshold; the dataset is narrowed to
 the requested regions, and each requested region, in the caller's order, is
 mapped to the metrics of the records whose region equals it exactly. The
 mapping is returned under the key "regions", its keys listed in the order in
 which the request first names them.
 */
module LatencyApi {
  import opened Wrappers
  import opened RegionMetrics
  import opened Stats

  /** The threshold used when the request does not carry one. */
  const DefaultThresholdMs: real := 180.0

  /** A request body that has passed validation. */
  datatype Request = Request(regions: seq<string>, thresholdMs: Option<real>)

  /** The response body: the per-region metrics under the key "regions",
      and the order in which the body lists those regions. */
  datatype Response = Response(keys: seq<string>, regions: map<string, Metrics>)

  /** The threshold in force for a request: its own, or the default. */
  function Threshold(req: Request): real
  {
    match req.thresholdMs
    case Some(t) => t
    case None => DefaultThresholdMs
  }

  /** The position of the first occurrence of `x` in `s`. */
  function FirstIndex(s: seq<string>, x: string): (i: nat)
    requires x in s
    ensures i < |s| && s[i] == x
    ensures forall j | 0 <= j < i :: s[j] != x
  {
    if s[0] == x then 0 else FirstIndex(s[1..], x) + 1
  }

  /** A first occurrence in a prefix is the first occurrence in the whole. */
  lemma FirstIndexPrefix(s: seq<string>, n: nat, x: string)
    requires n <= |s| && x in s[..n]
    ensures FirstIndex(s, x) == FirstIndex(s[..n], x)
  {
    var i, j := FirstIndex(s, x), FirstIndex(s[..n], x);
    assert s[j] == x;
    assert i <= j;
    assert s[..n][i] == x;
  }

  /** The distinct names of `s`, in the order a dictionary lists its keys
      when the names of `s` are assigned to it one after another: each name
      where it first occurs, a repeated name keeping its first place. */
  function FirstOccurrences(s: seq<string>): seq<string>
  {
    if |s| == 0 then []
    else
      var init := s[..|s| - 1];
      var last := s[|s| - 1];
      if last in init then FirstOccurrences(init) else FirstOccurrences(init) + [last]
  }

  /** The key order names exactly the names of the request, each by its
      first occurrence, so it holds no name twice. */
  lemma {:induction false} FirstOccurrencesOrdered(s: seq<string>)
    ensures forall x :: x in FirstOccurrences(s) <==> x in s
    ensures forall i, j | 0 <= i < j < |FirstOccurrences(s)| ::
      FirstIndex(s, FirstOccurrences(s)[i]) < FirstIndex(s, FirstOccurrences(s)[j])
  {
    if |s| > 0 {
      var init := s[..|s| - 1];
      var last := s[|s| - 1];
      var rest := FirstOccurrences(init);
      FirstOccurrencesOrdered(init);
      assert s == init + [last];
      forall x | x in rest
        ensures FirstIndex(s, x) == FirstIndex(init, x)
      {
        FirstIndexPrefix(s, |s| - 1, x);
      }
      if last !in init {
        assert FirstIndex(s, last) == |s| - 1;
      }
    }
  }

  /** Naming one more region appends it to the key order if it is new, and
      leaves the order alone if it was named before. */
  lemma FirstOccurrencesAppend(s: seq<string>, x: string)
    ensures FirstOccurrences(s + [x])
         == if x in s then FirstOccurrences(s) else FirstOccurrences(s) + [x]
  {
    assert (s + [x])[..|s|] == s;
  }

  /** Naming again only regions already named leaves the key order as it
      was: a repeated region keeps its first place. */
  lemma {:induction false} RepeatsKeepPlace(s: seq<string>, t: seq<string>)
    requires forall x | x in t :: x in s
    ensures FirstOccurrences(s + t) == FirstOccurrences(s)
  {
    if |t| == 0 {
      assert s + t == s;
    } else {
      var init := t[..|t| - 1];
      var last := t[|t| - 1];
      assert t == init + [last];
      RepeatsKeepPlace(s, init);
      assert s + t == (s + init) + [last];
      assert last in s + init;
      FirstOccurrencesAppend(s + init, last);
    }
  }

  /** The records whose region is one of `regions`, in dataset order. */
  function FilterIn(data: seq<Obs>, regions: seq<string>): seq<Obs>
  {
    if |data| == 0 then []
    else
      var rest := FilterIn(data[1..], regions);
      if data[0].region in regions then [data[0]] + rest else rest
  }

  /** The records whose region equals `region` exactly, in dataset order. */
  function SelectRegion(data: seq<Obs>, region: string): seq<Obs>
  {
    if |data| == 0 then []
    else
      var rest := SelectRegion(data[1..], region);
      if data[0].region == region then [data[0]] + rest else rest
  }

  /** Narrowing keeps every record of a requested region as often as the
      dataset holds it, and no other record. */
  lemma {:induction false} FilterInCharacterization(data: seq<Obs>, regions: seq<string>, o: Obs)
    ensures multiset(FilterIn(data, regions))[o]
         == (if o.region in regions then multiset(data)[o] else 0)
  {
    if |data| > 0 {
      FilterInCharacterization(data[1..], regions, o);
      assert data == [data[0]] + data[1..];
    }
  }

  /** Selection keeps every record of exactly that region as often as the
      dataset holds it, and no other record. */
  lemma {:induction false} SelectRegionCharacterization(data: seq<Obs>, region: string, o: Obs)
    ensures multiset(SelectRegion(data, region))[o]
         == (if o.region == region then multiset(data)[o] else 0)
  {
    if |data| > 0 {
      SelectRegionCharacterization(data[1..], region, o);
      assert data == [data[0]] + data[1..];
    }
  }

  /** Narrowing to the requested regions first selects, for each requested
      region, the very same records in the same order. */
  lemma {:induction false} PrefilterTransparent(data: seq<Obs>, regions: seq<string>, region: string)
    requires region in regions
    ensures SelectRegion(FilterIn(data, regions), region) == SelectRegion(data, region)
  {
    if |data| > 0 {
      PrefilterTransparent(data[1..], regions, region);
      if data[0].region in regions {
        assert ([data[0]] + FilterIn(data[1..], regions))[1..] == FilterIn(data[1..], regions);
      }
    }
  }

  /** The response as a whole: one entry per requested region, holding the
      metrics of exactly that region's records. */
  function LatencyMetrics(data: seq<Obs>, req: Request): (resp: Response)
    ensures resp.regions.Keys == set r | r in req.regions
    ensures forall r :: r in resp.keys <==> r in resp.regions
  {
    FirstOccurrencesOrdered(req.regions);
    Response(FirstOccurrences(req.regions), map r | r in req.regions :: CalculateRegionMetrics(SelectRegion(data, r), Threshold(req)))
  }

  /** A map with one entry per requested region, each holding that region's
      metrics, is the response. */
  lemma ResponseFromEntries(data: seq<Obs>, req: Request, m: map<string, Metrics>)
    requires m.Keys == set r | r in req.regions
    requires forall r | r in m :: m[r] == CalculateRegionMetrics(SelectRegion(data, r), Threshold(req))
    ensures Response(FirstOccurrences(req.regions), m) == LatencyMetrics(data, req)
  {
    assert m == LatencyMetrics(data, req).regions;
  }

  /** The key order after one more region is named: it grows only when the
      region is not listed yet. */
  lemma KeyOrderStep(regions: seq<string>, i: nat)
    requires i < |regions|
    ensures FirstOccurrences(regions[..i + 1])
         == if regions[i] in FirstOccurrences(regions[..i]) then FirstOccurrences(regions[..i])
            else FirstOccurrences(regions[..i]) + [regions[i]]
    ensures regions[..i + 1] == regions[..i] + [regions[i]]
  {
    assert regions[..i + 1] == regions[..i] + [regions[i]];
    FirstOccurrencesAppend(regions[..i], regions[i]);
    FirstOccurrencesOrdered(regions[..i]);
  }

  /** One pass of the handler's loop: the metrics of the i-th requested
      region, computed on the narrowed dataset, are assigned to its key. */
  method AssignRegion(data: seq<Obs>, regions: seq<string>, threshold: real, i: nat,
                      results: map<string, Metrics>, order: seq<string>)
    returns (results': map<string, Metrics>, order': seq<string>)
    requires i < |regions|
    requires results.Keys == set r | r in regions[..i]
    requires order == FirstOccurrences(regions[..i])
    requires forall r | r in results ::
      results[r] == CalculateRegionMetrics(SelectRegion(data, r), threshold)
    ensures forall r :: r in results' <==> r in regions[..i + 1]
    ensures order' == FirstOccurrences(regions[..i + 1])
    ensures forall r | r in results' ::
      results'[r] == CalculateRegionMetrics(SelectRegion(data, r), threshold)
  {
    var region := regions[i];
    var subset := SelectRegion(FilterIn(data, regions), region);
    PrefilterTransparent(data, regions, region);
    var metrics := CalculateRegionMetrics(subset, threshold);
    KeyOrderStep(regions, i);
    order' := if region in order then order else order + [region];
    results' := results[region := metrics];
  }

  /** The handler's loop: narrow the dataset, then assign each requested
      region its metrics in the caller's order. A region named again is
      assigned again, and keeps the place it took when first named. */
  method GetLatencyMetrics(data: seq<Obs>, req: Request) returns (resp: Response)
    ensures resp.regions.Keys == set r | r in req.regions
    ensures forall r | r in req.regions ::
      resp.regions[r] == CalculateRegionMetrics(SelectRegion(data, r), Threshold(req))
    ensures resp.keys == FirstOccurrences(req.regions)
    ensures resp == LatencyMetrics(data, req)
  {
    var regions := req.regions;
    var threshold := Threshold(req);
    var results: map<string, Metrics> := map[];
    var order: seq<string> := [];
    for i := 0 to |regions|
      invariant results.Keys == set r | r in regions[..i]
      invariant order == FirstOccurrences(regions[..i])
      invariant forall r | r in results ::
        results[r] == CalculateRegionMetrics(SelectRegion(data, r), threshold)
    {
      results, order := AssignRegion(data, regions, threshold, i, results, order);
    }
    assert regions[..|regions|] == regions;
    ResponseFromEntries(data, req, results);
    resp := Response(order, results);
  }

  lemma {:induction false} SelectEveryRecord(data: seq<Obs>, region: string)
    requires forall i | 0 <= i < |data| :: data[i].region == region
    ensures SelectRegion(data, region) == data
  {
    if |data| > 0 {
      SelectEveryRecord(data[1..], region);
      assert data == [data[0]] + data[1..];
    }
  }

  /** When every record belongs to one requested region, that region is
      reported with the metrics of the whole dataset. */
  lemma SingleRegionDataset(data: seq<Obs>, req: Request, region: string)
    requires region in req.regions
    requires forall i | 0 <= i < |data| :: data[i].region == region
    ensures region in LatencyMetrics(data, req).regions
    ensures LatencyMetrics(data, req).regions[region] == CalculateRegionMetrics(data, Threshold(req))
  {
    SelectEveryRecord(data, region);
  }

  /** A requested region with no record in the dataset is reported with the
      all-zero record, not left out. */
  lemma UnmatchedRegionIsZero(data: seq<Obs>, req: Request, region: string)
    requires region in req.regions
    requires forall i | 0 <= i < |data| :: data[i].region != region
    ensures region in LatencyMetrics(data, req).regions
    ensures LatencyMetrics(data, req).regions[region] == Zero
  {
    var sel := SelectRegion(data, region);
    if |sel| > 0 {
      SelectRegionCharacterization(data, region, sel[0]);
    }
  }

  /** A request without a threshold is answered exactly as one that carries
      the default 180. */
  lemma OmittedThresholdIsDefault(data: seq<Obs>, regions: seq<string>)
    ensures LatencyMetrics(data, Request(regions, None))
         == LatencyMetrics(data, Request(regions, Some(180.0)))
  {
  }

  /** The order and repetition of the requested regions do not change the
      metrics reported: they change only the order in which the body lists
      the regions. */
  lemma RegionOrderIrrelevant(data: seq<Obs>, req1: Request, req2: Request)
    requires (set r | r in req1.regions) == (set r | r in req2.regions)
    requires Threshold(req1) == Threshold(req2)
    ensures LatencyMetrics(data, req1).regions == LatencyMetrics(data, req2).regions
    ensures forall r :: r in LatencyMetrics(data, req1).keys <==> r in LatencyMetrics(data, req2).keys
  {
  }

  /** The body lists the regions as the request first names them: a repeat
      keeps its first place, and naming two regions the other way round
      swaps them in the body. */
  lemma KeyOrderExample(data: seq<Obs>, t: Option<real>, a: string, b: string)
    requires a != b
    ensures LatencyMetrics(data, Request([b, a, b], t)).keys == [b, a]
    ensures LatencyMetrics(data, Request([a, b], t)).keys == [a, b]
  {
    RepeatKeepsFirstPlace(a, b);
    RepeatKeepsFirstPlace(b, a);
  }

  /** The key order of `[b, a, b]` is `[b, a]`, and that of `[b, a]` is
      itself. */
  lemma RepeatKeepsFirstPlace(a: string, b: string)
    requires a != b
    ensures FirstOccurrences([b, a]) == [b, a]
    ensures FirstOccurrences([b, a, b]) == [b, a]
  {
    FirstOccurrencesAppend([], b);
    assert [] + [b] == [b];
    FirstOccurrencesAppend([b], a);
    assert [b] + [a] == [b, a];
    FirstOccurrencesAppend([b, a], b);
    assert [b, a] + [b] == [b, a, b];
  }

  /* ---------------------------------------------------------------------
     Loading the dataset
     --------------------------------------------------------------------- */

  /** The dataset the corrected handler works on: the records read from the
      data file, or no records when the file is missing. */
  function LoadDataset(file: Option<seq<Obs>>): seq<Obs>
  {
    match file
    case Some(records) => records
    case None => []
  }

  /** With the data file missing every requested region is reported with the
      all-zero record. */
  lemma MissingFileServesZeroRecords(req: Request)
    ensures LatencyMetrics(LoadDataset(None), req).regions.Keys == set r | r in req.regions
    ensures forall r | r in req.regions :: LatencyMetrics(LoadDataset(None), req).regions[r] == Zero
  {
    forall r | r in req.regions
      ensures LatencyMetrics(LoadDataset(None), req).regions[r] == Zero
    {
      UnmatchedRegionIsZero([], req, r);
    }
  }

  /** A table as the data-frame library builds it from the file: the set of
      column names and the rows. A table built from no records has no
      columns at all. */
  datatype Frame = Frame(columns: set<string>, rows: seq<Obs>)

  /** The error raised when a column is looked up that the table lacks. */
  datatype Fault = KeyError(column: string)

  /** The table held after start-up, as written: a missing file, and equally
      a file holding an empty list, gives a table without columns. */
  function LoadFrameAsWritten(file: Option<seq<Obs>>): (frame: Frame)
    ensures frame.rows == LoadDataset(file)
    ensures "region" in frame.columns <==> |frame.rows| > 0
  {
    match file
    case Some(records) =>
      Frame(if |records| == 0 then {} else {"region", "latency_ms", "uptime_pct"}, records)
    case None => Frame({}, [])
  }

  /** The handler as written: looking up the "region" column of a table
      without columns raises a key error before any region is considered. */
  function HandleAsWritten(frame: Frame, req: Request): Result<Response, Fault>
  {
    if "region" !in frame.columns then Failure(KeyError("region"))
    else Success(LatencyMetrics(frame.rows, req))
  }

  /** As written, a missing data file (or an empty one) makes every request
      fail with a key error instead of returning all-zero records. */
  lemma MissingFileFailsAsWritten(file: Option<seq<Obs>>, req: Request)
    requires file.None? || file == Some([])
    ensures HandleAsWritten(LoadFrameAsWritten(file), req) == Failure(KeyError("region"))
    ensures forall r | r in req.regions :: LatencyMetrics(LoadDataset(file), req).regions[r] == Zero
  {
    MissingFileServesZeroRecords(req);
  }

  /** Whenever the data file holds records, the handler as written and the
      corrected one give the same response. */
  lemma LoadedFileAgrees(records: seq<Obs>, req: Request)
    requires |records| > 0
    ensures HandleAsWritten(LoadFrameAsWritten(Some(records)), req)
         == Success(LatencyMetrics(LoadDataset(Some(records)), req))
  {
  }

  /* ---------------------------------------------------------------------
     A worked request
     --------------------------------------------------------------------- */

  /** Three "us-east" records with latencies 100, 160 and 200, whatever
      their uptimes. */
  function ExampleData(u1: real, u2: real, u3: real): seq<Obs>
  {
    [Obs("us-east", 100.0, u1), Obs("us-east", 160.0, u2), Obs("us-east", 200.0, u3)]
  }

  /** With a threshold of 150, two of the example latencies are breaches. */
  lemma ExampleBreaches(u1: real, u2: real, u3: real)
    ensures Breaches(ExampleData(u1, u2, u3), 150.0) == 2
  {
    var data := ExampleData(u1, u2, u3);
    assert Column(data, LatencyMs) == [100.0, 160.0, 200.0];
    assert Count([100.0, 160.0, 200.0], AtLeast, 150.0) == 2;
  }

  /** The example request: "us-east" and "eu-west" with a threshold of 150. */
  const ExampleRequest := Request(["us-east", "eu-west"], Some(150.0))

  /** Against the example data, "us-east" is reported with two breaches. */
  lemma ExampleUsEast(u1: real, u2: real, u3: real)
    ensures "us-east" in LatencyMetrics(ExampleData(u1, u2, u3), ExampleRequest).regions
    ensures LatencyMetrics(ExampleData(u1, u2, u3), ExampleRequest).regions["us-east"].breaches == 2
  {
    SingleRegionDataset(ExampleData(u1, u2, u3), ExampleRequest, "us-east");
    ExampleBreaches(u1, u2, u3);
  }

  /** Against the example data, "eu-west", which has no record, is reported
      with the zero record. */
  lemma ExampleEuWest(u1: real, u2: real, u3: real)
    ensures "eu-west" in LatencyMetrics(ExampleData(u1, u2, u3), ExampleRequest).regions
    ensures LatencyMetrics(ExampleData(u1, u2, u3), ExampleRequest).regions["eu-west"] == Zero
  {
    UnmatchedRegionIsZero(ExampleData(u1, u2, u3), ExampleRequest, "eu-west");
  }
}
