/**
 * The runway-usage side of the LVNL API (lvnl/api.go): the static runway
 * table, the request payload and the extraction of the active runway codes
 * from a usage response. The HTTP round trip itself is not modelled.
 */
module LvnlApi {
  import opened Wrappers
  import opened Text
  import opened Decimal

  /** Runway code to runway name at Schiphol; each physical runway has one code per direction. */
  const Runways: map<string, string> := map[
    "18L" := "Aalsmeerbaan",
    "36R" := "Aalsmeerbaan",
    "09" := "Buitenveldertbaan",
    "27" := "Buitenveldertbaan",
    "06" := "Kaagbaan",
    "24" := "Kaagbaan",
    "18R" := "Polderbaan",
    "36L" := "Polderbaan",
    "18C" := "Zwanenburgbaan",
    "36C" := "Zwanenburgbaan"
  ]

  /** The codes that share a runway name. */
  function CodesNamed(name: string): set<string>
  {
    set code | code in Runways && Runways[code] == name
  }

  lemma RunwayCodesCount()
    ensures |Runways.Keys| == 10
  {
  }

  lemma RunwayNamePairs()
    ensures CodesNamed("Aalsmeerbaan") == {"18L", "36R"}
    ensures CodesNamed("Buitenveldertbaan") == {"09", "27"}
    ensures CodesNamed("Kaagbaan") == {"06", "24"}
    ensures CodesNamed("Polderbaan") == {"18R", "36L"}
    ensures CodesNamed("Zwanenburgbaan") == {"18C", "36C"}
  {
  }

  /** Ten distinct codes, and every runway name belongs to exactly two of them (its two directions). */
  lemma RunwayTableShape()
    ensures |Runways.Keys| == 10
    ensures forall code :: code in Runways ==> |CodesNamed(Runways[code])| == 2
  {
    RunwayCodesCount();
    RunwayNamePairs();
    forall code | code in Runways
      ensures |CodesNamed(Runways[code])| == 2
    {
      assert Runways[code] in {"Aalsmeerbaan", "Buitenveldertbaan", "Kaagbaan", "Polderbaan", "Zwanenburgbaan"};
    }
  }

  /** The moment a usage report is asked for, at minute resolution. */
  datatype RunwayUsageRequest = RunwayUsageRequest(year: int, month: int, day: int, hour: int, minute: int)

  /**
   * The fields of a usage report that the watcher reads; an unused slot holds "".
   * The timestamps, the state string and the is-last flag are never read and are not modelled.
   */
  datatype RunwayUsageResponse = RunwayUsageResponse(
    id: int,
    landing1: string, landing2: string, landing3: string,
    takeoff1: string, takeoff2: string, takeoff3: string)

  /** Reference definition: the non-empty entries of `fields`, in order. */
  function NonEmpty(fields: seq<string>): (r: seq<string>)
    ensures |r| <= |fields|
    ensures forall x :: x in r <==> x in fields && x != ""
  {
    if |fields| == 0 then []
    else if fields[0] == "" then NonEmpty(fields[1..])
    else [fields[0]] + NonEmpty(fields[1..])
  }

  /** NonEmpty over a three-slot report, slot by slot. */
  lemma NonEmptyOfThree(a: string, b: string, c: string)
    ensures NonEmpty([a, b, c]) ==
      (if a != "" then [a] else []) + (if b != "" then [b] else []) + (if c != "" then [c] else [])
  {
    assert [a, b, c][1..] == [b, c];
    assert [b, c][1..] == [c];
    assert [c][1..] == [];
    assert NonEmpty([c]) == (if c != "" then [c] else []);
    assert NonEmpty([b, c]) == (if b != "" then [b] else []) + NonEmpty([c]);
    assert NonEmpty([a, b, c]) == (if a != "" then [a] else []) + NonEmpty([b, c]);
  }

  function GetActiveLandingRunways(res: RunwayUsageResponse): (active: seq<string>)
    ensures active == NonEmpty([res.landing1, res.landing2, res.landing3])
    ensures |active| <= 3 && "" !in active
  {
    NonEmptyOfThree(res.landing1, res.landing2, res.landing3);
    var a1 := if res.landing1 != "" then [res.landing1] else [];
    var a2 := if res.landing2 != "" then a1 + [res.landing2] else a1;
    if res.landing3 != "" then a2 + [res.landing3] else a2
  }

  function GetActiveTakeoffRunways(res: RunwayUsageResponse): (active: seq<string>)
    ensures active == NonEmpty([res.takeoff1, res.takeoff2, res.takeoff3])
    ensures |active| <= 3 && "" !in active
  {
    NonEmptyOfThree(res.takeoff1, res.takeoff2, res.takeoff3);
    var a1 := if res.takeoff1 != "" then [res.takeoff1] else [];
    var a2 := if res.takeoff2 != "" then a1 + [res.takeoff2] else a1;
    if res.takeoff3 != "" then a2 + [res.takeoff3] else a2
  }

  /** The five numbers of a request, in the order the payload lists them. */
  function PayloadFields(req: RunwayUsageRequest): seq<string>
  {
    [Itoa(req.year), Itoa(req.month), Itoa(req.day), Itoa(req.hour), Itoa(req.minute)]
  }

  /** The request body: the five numbers comma-joined inside square brackets. */
  function RequestPayload(req: RunwayUsageRequest): string
  {
    "[" + Join(PayloadFields(req), ',') + "]"
  }

  /** Reads a payload back: brackets around exactly five comma-separated integers. */
  function ParsePayload(s: string): Option<RunwayUsageRequest>
  {
    if |s| < 2 || s[0] != '[' || s[|s| - 1] != ']' then None
    else
      var f := Split(s[1..|s| - 1], ',');
      if |f| != 5 then None
      else
        match (ParseInt(f[0]), ParseInt(f[1]), ParseInt(f[2]), ParseInt(f[3]), ParseInt(f[4]))
        case (Some(y), Some(mo), Some(d), Some(h), Some(mi)) => Some(RunwayUsageRequest(y, mo, d, h, mi))
        case _ => None
  }

  /** The payload is bracketed and splits at its commas into exactly the five numerals, in order. */
  lemma PayloadShape(req: RunwayUsageRequest)
    ensures var p := RequestPayload(req);
      && |p| >= 2 && p[0] == '[' && p[|p| - 1] == ']'
      && Split(p[1..|p| - 1], ',') == [Itoa(req.year), Itoa(req.month), Itoa(req.day), Itoa(req.hour), Itoa(req.minute)]
  {
    var fields := PayloadFields(req);
    var p := RequestPayload(req);
    assert p[1..|p| - 1] == Join(fields, ',');
    SplitJoin(fields, ',');
  }

  /** Every request is recovered from its payload. */
  lemma PayloadRoundTrip(req: RunwayUsageRequest)
    ensures ParsePayload(RequestPayload(req)) == Some(req)
  {
    PayloadShape(req);
    ItoaRoundTrip(req.year);
    ItoaRoundTrip(req.month);
    ItoaRoundTrip(req.day);
    ItoaRoundTrip(req.hour);
    ItoaRoundTrip(req.minute);
  }
}
