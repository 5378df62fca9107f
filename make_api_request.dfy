/**
 * The launch-record normaliser and the query-parameter fragment of the
 * upstream API client (app/api/make_api_request.py).
 *
 * A raw upstream record is a JSON object; for each key the model tells the
 * three cases apart that Python's `dict.get` treats differently: the key is
 * absent, the key is present with JSON `null`, or the key is present with a
 * value.
 */
module MakeApiRequest {
  import opened Wrappers

  /** One key of a JSON object. */
  datatype Field<+T> = Absent | Null | Present(value: T)

  /** A raw launch object from the upstream API (only the keys the normaliser reads). */
  datatype RawLaunch = RawLaunch(
    missionName: Field<string>,
    launchSuccess: Field<bool>,
    details: Field<string>)

  /** A normalised record: the dictionary with keys name, status, description. */
  datatype MissionData = MissionData(name: string, status: string, description: Option<string>)

  const DefaultDescription: string := "No description available."

  /** `d.get(key)`: `None` both for an absent key and for a JSON null. */
  function Get<T>(f: Field<T>): (v: Option<T>)
    ensures v.Some? <==> f.Present?
    ensures v.Some? ==> v.value == f.value
  {
    match f
    case Present(x) => Some(x)
    case _ => None
  }

  /** `d.get(key, default)`: the default only when the key is absent; a JSON null stays `None`. */
  function GetOr<T>(f: Field<T>, default: T): (v: Option<T>)
    ensures f.Absent? ==> v == Some(default)
    ensures f.Null? ==> v == None
    ensures f.Present? ==> v == Some(f.value)
  {
    match f
    case Absent => Some(default)
    case Null => None
    case Present(x) => Some(x)
  }

  predicate IsStatusLabel(s: string) {
    s == "Success" || s == "Failure"
  }

  /**
   * Whether the normaliser keeps a record: it skips a record whose name or
   * success flag `is None`. So absent and null are dropped alike, while a
   * `false` flag and an empty name are kept.
   */
  function Kept(raw: RawLaunch): (keep: bool)
    ensures keep <==> raw.missionName.Present? && raw.launchSuccess.Present?
  {
    !(Get(raw.missionName).None? || Get(raw.launchSuccess).None?)
  }

  /** The output record of a kept raw record. */
  function ToMission(raw: RawLaunch): (m: MissionData)
    requires Kept(raw)
    ensures m.name == raw.missionName.value
    ensures IsStatusLabel(m.status)
    ensures m.status == "Success" <==> raw.launchSuccess.value
    ensures raw.details.Absent? ==> m.description == Some(DefaultDescription)
    ensures raw.details.Null? ==> m.description == None
    ensures raw.details.Present? ==> m.description == Some(raw.details.value)
  {
    MissionData(
      Get(raw.missionName).value,
      if Get(raw.launchSuccess).value then "Success" else "Failure",
      GetOr(raw.details, DefaultDescription))
  }

  /** Specification of the normaliser: the in-order map of the kept records. */
  function Normalized(apiResponse: seq<RawLaunch>): (missions: seq<MissionData>)
    ensures |missions| <= |apiResponse|
    ensures forall k :: 0 <= k < |missions| ==> IsStatusLabel(missions[k].status)
  {
    if apiResponse == [] then []
    else
      (if Kept(apiResponse[0]) then [ToMission(apiResponse[0])] else [])
      + Normalized(apiResponse[1..])
  }

  /** Normalising a concatenation normalises each part: records are handled one by one, in order. */
  lemma {:induction false} NormalizedConcat(s: seq<RawLaunch>, t: seq<RawLaunch>)
    ensures Normalized(s + t) == Normalized(s) + Normalized(t)
  {
    if s == [] {
      assert s + t == t;
    } else {
      assert (s + t)[0] == s[0];
      assert (s + t)[1..] == s[1..] + t;
      NormalizedConcat(s[1..], t);
    }
  }

  /** A single record normalises to its own form when kept, and to nothing otherwise. */
  lemma NormalizedSingleton(raw: RawLaunch)
    ensures Normalized([raw]) == if Kept(raw) then [ToMission(raw)] else []
  {
  }

  /** A record with a missing or null name or success flag contributes nothing to the output. */
  lemma DroppedRecordVanishes(before: seq<RawLaunch>, raw: RawLaunch, after: seq<RawLaunch>)
    requires !Kept(raw)
    ensures Normalized(before + [raw] + after) == Normalized(before) + Normalized(after)
  {
    NormalizedSingleton(raw);
    NormalizedConcat(before, [raw]);
    NormalizedConcat(before + [raw], after);
  }

  /** A kept record contributes exactly its normalised form, at its own place in the order. */
  lemma KeptRecordMapsInPlace(before: seq<RawLaunch>, raw: RawLaunch, after: seq<RawLaunch>)
    requires Kept(raw)
    ensures Normalized(before + [raw] + after) == Normalized(before) + [ToMission(raw)] + Normalized(after)
  {
    NormalizedSingleton(raw);
    NormalizedConcat(before, [raw]);
    NormalizedConcat(before + [raw], after);
  }

  /** Every output record comes from a kept input record, and every kept input record appears. */
  lemma {:induction false} NormalizedMembership(apiResponse: seq<RawLaunch>, m: MissionData)
    ensures m in Normalized(apiResponse) <==>
            exists i :: 0 <= i < |apiResponse| && Kept(apiResponse[i]) && ToMission(apiResponse[i]) == m
  {
    if apiResponse != [] {
      NormalizedMembership(apiResponse[1..], m);
      assert forall i :: 1 <= i < |apiResponse| ==> apiResponse[i] == apiResponse[1..][i - 1];
      if m in Normalized(apiResponse[1..]) {
        var j :| 0 <= j < |apiResponse[1..]| && Kept(apiResponse[1..][j]) && ToMission(apiResponse[1..][j]) == m;
        assert apiResponse[j + 1] == apiResponse[1..][j];
      }
    }
  }

  /** A worked example: a complete successful launch record. */
  lemma ExampleFalconOne()
    ensures Normalized([RawLaunch(Present("Falcon-1"), Present(true), Present("ok"))])
            == [MissionData("Falcon-1", "Success", Some("ok"))]
  {
  }

  /**
   * `parse_mission_data`: walks the response, skips records with a missing
   * name or success flag and appends the normalised dictionary of each other one.
   */
  method ParseMissionData(apiResponse: seq<RawLaunch>) returns (missions: seq<MissionData>)
    ensures missions == Normalized(apiResponse)
  {
    missions := [];
    for i := 0 to |apiResponse|
      invariant missions == Normalized(apiResponse[..i])
    {
      var mission := apiResponse[i];
      assert apiResponse[..i + 1] == apiResponse[..i] + [mission];
      NormalizedConcat(apiResponse[..i], [mission]);
      var name := Get(mission.missionName);
      var status := Get(mission.launchSuccess);
      var description := GetOr(mission.details, DefaultDescription);
      if name.None? || status.None? {
        continue;
      }
      missions := missions + [MissionData(name.value, if status.value then "Success" else "Failure", description)];
    }
    assert apiResponse[..|apiResponse|] == apiResponse;
  }

  /** Python truthiness of the optional `api_key` string: not `None` and not empty. */
  predicate Truthy(apiKey: Option<string>) {
    apiKey.Some? && apiKey.value != ""
  }

  /**
   * The query parameters `make_api_request` sends: `api_key` is added only
   * when the argument is truthy, so `None` and `""` give no parameters.
   */
  method BuildParams(apiKey: Option<string>) returns (params: map<string, string>)
    ensures "api_key" in params <==> Truthy(apiKey)
    ensures "api_key" in params ==> params["api_key"] == apiKey.value
    ensures params.Keys <= {"api_key"}
    ensures !Truthy(apiKey) ==> params == map[]
  {
    params := map[];
    if apiKey.Some? && apiKey.value != "" {
      params := params["api_key" := apiKey.value];
    }
  }
}
