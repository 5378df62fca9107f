/**
 * The route logic of app/main.py. An `HTTPException` the route raises is a
 * `Raised` response value; dependency injection and the session lifecycle
 * are not modelled, the table object stands for the session.
 */
module App {
  import opened Wrappers
  import opened Schemas
  import Crud

  datatype HttpException = HttpException(statusCode: int, detail: string)

  /** What a route produces: a body, or the exception it raises. */
  datatype Response<+T> = Ok(body: T) | Raised(error: HttpException)

  const Duplicate := HttpException(400, "Mission already exists")
  const LaunchesNotFound := HttpException(404, "SpaceX launches not found!")

  /** GET /: the welcome message, whatever the state. */
  function ReadRoot(): (body: map<string, string>)
    ensures body.Keys == {"message"} && body["message"] == "Welcome to Space Nomad!"
  {
    map["message" := "Welcome to Space Nomad!"]
  }

  /** GET /missions/: the listing with the default offset 0 and limit 10, so the first ten rows. */
  function GetMissions(db: Crud.MissionTable): (missions: seq<Mission>)
    reads db
    ensures missions == db.rows[..Crud.Min(10, |db.rows|)]
  {
    db.GetMissions()
  }

  /**
   * POST /missions/: rejects a name that is already in the table with 400,
   * otherwise inserts the mission and returns the new row.
   */
  method CreateMission(db: Crud.MissionTable, mission: MissionCreate) returns (response: Response<Mission>)
    requires db.Valid()
    modifies db
    ensures db.Valid()
    ensures Crud.HasName(old(db.rows), mission.name) ==>
              response == Raised(Duplicate) && db.rows == old(db.rows) && db.nextId == old(db.nextId)
    ensures !Crud.HasName(old(db.rows), mission.name) ==>
              response.Ok? && db.rows == old(db.rows) + [response.body] &&
              response.body.name == mission.name && response.body.status == mission.status &&
              response.body.description == mission.description &&
              forall i :: 0 <= i < |old(db.rows)| ==> old(db.rows)[i].id != response.body.id
    ensures Crud.UniqueNames(old(db.rows)) ==> Crud.UniqueNames(db.rows)
  {
    var existing := db.GetMissionByName(mission.name);
    if existing.Some? {
      return Raised(Duplicate);
    }
    var created := db.CreateMission(mission);
    Crud.AppendFreshNameKeepsUnique(old(db.rows), created);
    response := Ok(created);
  }

  /**
   * A second POST /missions/ with the same name is rejected, so the name
   * occurs once, whereas the table beneath would have taken both.
   */
  method CreateSameNameTwice(db: Crud.MissionTable, mission: MissionCreate)
    returns (first: Response<Mission>, second: Response<Mission>)
    requires db.Valid()
    requires !Crud.HasName(db.rows, mission.name)
    modifies db
    ensures first.Ok? && first.body.name == mission.name
    ensures second == Raised(Duplicate)
    ensures db.rows == old(db.rows) + [first.body]
  {
    first := CreateMission(db, mission);
    assert db.rows[|db.rows| - 1].name == mission.name;
    second := CreateMission(db, mission);
  }

  /**
   * GET /spacex-launches/: returns the upstream payload when it is truthy
   * (present and non-empty), otherwise raises 404.
   */
  function SpacexLaunches<T>(launches: Option<seq<T>>): (response: Response<seq<T>>)
    ensures response.Ok? <==> launches.Some? && launches.value != []
    ensures response.Ok? ==> response.body == launches.value
    ensures response.Raised? ==> response.error == LaunchesNotFound
  {
    if launches.Some? && launches.value != [] then Ok(launches.value) else Raised(LaunchesNotFound)
  }
}
