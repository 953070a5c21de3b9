/**
 * The REST controller under `/api/v1/blueprints`: each handler calls the store and maps the
 * outcome (a value or a checked exception) to an HTTP status and an `ApiResponse` envelope.
 * The service layer only delegates, so the controller is modelled as holding the store itself.
 */
module Controllers {
  import opened Wrappers
  import opened Domain
  import opened Dto
  import opened Schema
  import opened Persistence

  const OK: int := 200
  const CREATED: int := 201
  const ACCEPTED: int := 202
  const BAD_REQUEST: int := 400
  const NOT_FOUND: int := 404

  /** What an envelope carries: a set of blueprints or a single one. */
  datatype Payload = Blueprints(blueprints: set<Blueprint>) | SingleBlueprint(blueprint: Blueprint)

  /** An HTTP response: the status line and the JSON body. */
  datatype ResponseEntity = ResponseEntity(status: int, body: ApiResponse<Payload>)

  /** The status line agrees with the code inside the envelope. */
  predicate Consistent(r: ResponseEntity)
  {
    r.status == r.body.code
  }

  /** The body of `POST /api/v1/blueprints`. */
  datatype NewBlueprintRequest = NewBlueprintRequest(author: string, name: string, points: seq<Point>)

  /** Bean Validation's `@NotBlank`: empty, or only characters at or below U+0020 after trimming. */
  predicate IsBlank(s: string)
  {
    forall i :: 0 <= i < |s| ==> s[i] <= ' '
  }

  /** A request that passes `@Valid`: neither author nor name is blank. */
  predicate ValidRequest(req: NewBlueprintRequest)
  {
    !IsBlank(req.author) && !IsBlank(req.name)
  }

  function ToBlueprint(req: NewBlueprintRequest): Blueprint
  {
    Blueprint(req.author, req.name, req.points)
  }

  // ---------------------------------------------------------------------------
  // Response mapping, one function per handler
  // ---------------------------------------------------------------------------

  function GetAllResponse(all: set<Blueprint>): (r: ResponseEntity)
    ensures Consistent(r) && r.status == OK
    ensures r.body.message == "OK" && r.body.data == Some(Blueprints(all))
  {
    ResponseEntity(OK, Success(Blueprints(all)))
  }

  function ByAuthorResponse(res: Result<set<Blueprint>, BlueprintNotFoundException>): (r: ResponseEntity)
    ensures Consistent(r)
    ensures r.status == OK <==> res.Ok?
    ensures res.Ok? ==> r.body.message == "OK" && r.body.data == Some(Blueprints(res.value))
    ensures res.Err? ==> r.status == NOT_FOUND && r.body.message == res.error.message && r.body.data.None?
  {
    match res
    case Ok(found) => ResponseEntity(OK, Success(Blueprints(found)))
    case Err(e) => ResponseEntity(NOT_FOUND, NotFound(e.message))
  }

  function ByAuthorAndNameResponse(res: Result<Blueprint, BlueprintNotFoundException>): (r: ResponseEntity)
    ensures Consistent(r)
    ensures r.status == OK <==> res.Ok?
    ensures res.Ok? ==> r.body.message == "OK" && r.body.data == Some(SingleBlueprint(res.value))
    ensures res.Err? ==> r.status == NOT_FOUND && r.body.message == res.error.message && r.body.data.None?
  {
    match res
    case Ok(bp) => ResponseEntity(OK, Success(SingleBlueprint(bp)))
    case Err(e) => ResponseEntity(NOT_FOUND, NotFound(e.message))
  }

  function AddResponse(bp: Blueprint, out: Outcome<BlueprintPersistenceException>): (r: ResponseEntity)
    ensures Consistent(r)
    ensures r.status == CREATED <==> out.Pass?
    ensures out.Pass? ==> r.body.message == "Created" && r.body.data == Some(SingleBlueprint(bp))
    ensures out.Fail? ==> r.status == BAD_REQUEST && r.body.message == out.error.message && r.body.data.None?
  {
    match out
    case Pass => ResponseEntity(CREATED, Created(SingleBlueprint(bp)))
    case Fail(e) => ResponseEntity(BAD_REQUEST, BadRequest(e.message))
  }

  function AddPointResponse(out: Outcome<BlueprintNotFoundException>): (r: ResponseEntity)
    ensures Consistent(r)
    ensures r.status == ACCEPTED <==> out.Pass?
    ensures out.Pass? ==> r.body.message == "Accepted" && r.body.data.None?
    ensures out.Fail? ==> r.status == NOT_FOUND && r.body.message == out.error.message && r.body.data.None?
  {
    match out
    case Pass => ResponseEntity(ACCEPTED, Accepted())
    case Fail(e) => ResponseEntity(NOT_FOUND, NotFound(e.message))
  }

  // ---------------------------------------------------------------------------
  // Handlers as functions of the database
  // ---------------------------------------------------------------------------

  /** `GET /api/v1/blueprints`: never fails. */
  function HandleGetAll(t: Tables): (r: ResponseEntity)
    ensures Consistent(r) && r.status == OK && r.body.data.Some?
  {
    GetAllResponse(AllStored(t))
  }

  /** `GET /api/v1/blueprints/{author}`. */
  function HandleByAuthor(t: Tables, author: string): (r: ResponseEntity)
    ensures Consistent(r)
    ensures r.status == NOT_FOUND <==> forall i :: 0 <= i < |t.blueprints| ==> t.blueprints[i].author != author
    ensures r.status == OK || r.status == NOT_FOUND
  {
    ByAuthorResponse(ReadByAuthor(t, author))
  }

  /** `GET /api/v1/blueprints/{author}/{bpname}`. */
  function HandleByAuthorAndName(t: Tables, author: string, name: string): (r: ResponseEntity)
    ensures Consistent(r)
    ensures r.status == OK <==> Stored(t, author, name).Some?
    ensures r.status == NOT_FOUND <==> Stored(t, author, name).None?
  {
    ByAuthorAndNameResponse(ReadBlueprint(t, author, name))
  }

  /** `POST /api/v1/blueprints`: the response and the database afterwards. */
  function HandleAdd(t: Tables, req: NewBlueprintRequest): (r: (ResponseEntity, Tables))
    ensures Consistent(r.0)
    ensures r.0.status == CREATED <==> Stored(t, req.author, req.name).None?
    ensures r.0.status == BAD_REQUEST <==> Stored(t, req.author, req.name).Some?
  {
    var bp := ToBlueprint(req);
    var saved := Save(t, bp);
    (AddResponse(bp, saved.0), saved.1)
  }

  /** `PUT /api/v1/blueprints/{author}/{bpname}/points`: the response and the database afterwards. */
  function HandleAddPoint(t: Tables, author: string, name: string, p: Point): (r: (ResponseEntity, Tables))
    ensures Consistent(r.0)
    ensures r.0.status == ACCEPTED <==> Stored(t, author, name).Some?
    ensures r.0.status == NOT_FOUND <==> Stored(t, author, name).None?
  {
    var appended := AppendPoint(t, author, name, p.x, p.y);
    (AddPointResponse(appended.0), appended.1)
  }

  // ---------------------------------------------------------------------------
  // What the API promises
  // ---------------------------------------------------------------------------

  /** `GET /blueprints` answers 200 with exactly the stored blueprints. */
  lemma GetAllListsEveryStored(t: Tables)
    requires UniqueKeys(t.blueprints)
    ensures HandleGetAll(t).status == OK
    ensures forall b :: b in HandleGetAll(t).body.data.value.blueprints <==> Stored(t, b.author, b.name) == Some(b.points)
  {
    AllStoredMembership(t);
  }

  /** `GET /blueprints/{author}` answers 404 exactly when the author has no blueprint; otherwise 200 with those blueprints. */
  lemma ByAuthorAnswers(t: Tables, author: string)
    requires UniqueKeys(t.blueprints)
    ensures var r := HandleByAuthor(t, author);
      && Consistent(r)
      && (r.status == NOT_FOUND <==> forall b :: Stored(t, author, b).None?)
      && (r.status == NOT_FOUND ==> r.body.message == NoBlueprintsMessage(author))
      && (r.status == OK ==> forall b :: b in r.body.data.value.blueprints
                               <==> b.author == author && Stored(t, b.author, b.name) == Some(b.points))
  {
    AuthorStoredMembership(t, author);
    var r := HandleByAuthor(t, author);
    if r.status != NOT_FOUND {
      var i :| 0 <= i < |t.blueprints| && t.blueprints[i].author == author;
      FindRowUnique(t.blueprints, i);
      assert Stored(t, author, t.blueprints[i].name).Some?;
    }
  }

  /** `GET /blueprints/{author}/{bpname}` answers 200 with the stored points, or 404 with the not-found message. */
  lemma ByAuthorAndNameAnswers(t: Tables, author: string, name: string)
    ensures var r := HandleByAuthorAndName(t, author, name);
      && Consistent(r)
      && (Stored(t, author, name).Some? ==>
            r.status == OK && r.body.data == Some(SingleBlueprint(Blueprint(author, name, Stored(t, author, name).value))))
      && (Stored(t, author, name).None? ==>
            r.status == NOT_FOUND && r.body.message == NotFoundMessage(author, name) && r.body.data.None?)
  {
  }

  /** `POST /blueprints` on a new (author, name): 201 with the blueprint, which `GET` then returns. */
  lemma AddNewThenGet(t: Tables, req: NewBlueprintRequest)
    requires WellFormed(t) && Stored(t, req.author, req.name).None?
    ensures var (r, t') := HandleAdd(t, req);
      && r.status == CREATED && r.body.data == Some(SingleBlueprint(ToBlueprint(req)))
      && WellFormed(t')
      && HandleByAuthorAndName(t', req.author, req.name) == ResponseEntity(OK, Success(SingleBlueprint(ToBlueprint(req))))
  {
    SaveThenGet(t, ToBlueprint(req));
    SavePreservesWellFormed(t, ToBlueprint(req));
  }

  /** `POST /blueprints` on an existing (author, name): 400 with the duplicate message, database unchanged. */
  lemma AddDuplicateIsRejected(t: Tables, req: NewBlueprintRequest)
    requires Stored(t, req.author, req.name).Some?
    ensures var (r, t') := HandleAdd(t, req);
      && r == ResponseEntity(BAD_REQUEST, BadRequest(AlreadyExistsMessage(req.author, req.name)))
      && t' == t
  {
  }

  /** `PUT .../points` on a stored blueprint: 202, and `GET` then shows the point appended at the end. */
  lemma AddPointThenGet(t: Tables, author: string, name: string, p: Point)
    requires WellFormed(t) && Stored(t, author, name).Some?
    ensures var (r, t') := HandleAddPoint(t, author, name, p);
      && r == ResponseEntity(ACCEPTED, Accepted())
      && WellFormed(t')
      && HandleByAuthorAndName(t', author, name).body.data
         == Some(SingleBlueprint(Blueprint(author, name, Stored(t, author, name).value + [p])))
  {
    AppendThenGet(t, author, name, p.x, p.y);
    AppendPreservesWellFormed(t, author, name, p.x, p.y);
  }

  /** `PUT .../points` on an unknown blueprint: 404 with the not-found message, database unchanged. */
  lemma AddPointToMissingIsRejected(t: Tables, author: string, name: string, p: Point)
    requires Stored(t, author, name).None?
    ensures var (r, t') := HandleAddPoint(t, author, name, p);
      && r == ResponseEntity(NOT_FOUND, NotFound(NotFoundMessage(author, name)))
      && t' == t
  {
  }

  /**
   * Create, then extend: after `POST` of a new blueprint, `PUT` of a point answers 202, `GET`
   * returns the posted points followed by the new one, and re-posting the request answers 400.
   */
  lemma {:induction false} CreateThenExtend(t0: Tables, req: NewBlueprintRequest, p: Point)
    requires WellFormed(t0) && Stored(t0, req.author, req.name).None?
    ensures var t1 := HandleAdd(t0, req).1;
      var t2 := HandleAddPoint(t1, req.author, req.name, p).1;
      && HandleAddPoint(t1, req.author, req.name, p).0.status == ACCEPTED
      && HandleByAuthorAndName(t2, req.author, req.name).body.data
         == Some(SingleBlueprint(Blueprint(req.author, req.name, req.points + [p])))
      && HandleAdd(t2, req).0.status == BAD_REQUEST
  {
    var t1 := HandleAdd(t0, req).1;
    AddNewThenGet(t0, req);
    SaveThenGet(t0, ToBlueprint(req));
    assert Stored(t1, req.author, req.name) == Some(req.points);
    AddPointThenGet(t1, req.author, req.name, p);
    assert Stored(HandleAddPoint(t1, req.author, req.name, p).1, req.author, req.name).Some?;
  }

  // ---------------------------------------------------------------------------
  // The controller object
  // ---------------------------------------------------------------------------

  class BlueprintsApiController {
    const services: PostgresBlueprintPersistence

    constructor (services: PostgresBlueprintPersistence)
      ensures this.services == services
    {
      this.services := services;
    }

    method GetAll() returns (resp: ResponseEntity)
      ensures resp == HandleGetAll(services.State())
    {
      var all := services.GetAllBlueprints();
      resp := ResponseEntity(OK, Success(Blueprints(all)));
    }

    method ByAuthor(author: string) returns (resp: ResponseEntity)
      ensures resp == HandleByAuthor(services.State(), author)
    {
      var found := services.GetBlueprintsByAuthor(author);
      match found {
        case Ok(blueprints) =>
          resp := ResponseEntity(OK, Success(Blueprints(blueprints)));
        case Err(e) =>
          resp := ResponseEntity(NOT_FOUND, NotFound(e.message));
      }
    }

    method ByAuthorAndName(author: string, name: string) returns (resp: ResponseEntity)
      ensures resp == HandleByAuthorAndName(services.State(), author, name)
    {
      var found := services.GetBlueprint(author, name);
      match found {
        case Ok(bp) =>
          resp := ResponseEntity(OK, Success(SingleBlueprint(bp)));
        case Err(e) =>
          resp := ResponseEntity(NOT_FOUND, NotFound(e.message));
      }
    }

    method Add(req: NewBlueprintRequest) returns (resp: ResponseEntity)
      requires services.Valid() && ValidRequest(req)
      modifies services
      ensures services.Valid()
      ensures (resp, services.State()) == HandleAdd(old(services.State()), req)
    {
      var bp := Blueprint(req.author, req.name, req.points);
      var saved := services.SaveBlueprint(bp);
      match saved {
        case Pass =>
          resp := ResponseEntity(CREATED, Created(SingleBlueprint(bp)));
        case Fail(e) =>
          resp := ResponseEntity(BAD_REQUEST, BadRequest(e.message));
      }
    }

    method AddPoint(author: string, name: string, p: Point) returns (resp: ResponseEntity)
      requires services.Valid()
      modifies services
      ensures services.Valid()
      ensures (resp, services.State()) == HandleAddPoint(old(services.State()), author, name, p)
    {
      var appended := services.AddPoint(author, name, p.x, p.y);
      match appended {
        case Pass =>
          resp := ResponseEntity(ACCEPTED, Accepted());
        case Fail(e) =>
          resp := ResponseEntity(NOT_FOUND, NotFound(e.message));
      }
    }
  }
}
