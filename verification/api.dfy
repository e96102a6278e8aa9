/** The JSON API of app/routes/api.py: the error-to-status mapping, the
    clamping of paging parameters, and the order in which each route
    validates, calls the services and cleans up.

    Request parsing, response serialisation and logging are not modelled;
    each route returns either its value or the mapped error. */
module Api {
  import opened Common
  import opened Settings
  import opened Validators
  import opened Store
  import opened Files
  import opened PersonService
  import opened Matcher
  import opened Schemas

  /** The `HTTPException` a route raises: status and `error_type`. */
  datatype ApiError = ApiError(status: int, errorType: string)

  datatype Response<+T> = Success(value: T) | Failure(err: ApiError)

  /** `handle_api_error`. */
  function HandleApiError(e: Error): (r: ApiError)
    ensures r.status == 400 <==> e == FileValidationError || e == ValidationError
    ensures r.status == 404 <==> e == PersonNotFoundError
    ensures r.status == 422 <==> e == FileStorageError || e == FaceDetectionError
    ensures r.status == 500 <==> !(e in {FileValidationError, ValidationError, PersonNotFoundError,
                                         FileStorageError, FaceDetectionError})
    ensures r.status in {400, 404, 422, 500}
    ensures r.errorType != ""
  {
    match e
    case FileValidationError => ApiError(400, "validation_error")
    case ValidationError => ApiError(400, "validation_error")
    case PersonNotFoundError => ApiError(404, "not_found")
    case FileStorageError => ApiError(422, "processing_error")
    case FaceDetectionError => ApiError(422, "processing_error")
    case _ => ApiError(500, "internal_error")
  }

  /** The error type always agrees with the status. */
  lemma ErrorTypeFollowsStatus(e: Error)
    ensures var r := HandleApiError(e);
      && (r.status == 400 <==> r.errorType == "validation_error")
      && (r.status == 404 <==> r.errorType == "not_found")
      && (r.status == 422 <==> r.errorType == "processing_error")
      && (r.status == 500 <==> r.errorType == "internal_error")
  {
  }

  /** A service result turned into a response. */
  function Respond<T>(r: Result<T>): (out: Response<T>)
    ensures r.Ok? <==> out.Success?
    ensures r.Ok? ==> out.value == r.value
    ensures r.Err? ==> out.err == HandleApiError(r.error)
  {
    match r
    case Ok(v) => Success(v)
    case Err(e) => Failure(HandleApiError(e))
  }

  /** `min(max(limit, 1), 100)`. */
  function ClampLimit(limit: int): (r: nat)
    ensures 1 <= r <= 100
    ensures 1 <= limit <= 100 ==> r == limit
    ensures limit < 1 ==> r == 1
    ensures limit > 100 ==> r == 100
  {
    var atLeastOne := if limit >= 1 then limit else 1;
    if atLeastOne <= 100 then atLeastOne else 100
  }

  /** `max(offset, 0)`. */
  function ClampOffset(offset: int): (r: nat)
    ensures offset >= 0 ==> r == offset
    ensures offset < 0 ==> r == 0
  {
    if offset >= 0 then offset else 0
  }

  lemma ClampsIdempotent(limit: int, offset: int)
    ensures ClampLimit(ClampLimit(limit)) == ClampLimit(limit)
    ensures ClampOffset(ClampOffset(offset)) == ClampOffset(offset)
  {
  }

  /** `POST /api/persons`: the name is validated before the service runs. */
  function CreatePersonRoute(db: Db, name: string, now: int): (out: (Response<Person>, Db))
    ensures !ValidatePersonName(Some(name)).isValid ==> out == (Failure(ApiError(400, "validation_error")), db)
    ensures ValidatePersonName(Some(name)).isValid ==>
      out.0 == Success(CreatePerson(db, name, now).0) && out.1 == CreatePerson(db, name, now).1
    ensures out.0.Success? ==> out.0.value.name == name
  {
    if !ValidatePersonName(Some(name)).isValid then (Failure(HandleApiError(ValidationError)), db)
    else
      var created := CreatePerson(db, name, now);
      (Success(created.0), created.1)
  }

  /** `GET /api/persons`: at most 100 people per request. */
  function GetAllPersonsRoute(db: Db, limit: int, offset: int): (r: seq<Person>)
    ensures |r| <= 100
    ensures r == GetAllPersons(db, ClampLimit(limit), ClampOffset(offset))
    ensures ClampOffset(offset) < |db.persons| ==> |r| >= 1
  {
    GetAllPersons(db, ClampLimit(limit), ClampOffset(offset))
  }

  const NotFound: ApiError := ApiError(404, "not_found")

  /** `GET /api/persons/{id}`: an unknown id is a 404; a listed photo row
      that fails the photo schema raises inside the service and becomes a
      500. */
  function GetPersonRoute(db: Db, id: int): (r: Response<PersonWithPhotos>)
    ensures !HasPerson(db, id) ==> r == Failure(NotFound)
    ensures HasPerson(db, id) && (exists x :: x in ActivePhotosOf(db, id) && !PhotoRowFits(x)) ==>
      r == Failure(ApiError(500, "internal_error"))
    ensures r.Success? <==> HasPerson(db, id) && forall x :: x in ActivePhotosOf(db, id) ==> PhotoRowFits(x)
    ensures r.Success? ==> r.value.person.id == id && r.value.photos == ActivePhotosOf(db, id)
  {
    var found := GetPersonWithPhotos(db, id);
    if found.Err? then Failure(HandleApiError(found.error))
    else if found.value.None? then Failure(HandleApiError(PersonNotFoundError))
    else Success(found.value.value)
  }

  /** `PUT /api/persons/{id}`: a supplied name is validated first; an
      unknown id becomes a 404 with nothing changed. */
  function UpdatePersonRoute(db: Db, id: int, name: Option<string>): (out: (Response<Person>, Db))
    ensures name.Some? && !ValidatePersonName(name).isValid ==>
      out == (Failure(ApiError(400, "validation_error")), db)
    ensures (name.None? || ValidatePersonName(name).isValid) && !HasPerson(db, id) ==>
      out == (Failure(NotFound), db)
    ensures (name.None? || ValidatePersonName(name).isValid) && HasPerson(db, id) ==>
      out.0 == Success(UpdatePerson(db, id, name).0.value) && out.1 == UpdatePerson(db, id, name).1
  {
    if name.Some? && !ValidatePersonName(name).isValid then (Failure(HandleApiError(ValidationError)), db)
    else
      var updated := UpdatePerson(db, id, name);
      if updated.0.None? then (Failure(HandleApiError(PersonNotFoundError)), updated.1)
      else (Success(updated.0.value), updated.1)
  }

  /** `DELETE /api/persons/{id}`: false from the service becomes a 404; the
      `DatabaseError` of a failed file removal becomes a 500. */
  function DeletePersonRoute(db: Db, fs: FileSystem, root: string, id: int): (out: (Response<bool>, Db, FileSystem))
    ensures !HasPerson(db, id) ==> out == (Failure(NotFound), db, fs)
    ensures out.0.Failure? ==> out.1 == db
    ensures out.0.Failure? && HasPerson(db, id) ==> out.0.err == ApiError(500, "internal_error")
    ensures out.0.Success? <==> DeletePerson(db, fs, root, id).0 == Ok(true)
    ensures out.1 == DeletePerson(db, fs, root, id).1 && out.2 == DeletePerson(db, fs, root, id).2
  {
    var deleted := DeletePerson(db, fs, root, id);
    match deleted.0
    case Err(e) => (Failure(HandleApiError(e)), deleted.1, deleted.2)
    case Ok(b) =>
      if !b then (Failure(HandleApiError(PersonNotFoundError)), deleted.1, deleted.2)
      else (Success(true), deleted.1, deleted.2)
  }

  /** What arrives with an upload: the client's name for the file (if
      any), the number of bytes, and what the MIME guess makes of the
      name. */
  datatype Upload = Upload(filename: Option<string>, size: int, mimeAccepted: string -> bool)

  /** The environment of a save: clock reading, random identifier, where
      the write fails if it does, and what the image library makes of the
      bytes. */
  datatype SaveEnv = SaveEnv(timestamp: string, uuid: string, fault: WriteFault, content: ImageInfo)

  /** The part of `POST /api/persons/{id}/photos` after the file is
      saved: extract the face and add the photo row. */
  function AddSavedPhoto(db: Db, personId: int, info: SavedFile, extraction: Extraction, now: int)
    : (out: (Response<Photo>, Db))
    ensures !(extraction.Extracted? && |extraction.embedding| == EmbeddingSize) ==> out.0.Failure? && out.1 == db
    ensures extraction.Extracted? && |extraction.embedding| == EmbeddingSize ==>
      out.1 == AddPhotoToPerson(db, personId, info.filename, info.relativePath,
                                extraction.embedding, extraction.confidence, now).1
    ensures (extraction.Extracted? && |extraction.embedding| == EmbeddingSize
             && !PhotoFieldsFit(info.filename, info.relativePath, extraction.confidence)) ==>
      out.0 == Failure(ApiError(500, "internal_error")) && |out.1.photos| == |db.photos| + 1
    ensures out.0.Success? ==> extraction.Extracted? && out.0.value.personId == personId && out.0.value.isActive
    ensures out.0.Success? ==> out.0.value.embedding == Some(Vector(extraction.embedding))
    ensures out.0.Success? ==> out.0.value.filePath == info.relativePath
    ensures out.0.Success? ==> out.1.persons == db.persons && out.1.photos == db.photos + [out.0.value]
    ensures extraction.NoFace? ==> out.0 == Failure(ApiError(422, "processing_error"))
    ensures extraction.ExtractorError? ==> out.0 == Failure(ApiError(500, "internal_error"))
  {
    match extraction
    case NoFace => (Failure(HandleApiError(FaceDetectionError)), db)
    case ExtractorError => (Failure(HandleApiError(Unexpected)), db)
    case Extracted(embedding, confidence) =>
      var added := AddPhotoToPerson(db, personId, info.filename, info.relativePath, embedding, confidence, now);
      match added.0
      case Err(e) => (Failure(HandleApiError(e)), added.1)
      case Ok(photo) => (Success(photo), added.1)
  }

  /** The part of `POST /api/persons/{id}/photos` after validation: save
      the file, then add the photo. Whatever happens after the save, the
      saved file stays in place. */
  function StorePhoto(db: Db, fs: FileSystem, cfg: Config, personId: int, filename: string, size: int,
                      env: SaveEnv, extraction: Extraction, now: int)
    : (out: (Response<Photo>, Db, FileSystem))
    ensures var saved := SaveUploadedFile(fs, cfg, size, filename, Some(personId), false,
                                          env.timestamp, env.uuid, env.fault, env.content);
      && (saved.0.Err? ==> out == (Failure(HandleApiError(saved.0.error)), db, saved.1))
      && (saved.0.Ok? ==> out.2 == saved.1)
      && (saved.0.Ok? ==> (out.0, out.1) == AddSavedPhoto(db, personId, saved.0.value, extraction, now))
  {
    var saved := SaveUploadedFile(fs, cfg, size, filename, Some(personId), false,
                                  env.timestamp, env.uuid, env.fault, env.content);
    match saved.0
    case Err(e) => (Failure(HandleApiError(e)), db, saved.1)
    case Ok(info) =>
      var added := AddSavedPhoto(db, personId, info, extraction, now);
      (added.0, added.1, saved.1)
  }

  /** The part of `POST /api/persons/{id}/photos` after the person is
      found: the request is validated before anything is written. */
  function ValidateThenStore(db: Db, fs: FileSystem, cfg: Config, personId: int, upload: Upload,
                             env: SaveEnv, extraction: Extraction, now: int)
    : (out: (Response<Photo>, Db, FileSystem))
    ensures !ValidateUploadRequest(upload.filename, Some(upload.size), Some(personId), upload.mimeAccepted, cfg).isValid
      ==> out == (Failure(ApiError(400, "validation_error")), db, fs)
    ensures ValidateUploadRequest(upload.filename, Some(upload.size), Some(personId), upload.mimeAccepted, cfg).isValid
      ==> (upload.filename.Some?
           && out == StorePhoto(db, fs, cfg, personId, upload.filename.value, upload.size, env, extraction, now))
  {
    if !ValidateUploadRequest(upload.filename, Some(upload.size), Some(personId), upload.mimeAccepted, cfg).isValid then
      (Failure(HandleApiError(ValidationError)), db, fs)
    else
      ValidUploadHasName(upload.filename, Some(upload.size), Some(personId), upload.mimeAccepted, cfg);
      StorePhoto(db, fs, cfg, personId, upload.filename.value, upload.size, env, extraction, now)
  }

  /** `POST /api/persons/{id}/photos`: the person is looked up before the
      upload is read or validated. */
  function UploadPhotoRoute(db: Db, fs: FileSystem, cfg: Config, personId: int, upload: Upload,
                            env: SaveEnv, extraction: Extraction, now: int)
    : (out: (Response<Photo>, Db, FileSystem))
    ensures !HasPerson(db, personId) ==> out == (Failure(NotFound), db, fs)
    ensures HasPerson(db, personId) ==> out == ValidateThenStore(db, fs, cfg, personId, upload, env, extraction, now)
  {
    if GetPerson(db, personId).None? then (Failure(HandleApiError(PersonNotFoundError)), db, fs)
    else ValidateThenStore(db, fs, cfg, personId, upload, env, extraction, now)
  }

  /** When no face is found in a saved upload, the reply is a 422 and the
      saved file stays behind. */
  lemma NoFaceLeavesFile(db: Db, fs: FileSystem, cfg: Config, personId: int, upload: Upload, env: SaveEnv, now: int)
    requires HasPerson(db, personId)
    requires ValidateUploadRequest(upload.filename, Some(upload.size), Some(personId), upload.mimeAccepted, cfg).isValid
    requires SaveUploadedFile(fs, cfg, upload.size, upload.filename.value, Some(personId), false,
                              env.timestamp, env.uuid, env.fault, env.content).0.Ok?
    ensures var saved := SaveUploadedFile(fs, cfg, upload.size, upload.filename.value, Some(personId), false,
                                          env.timestamp, env.uuid, env.fault, env.content);
      var out := UploadPhotoRoute(db, fs, cfg, personId, upload, env, NoFace, now);
      out.0 == Failure(ApiError(422, "processing_error")) && out.1 == db && saved.0.value.filePath in out.2.files
  {
  }

  /** The part of `POST /api/identify` after the temporary file is saved
      at `path`: the path is checked and the person identified, and the
      file is deleted in the `finally` block whatever the outcome. */
  function IdentifySaved(db: Db, fs: FileSystem, cfg: Config, path: string, isFile: bool,
                         extraction: Extraction, score: seq<real> -> Score, storeFails: bool)
    : (out: (Response<Identification>, FileSystem))
    ensures out.1 == DeleteFile(fs, path).1
    ensures !ValidateIdentificationRequest(path, path in fs.files, isFile, cfg).isValid ==>
      out.0 == Failure(ApiError(400, "validation_error"))
    ensures ValidateIdentificationRequest(path, path in fs.files, isFile, cfg).isValid ==>
      out.0 == Respond(Identify(db, cfg.threshold, extraction, score, storeFails))
  {
    var check := ValidateIdentificationRequest(path, path in fs.files, isFile, cfg);
    var response :=
      if !check.isValid then Failure(HandleApiError(ValidationError))
      else Respond(Identify(db, cfg.threshold, extraction, score, storeFails));
    (response, DeleteFile(fs, path).1)
  }

  /** The part of `POST /api/identify` after validation: the upload is
      saved as a temporary file, which is then identified and removed. */
  function SaveAndIdentify(db: Db, fs: FileSystem, cfg: Config, filename: string, size: int, env: SaveEnv,
                           isFile: bool, extraction: Extraction, score: seq<real> -> Score, storeFails: bool)
    : (out: (Response<Identification>, FileSystem))
    ensures var saved := SaveUploadedFile(fs, cfg, size, filename, None, true,
                                          env.timestamp, env.uuid, env.fault, env.content);
      && (saved.0.Err? ==> out == (Failure(HandleApiError(saved.0.error)), saved.1))
      && (saved.0.Ok? ==> out == IdentifySaved(db, saved.1, cfg, saved.0.value.filePath, isFile,
                                               extraction, score, storeFails))
  {
    var saved := SaveUploadedFile(fs, cfg, size, filename, None, true,
                                  env.timestamp, env.uuid, env.fault, env.content);
    match saved.0
    case Err(e) => (Failure(HandleApiError(e)), saved.1)
    case Ok(info) => IdentifySaved(db, saved.1, cfg, info.filePath, isFile, extraction, score, storeFails)
  }

  /** `POST /api/identify`: the request is validated before anything is
      written. */
  function IdentifyRoute(db: Db, fs: FileSystem, cfg: Config, upload: Upload, env: SaveEnv, isFile: bool,
                         extraction: Extraction, score: seq<real> -> Score, storeFails: bool)
    : (out: (Response<Identification>, FileSystem))
    ensures !ValidateUploadRequest(upload.filename, Some(upload.size), None, upload.mimeAccepted, cfg).isValid
      ==> out == (Failure(ApiError(400, "validation_error")), fs)
    ensures ValidateUploadRequest(upload.filename, Some(upload.size), None, upload.mimeAccepted, cfg).isValid
      ==> (upload.filename.Some?
           && out == SaveAndIdentify(db, fs, cfg, upload.filename.value, upload.size, env, isFile,
                                     extraction, score, storeFails))
  {
    if !ValidateUploadRequest(upload.filename, Some(upload.size), None, upload.mimeAccepted, cfg).isValid then
      (Failure(HandleApiError(ValidationError)), fs)
    else
      ValidUploadHasName(upload.filename, Some(upload.size), None, upload.mimeAccepted, cfg);
      SaveAndIdentify(db, fs, cfg, upload.filename.value, upload.size, env, isFile, extraction, score, storeFails)
  }

  /** Starlette's answer to an exception raised after the handler has
      returned: a plain-text 500 without an `error_type`. */
  const ServerError: ApiError := ApiError(500, "")

  /** FastAPI's check of a handler's return value against the route's
      `response_model`. `POST /api/identify` declares
      `IdentificationResult`, but its handler returns the
      `(result, embedding)` pair of `identify_person`; a tuple is neither a
      mapping nor an object whose attributes can be read, so the validation
      raises and the client gets `ServerError`. An `HTTPException` raised
      inside the handler is answered before the validation. */
  function CheckIdentificationModel(handled: Response<Identification>): (r: Response<IdentificationResult>)
    ensures r.Failure?
    ensures handled.Failure? ==> r.err == handled.err
    ensures handled.Success? ==> r.err == ServerError
  {
    match handled
    case Success(_) => Failure(ServerError)
    case Failure(e) => Failure(e)
  }

  /** `POST /api/identify` as the client sees it: never a success; a
      completed handler becomes the plain 500, and an error the handler
      raised keeps its mapped status. */
  function IdentifyReply(db: Db, fs: FileSystem, cfg: Config, upload: Upload, env: SaveEnv, isFile: bool,
                         extraction: Extraction, score: seq<real> -> Score, storeFails: bool)
    : (out: (Response<IdentificationResult>, FileSystem))
    ensures out.0.Failure?
    ensures var handled := IdentifyRoute(db, fs, cfg, upload, env, isFile, extraction, score, storeFails);
      && out.1 == handled.1
      && (handled.0.Success? ==> out.0 == Failure(ServerError))
      && (handled.0.Failure? ==> out.0.err == handled.0.err)
  {
    var handled := IdentifyRoute(db, fs, cfg, upload, env, isFile, extraction, score, storeFails);
    (CheckIdentificationModel(handled.0), handled.1)
  }

  /** Every error the identify handler raises carries an error type, so
      the untyped 500 marks exactly the handlers that completed. */
  lemma ServerErrorIffCompleted(db: Db, fs: FileSystem, cfg: Config, upload: Upload, env: SaveEnv, isFile: bool,
                                extraction: Extraction, score: seq<real> -> Score, storeFails: bool)
    ensures var handled := IdentifyRoute(db, fs, cfg, upload, env, isFile, extraction, score, storeFails);
      (IdentifyReply(db, fs, cfg, upload, env, isFile, extraction, score, storeFails).0 == Failure(ServerError)
       <==> handled.0.Success?)
  {
    var handled := IdentifyRoute(db, fs, cfg, upload, env, isFile, extraction, score, storeFails);
    if handled.0.Failure? {
      IdentifyRouteErrorsTyped(db, fs, cfg, upload, env, isFile, extraction, score, storeFails);
    }
  }

  lemma IdentifyRouteErrorsTyped(db: Db, fs: FileSystem, cfg: Config, upload: Upload, env: SaveEnv, isFile: bool,
                                 extraction: Extraction, score: seq<real> -> Score, storeFails: bool)
    ensures var handled := IdentifyRoute(db, fs, cfg, upload, env, isFile, extraction, score, storeFails);
      handled.0.Failure? ==> exists e :: handled.0.err == HandleApiError(e)
  {
    var handled := IdentifyRoute(db, fs, cfg, upload, env, isFile, extraction, score, storeFails);
    if !ValidateUploadRequest(upload.filename, Some(upload.size), None, upload.mimeAccepted, cfg).isValid {
      assert handled.0.err == HandleApiError(ValidationError);
    } else {
      ValidUploadHasName(upload.filename, Some(upload.size), None, upload.mimeAccepted, cfg);
      var saved := SaveUploadedFile(fs, cfg, upload.size, upload.filename.value, None, true,
                                    env.timestamp, env.uuid, env.fault, env.content);
      if saved.0.Err? {
        assert handled.0.err == HandleApiError(saved.0.error);
      } else {
        var path := saved.0.value.filePath;
        var identified := Identify(db, cfg.threshold, extraction, score, storeFails);
        if !ValidateIdentificationRequest(path, path in saved.1.files, isFile, cfg).isValid {
          assert handled.0.err == HandleApiError(ValidationError);
        } else if identified.Err? {
          assert handled.0.err == HandleApiError(identified.error);
        }
      }
    }
  }

  /** A completed identification, match or not, reaches the client as a
      500, after the `finally` has removed the temporary file. */
  lemma CompletedIdentificationAnswers500(db: Db, fs: FileSystem, cfg: Config, upload: Upload, env: SaveEnv,
                                          isFile: bool, extraction: Extraction, score: seq<real> -> Score,
                                          storeFails: bool)
    requires ValidateUploadRequest(upload.filename, Some(upload.size), None, upload.mimeAccepted, cfg).isValid
    requires upload.filename.Some?
    requires SaveUploadedFile(fs, cfg, upload.size, upload.filename.value, None, true,
                              env.timestamp, env.uuid, env.fault, env.content).0.Ok?
    requires var path := PathJoin(cfg.uploadPath, SaveRelative(upload.filename.value, None, true, env.timestamp, env.uuid));
      path !in fs.locked && ValidateIdentificationRequest(path, true, isFile, cfg).isValid
    requires Identify(db, cfg.threshold, extraction, score, storeFails).Ok?
    ensures var path := PathJoin(cfg.uploadPath, SaveRelative(upload.filename.value, None, true, env.timestamp, env.uuid));
      var out := IdentifyReply(db, fs, cfg, upload, env, isFile, extraction, score, storeFails);
      out.0 == Failure(ServerError) && out.1.files == fs.files - {path}
  {
    var filename := upload.filename.value;
    var saved := SaveUploadedFile(fs, cfg, upload.size, filename, None, true,
                                  env.timestamp, env.uuid, env.fault, env.content);
    IdentifyLeavesNoTempFile(db, fs, cfg, filename, upload.size, env, isFile, extraction, score, storeFails);
    assert saved.0.value.filePath in saved.1.files;
  }

  /** Identification removes the saved file whatever its outcome, unless
      the removal itself fails, and touches no other file. */
  lemma IdentifySavedRemovesFile(db: Db, fs: FileSystem, cfg: Config, path: string, isFile: bool,
                                 extraction: Extraction, score: seq<real> -> Score, storeFails: bool)
    requires path !in fs.locked
    ensures IdentifySaved(db, fs, cfg, path, isFile, extraction, score, storeFails).1.files == fs.files - {path}
  {
  }

  /** The temporary file does not outlive the request: once the upload is
      saved, whatever the outcome of the identification, the file at the
      saved path is removed (unless it cannot be) and no other file
      changes. */
  lemma IdentifyLeavesNoTempFile(db: Db, fs: FileSystem, cfg: Config, filename: string, size: int, env: SaveEnv,
                                 isFile: bool, extraction: Extraction, score: seq<real> -> Score, storeFails: bool)
    requires SaveUploadedFile(fs, cfg, size, filename, None, true,
                              env.timestamp, env.uuid, env.fault, env.content).0.Ok?
    requires PathJoin(cfg.uploadPath, SaveRelative(filename, None, true, env.timestamp, env.uuid)) !in fs.locked
    ensures var path := PathJoin(cfg.uploadPath, SaveRelative(filename, None, true, env.timestamp, env.uuid));
      SaveAndIdentify(db, fs, cfg, filename, size, env, isFile, extraction, score, storeFails).1.files
        == fs.files - {path}
  {
    var saved := SaveUploadedFile(fs, cfg, size, filename, None, true,
                                  env.timestamp, env.uuid, env.fault, env.content);
    IdentifySavedRemovesFile(db, saved.1, cfg, saved.0.value.filePath, isFile, extraction, score, storeFails);
  }

  /** When the save itself fails, the route does nothing more: the save
      sits before the `try`, so the `finally` that deletes the temporary
      file never runs. A partial or unhashed file stays at its path; no
      other file changes. */
  lemma IdentifyFailedSaveFrame(db: Db, fs: FileSystem, cfg: Config, filename: string, size: int, env: SaveEnv,
                                isFile: bool, extraction: Extraction, score: seq<real> -> Score, storeFails: bool)
    requires SaveUploadedFile(fs, cfg, size, filename, None, true,
                              env.timestamp, env.uuid, env.fault, env.content).0.Err?
    ensures var path := PathJoin(cfg.uploadPath, SaveRelative(filename, None, true, env.timestamp, env.uuid));
      var out := SaveAndIdentify(db, fs, cfg, filename, size, env, isFile, extraction, score, storeFails);
      && out.1.files - {path} == fs.files - {path}
      && out.0.Failure? && out.0.err.status in {400, 422}
  {
    SaveTouchesOnlyItsPath(fs, cfg, size, filename, None, true, env.timestamp, env.uuid, env.fault, env.content);
  }

  /** A write that fails after the file was created leaves the partial
      temporary file behind. */
  lemma IdentifyPartialWriteLeavesFile(db: Db, fs: FileSystem, cfg: Config, filename: string, size: int, env: SaveEnv,
                                       isFile: bool, extraction: Extraction, score: seq<real> -> Score, storeFails: bool)
    requires ValidateFileExtension(filename, cfg) && ValidateFileSize(size, cfg)
    requires env.fault == WriteFails
    ensures var path := PathJoin(cfg.uploadPath, SaveRelative(filename, None, true, env.timestamp, env.uuid));
      var out := SaveAndIdentify(db, fs, cfg, filename, size, env, isFile, extraction, score, storeFails);
      path in out.1.files && out.0 == Failure(ApiError(422, "processing_error"))
  {
  }

  /** `GET /api/persons/{id}/stats`: existence is checked first. */
  function StatsRoute(db: Db, id: int): (r: Response<Stats>)
    ensures !HasPerson(db, id) ==> r == Failure(NotFound)
    ensures HasPerson(db, id) ==> r == Success(GetPersonStats(db, id))
  {
    if GetPerson(db, id).None? then Failure(HandleApiError(PersonNotFoundError))
    else Success(GetPersonStats(db, id))
  }
}
