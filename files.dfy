/**
 * api/files.go: the upload endpoint. A multipart form carries a CSV file and
 * a username; the request passes a fixed ladder of checks, the file is parsed
 * into a matrix and encoded, and the encoding is stored under the username,
 * creating the user's row when there is none and replacing its data
 * otherwise. The database is a username-keyed table held by FileStore; the
 * clock, the encoder and database faults are parameters.
 */
module Files {
  import opened Wrappers
  import opened Csv
  import opened CsvReader
  import opened Rand

  /** maxFileSize, 10 << 20 bytes. */
  const MaxFileSize := 10 * 1024 * 1024

  const StatusOK := 200
  const StatusBadRequest := 400
  const StatusUnauthorized := 401
  const StatusRequestEntityTooLarge := 413
  const StatusInternalServerError := 500

  /**
   * The uploaded file as the handler sees it: its declared size, whether
   * opening it fails, and what the CSV reader yields on its content.
   */
  datatype Upload = Upload(size: int, openFails: bool, stream: seq<ReadResult>)

  /** The form fields of the request; None where the key is absent. */
  datatype Form = Form(file: Option<Upload>, username: Option<string>)

  /** Why an upload is refused, one value per early return of the handler. */
  datatype Refusal =
    | MissingFile                // no form value under "file"
    | TooLarge                   // the file is larger than MaxFileSize
    | MissingUsername            // no form value under "username"
    | MissingPayload             // the authorization payload is not in the request context
    | UsernameMismatch           // the form username is not the token's
    | OpenFailed                 // file.Open failed
    | ParseFailed(e: CsvError)   // ParseCSVToFloatSlice failed
    | EmptyMatrix                // mat.NewDense panics on zero rows or columns; gin's recovery answers 500
    | EncodeFailed               // MarshalBinary failed
    | StoreFailed                // CreateFile or UpdateFile failed

  /** The HTTP status the handler answers a refusal with. */
  function Status(r: Refusal): (code: int)
    ensures code == StatusBadRequest <==> r.MissingFile? || r.MissingUsername?
    ensures code == StatusRequestEntityTooLarge <==> r.TooLarge?
    ensures code == StatusUnauthorized <==> r.UsernameMismatch?
    ensures code == StatusInternalServerError <==>
      r.MissingPayload? || r.OpenFailed? || r.ParseFailed? || r.EmptyMatrix? || r.EncodeFailed? || r.StoreFailed?
  {
    match r
    case MissingFile => StatusBadRequest
    case TooLarge => StatusRequestEntityTooLarge
    case MissingUsername => StatusBadRequest
    case UsernameMismatch => StatusUnauthorized
    case _ => StatusInternalServerError
  }

  /** A request that passed the checks: whose file it is and the encoded matrix to store. */
  datatype Accepted = Accepted(username: string, encoded: string)

  /** MarshalBinary followed by base64: None where MarshalBinary reports an error. */
  type Encoder = (nat, nat, seq<real>) -> Option<string>

  /**
   * The checks of uploadFile in their order, up to the encoded data.
   * `payloadUser` is the username of the token payload the authorization
   * middleware stored, or None when the context holds none.
   */
  function Validate(form: Form, payloadUser: Option<string>, parse: FloatParser, encode: Encoder)
    : (r: Result<Accepted, Refusal>)
    ensures r.Ok? <==>
      && form.file.Some? && form.file.value.size <= MaxFileSize && !form.file.value.openFails
      && form.username.Some? && payloadUser == Some(form.username.value)
      && var p := Expected(form.file.value.stream, parse);
         p.err.None? && p.rows > 0 && p.cols > 0 && encode(p.rows, p.cols, p.data).Some?
    ensures r.Ok? ==> r.value.username == form.username.value
    ensures r.Ok? ==> var p := Expected(form.file.value.stream, parse);
      Some(r.value.encoded) == encode(p.rows, p.cols, p.data)
  {
    match form.file
    case None => Err(MissingFile)
    case Some(file) =>
      if file.size > MaxFileSize then Err(TooLarge)
      else match form.username
      case None => Err(MissingUsername)
      case Some(username) =>
        match payloadUser
        case None => Err(MissingPayload)
        case Some(owner) =>
          if username != owner then Err(UsernameMismatch)
          else if file.openFails then Err(OpenFailed)
          else
            var p := Expected(file.stream, parse);
            if p.err.Some? then Err(ParseFailed(p.err.value))
            else if p.rows == 0 || p.cols == 0 then Err(EmptyMatrix)
            else match encode(p.rows, p.cols, p.data)
            case None => Err(EncodeFailed)
            case Some(encoded) => Ok(Accepted(username, encoded))
  }

  /** Without a file the request is a bad request, whatever else it holds. */
  lemma NoFileIsBadRequest(username: Option<string>, payloadUser: Option<string>,
                           parse: FloatParser, encode: Encoder)
    ensures var r := Validate(Form(None, username), payloadUser, parse, encode);
      r == Err(MissingFile) && Status(r.error) == StatusBadRequest
  {
  }

  /**
   * A file over the limit is refused with 413 before the username, the
   * payload or the content are looked at; a file of exactly the limit is not.
   */
  lemma OversizeFirst(file: Upload, username: Option<string>, payloadUser: Option<string>,
                      parse: FloatParser, encode: Encoder)
    ensures var r := Validate(Form(Some(file), username), payloadUser, parse, encode);
      (r == Err(TooLarge) <==> file.size > MaxFileSize)
      && (r.Err? && r.error == TooLarge ==> Status(r.error) == StatusRequestEntityTooLarge)
  {
  }

  /** A file within the limit without a username is a bad request. */
  lemma NoUsernameIsBadRequest(file: Upload, payloadUser: Option<string>, parse: FloatParser, encode: Encoder)
    requires file.size <= MaxFileSize
    ensures Validate(Form(Some(file), None), payloadUser, parse, encode) == Err(MissingUsername)
  {
  }

  /** A form username that is not the token's is refused with 401 before the file is read. */
  lemma ForeignUsernameUnauthorized(file: Upload, username: string, owner: string,
                                    parse: FloatParser, encode: Encoder)
    requires file.size <= MaxFileSize && username != owner
    ensures Validate(Form(Some(file), Some(username)), Some(owner), parse, encode) == Err(UsernameMismatch)
    ensures Status(UsernameMismatch) == StatusUnauthorized
  {
  }

  /** Content that does not parse is refused with 500 and the parser's error. */
  lemma UnparsableIsServerError(file: Upload, username: string, parse: FloatParser, encode: Encoder)
    requires file.size <= MaxFileSize && !file.openFails
    requires Expected(file.stream, parse).err.Some?
    ensures Validate(Form(Some(file), Some(username)), Some(username), parse, encode)
         == Err(ParseFailed(Expected(file.stream, parse).err.value))
  {
  }

  /** A file with no records parses to an empty matrix, which mat.NewDense refuses. */
  lemma EmptyFileIsServerError(file: Upload, username: string, parse: FloatParser, encode: Encoder)
    requires file.size <= MaxFileSize && !file.openFails
    requires forall k | 0 <= k < |file.stream| :: file.stream[k].record == []
    ensures Validate(Form(Some(file), Some(username)), Some(username), parse, encode) == Err(EmptyMatrix)
  {
    OnlyEmptyRecords(file.stream, parse);
  }

  /**
   * A generated CSV of numeric cells (what RandomCSV produces), uploaded
   * under the token's own username and within the size limit, passes every
   * check up to the encoding as a rows x cols matrix, and is accepted exactly
   * when the encoding succeeds.
   */
  lemma GeneratedCsvAccepted(cells: seq<seq<string>>, rows: nat, cols: nat, size: int, username: string,
                             parse: FloatParser, encode: Encoder)
    requires rows >= 1 && cols >= 1 && Grid(cells, rows, cols) && size <= MaxFileSize
    requires forall i, j | 0 <= i < rows && 0 <= j < cols :: Cell(parse, cells[i][j])
    ensures '"' !in CsvText(cells) && '\r' !in CsvText(cells)
    ensures var p := Expected(Read(CsvText(cells)), parse);
      var r := Validate(Form(Some(Upload(size, false, Read(CsvText(cells)))), Some(username)), Some(username), parse, encode);
      && p.rows == rows && p.cols == cols && |p.data| == rows * cols
      && r == match encode(rows, cols, p.data)
              case None => Err(EncodeFailed)
              case Some(encoded) => Ok(Accepted(username, encoded))
  {
    RandomCsvParses(cells, rows, cols, parse);
  }

  /** One row of the files table; `changedAt` is the database time of the row's last insert or update. */
  datatype FileRow = FileRow(id: int, data: string, changedAt: int)

  /**
   * The response body on success: the stored row's ID and the change time
   * the insert or update query returns.
   */
  datatype FileResp = FileResp(id: int, changedAt: int)

  /** A query the handler sends to the database. */
  datatype Query = GetFile(username: string) | CreateFile(username: string, data: string)
                 | UpdateFile(username: string, data: string)

  /**
   * The files table behind the Querier: one row per username. `log` records
   * the queries sent, in order; `nextId` is the ID the next inserted row gets.
   */
  class FileStore {
    var files: map<string, FileRow>
    var nextId: int
    var log: seq<Query>

    /** Row IDs are below nextId and no two users share one. */
    predicate Valid()
      reads this
    {
      && (forall u | u in files :: files[u].id < nextId)
      && (forall u, v | u in files && v in files && u != v :: files[u].id != files[v].id)
    }

    constructor ()
      ensures Valid() && files == map[] && log == []
    {
      files := map[];
      nextId := 1;
      log := [];
    }

    /**
     * The database part of uploadFile. GetFile looks the username up; when it
     * reports no row the file is inserted with a fresh ID, and on any other
     * outcome, a row or another error, the row is updated in place. A failed
     * insert or update answers 500 and leaves the table as it was.
     * `getFault` makes GetFile fail with an error other than "no rows" and
     * `writeFault` makes the insert or update fail; `now` is the database
     * clock. Both the insert and the update stamp the row with `now`, and
     * that change time is what both queries return.
     */
    method Store(username: string, encoded: string, now: int, getFault: bool, writeFault: bool)
      returns (status: int, file: Option<FileResp>)
      requires Valid()
      modifies this
      ensures Valid()
      ensures status == StatusOK <==> file.Some?
      ensures var created := !getFault && username !in old(files);
        && (created ==> log == old(log) + [GetFile(username), CreateFile(username, encoded)])
        && (!created ==> log == old(log) + [GetFile(username), UpdateFile(username, encoded)])
        && (status == StatusOK <==> !writeFault && (created || username in old(files)))
        && (status != StatusOK ==> status == StatusInternalServerError
                                   && files == old(files) && nextId == old(nextId))
        && (status == StatusOK ==>
             var id := if created then old(nextId) else old(files)[username].id;
             && files == old(files)[username := FileRow(id, encoded, now)]
             && file == Some(FileResp(id, now))
             && nextId == if created then old(nextId) + 1 else old(nextId))
    {
      log := log + [GetFile(username)];
      if !getFault && username !in files {
        log := log + [CreateFile(username, encoded)];
        if writeFault {
          return StatusInternalServerError, None;
        }
        var row := FileRow(nextId, encoded, now);
        files := files[username := row];
        nextId := nextId + 1;
        return StatusOK, Some(FileResp(row.id, row.changedAt));
      }
      log := log + [UpdateFile(username, encoded)];
      if writeFault || username !in files {
        // UPDATE ... RETURNING finds no row, or the database fails
        return StatusInternalServerError, None;
      }
      var row := files[username].(data := encoded, changedAt := now);
      files := files[username := row];
      return StatusOK, Some(FileResp(row.id, row.changedAt));
    }

    /**
     * uploadFile: the checks of Validate, then Store under the form's
     * username. A refused request answers its refusal's status and sends no
     * query at all.
     */
    method UploadFile(form: Form, payloadUser: Option<string>, parse: FloatParser, encode: Encoder,
                      now: int, getFault: bool, writeFault: bool)
      returns (status: int, file: Option<FileResp>)
      requires Valid()
      modifies this
      ensures Valid()
      ensures status == StatusOK <==> file.Some?
      ensures var v := Validate(form, payloadUser, parse, encode);
        v.Err? ==> status == Status(v.error) && file.None?
                   && files == old(files) && nextId == old(nextId) && log == old(log)
      ensures var v := Validate(form, payloadUser, parse, encode);
        v.Ok? ==>
          var u, e := v.value.username, v.value.encoded;
          var created := !getFault && u !in old(files);
          && (created ==> log == old(log) + [GetFile(u), CreateFile(u, e)])
          && (!created ==> log == old(log) + [GetFile(u), UpdateFile(u, e)])
          && (status == StatusOK <==> !writeFault && (created || u in old(files)))
          && (status != StatusOK ==> status == StatusInternalServerError
                                     && files == old(files) && nextId == old(nextId))
          && (status == StatusOK ==>
               var id := if created then old(nextId) else old(files)[u].id;
               && files == old(files)[u := FileRow(id, e, now)]
               && file == Some(FileResp(id, now))
               && nextId == if created then old(nextId) + 1 else old(nextId))
    {
      var v := Validate(form, payloadUser, parse, encode);
      if v.Err? {
        return Status(v.error), None;
      }
      status, file := Store(v.value.username, v.value.encoded, now, getFault, writeFault);
    }
  }
}
