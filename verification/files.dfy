/** The file service (app/services/file_service.py): the extension and
    size checks, the content check, generated file names, the save order
    of `save_uploaded_file` and the result of `delete_file`.

    The upload tree is a set of paths. `locked` holds the paths whose
    removal raises (a permission error, say); the clock reading and the
    random identifier of a generated name are parameters. */
module Files {
  import opened Common
  import opened Text
  import opened Settings
  import opened Paths
  import opened Validators

  datatype FileSystem = FileSystem(files: set<string>, locked: set<string>)

  /** `Path(a) / b`, without the normalisation of `.` components. */
  function PathJoin(a: string, b: string): string {
    a + "/" + b
  }

  /** `delete_file`: true exactly when the file existed and was removed;
      a failing removal is reported as false, never raised. */
  function DeleteFile(fs: FileSystem, path: string): (out: (bool, FileSystem))
    ensures out.0 <==> path in fs.files && path !in fs.locked
    ensures out.1.files == (if out.0 then fs.files - {path} else fs.files)
    ensures out.1.locked == fs.locked
  {
    if path !in fs.files then (false, fs)
    else if path in fs.locked then (false, fs)
    else (true, fs.(files := fs.files - {path}))
  }

  /** Removing a file twice: the second call finds nothing. */
  lemma DeleteFileTwice(fs: FileSystem, path: string)
    ensures var once := DeleteFile(fs, path).1;
      !DeleteFile(once, path).0 && DeleteFile(once, path).1 == once
  {
  }

  /** What opening the saved file yields: its size and format, or an
      error from the image library. */
  datatype ImageInfo = Decoded(width: int, height: int, format: string) | CannotOpen

  datatype ContentError = ContentTooSmall | ContentTooLarge | UnsupportedFormat | OpenFailed

  predicate SupportedFormat(format: string) {
    format == "JPEG" || format == "PNG"
  }

  /** `validate_image_content`: every failed check adds its error and
      clears validity. */
  function ValidateImageContent(img: ImageInfo): (r: Report<ContentError>)
    ensures r.isValid <==> r.errors == []
    ensures img.CannotOpen? ==> r == Report(false, [OpenFailed])
    ensures img.Decoded? ==> (ContentTooSmall in r.errors <==> img.width < 50 || img.height < 50)
    ensures img.Decoded? ==> (ContentTooLarge in r.errors <==> img.width > 4000 || img.height > 4000)
    ensures img.Decoded? ==> (UnsupportedFormat in r.errors <==> !SupportedFormat(img.format))
    ensures img.Decoded? ==> OpenFailed !in r.errors
  {
    match img
    case CannotOpen => Report(false, [OpenFailed])
    case Decoded(w, h, f) =>
      var errors :=
        (if w < 50 || h < 50 then [ContentTooSmall] else [])
        + (if w > 4000 || h > 4000 then [ContentTooLarge] else [])
        + (if !SupportedFormat(f) then [UnsupportedFormat] else []);
      Report(errors == [], errors)
  }

  /** For a JPEG or PNG image, the content check and the dimension
      validator agree on validity. */
  lemma ContentAgreesWithDimensions(w: int, h: int, format: string)
    requires SupportedFormat(format)
    ensures ValidateImageContent(Decoded(w, h, format)).isValid == ValidateImageDimensions(w, h).isValid
  {
  }

  /** `str(uuid4())[:8]`: at most the first eight characters. */
  function ShortId(uuid: string): (r: string)
    ensures |r| <= 8 && |r| <= |uuid| && r == uuid[..|r|]
    ensures |uuid| >= 8 ==> |r| == 8
  {
    if |uuid| <= 8 then uuid else uuid[..8]
  }

  /** The start of a generated name: `person_<id>_` for a truthy person id,
      `temp_` otherwise. */
  function NamePrefix(personId: Option<int>): string {
    if Truthy(personId) then "person_" + IntToString(personId.value) + "_" else "temp_"
  }

  /** The part of a generated name before the extension. */
  function GeneratedStem(personId: Option<int>, timestamp: string, uuid: string): string {
    NamePrefix(personId) + timestamp + "_" + ShortId(uuid)
  }

  /** `generate_unique_filename`: `person_<id>_<ts>_<uid><ext>` for a truthy
      person id, `temp_<ts>_<uid><ext>` otherwise, where `ext` is the
      lower-cased suffix with its dot. */
  function GenerateUniqueFilename(original: string, personId: Option<int>, timestamp: string, uuid: string): string {
    GeneratedStem(personId, timestamp, uuid) + Lower(Suffix(original))
  }

  lemma StemHasNo(personId: Option<int>, timestamp: string, uuid: string, c: char)
    requires c == '.' || c == '/'
    requires c !in timestamp && c !in uuid
    ensures c !in GeneratedStem(personId, timestamp, uuid)
    ensures GeneratedStem(personId, timestamp, uuid) != []
  {
    var u := ShortId(uuid);
    assert forall i :: 0 <= i < |u| ==> u[i] == uuid[i];
    if Truthy(personId) {
      var n := IntToString(personId.value);
      assert forall i :: 0 <= i < |n| ==> n[i] != c;
    }
  }

  /** The name a generated file gets keeps the extension of the uploaded
      name, so a name that passed the extension check still passes it. */
  lemma GeneratedNameKeepsExtension(original: string, personId: Option<int>, timestamp: string, uuid: string)
    requires '.' !in timestamp && '/' !in timestamp && '.' !in uuid && '/' !in uuid
    ensures Extension(GenerateUniqueFilename(original, personId, timestamp, uuid)) == Extension(original)
  {
    var stem := GeneratedStem(personId, timestamp, uuid);
    StemHasNo(personId, timestamp, uuid, '.');
    StemHasNo(personId, timestamp, uuid, '/');
    var sfx := Suffix(original);
    if sfx == [] {
      NoSuffixKeepsExtension(stem, original);
    } else {
      SuffixKeepsExtension(stem, original);
    }
  }

  lemma NoSuffixKeepsExtension(stem: string, original: string)
    requires '.' !in stem && '/' !in stem && Suffix(original) == []
    ensures Extension(stem + Lower(Suffix(original))) == Extension(original)
  {
    assert Lower(Suffix(original)) == [];
    assert stem + Lower(Suffix(original)) == stem;
    NoExtensionWithoutDot(stem);
    assert Extension(original) == LStrip(Lower(Suffix(original)), '.');
  }

  lemma SuffixKeepsExtension(stem: string, original: string)
    requires stem != [] && '/' !in stem && Suffix(original) != []
    ensures Extension(stem + Lower(Suffix(original))) == Extension(original)
  {
    var tail := Suffix(original)[1..];
    ExtensionOfSuffix(original);
    StemThenSuffix(stem, Suffix(original));
    ExtensionAfterLastDot(stem, Lower(tail));
    LowerIdempotent(tail);
  }

  /** Appending a lower-cased suffix appends a dot and the lower-cased
      text after it. */
  lemma StemThenSuffix(stem: string, sfx: string)
    requires |sfx| >= 2 && sfx[0] == '.' && '.' !in sfx[1..] && '/' !in sfx
    ensures var tail := sfx[1..];
      && stem + Lower(sfx) == stem + ['.'] + Lower(tail)
      && Lower(tail) != [] && '.' !in Lower(tail) && '/' !in Lower(tail)
  {
    var tail := sfx[1..];
    assert sfx == ['.'] + tail;
    assert '/' !in tail by {
      forall i | 0 <= i < |tail|
        ensures tail[i] != '/'
      {
        assert tail[i] == sfx[i + 1];
      }
    }
    LowerDotTail(tail);
  }

  /** The extension of a name with a suffix is the lower-cased suffix
      without its dot. */
  lemma ExtensionOfSuffix(original: string)
    requires Suffix(original) != []
    ensures var tail := Suffix(original)[1..];
      tail != [] && '.' !in tail && '/' !in tail && Extension(original) == Lower(tail)
  {
    var sfx := Suffix(original);
    var tail := sfx[1..];
    assert sfx == ['.'] + tail;
    DotThenTail(tail);
  }

  lemma LowerDotTail(tail: string)
    requires tail != [] && '.' !in tail && '/' !in tail
    ensures Lower(['.'] + tail) == ['.'] + Lower(tail)
    ensures Lower(tail) != [] && '.' !in Lower(tail) && '/' !in Lower(tail)
  {
    LowerKeepsAbsent(tail, '.');
    LowerKeepsAbsent(tail, '/');
  }

  /** A person id of 0 is not truthy: the name is a temporary one. */
  lemma ZeroIdIsTemporary(original: string, timestamp: string, uuid: string)
    ensures GenerateUniqueFilename(original, Some(0), timestamp, uuid) == GenerateUniqueFilename(original, None, timestamp, uuid)
  {
  }

  /** The directory a file is saved in, relative to the upload root:
      `temp` when asked for a temporary file or when the person id is not
      truthy, `persons/<id>` otherwise. */
  function TargetDirectory(temp: bool, personId: Option<int>): (dir: string)
    ensures temp || !Truthy(personId) ==> dir == "temp"
    ensures !temp && Truthy(personId) ==> dir == "persons/" + IntToString(personId.value)
  {
    if temp then "temp"
    else if Truthy(personId) then "persons/" + IntToString(personId.value)
    else "temp"
  }

  /** The dictionary `save_uploaded_file` returns, without the hash and
      image details. */
  datatype SavedFile = SavedFile(
    filename: string,
    originalFilename: string,
    filePath: string,
    relativePath: string,
    fileSize: int,
    personId: Option<int>,
    isTemp: bool)

  /** Where a file is written: the upload root, the target directory and
      the generated name. */
  function SaveRelative(original: string, personId: Option<int>, temp: bool, timestamp: string, uuid: string): string {
    TargetDirectory(temp, personId) + "/" + GenerateUniqueFilename(original, personId, timestamp, uuid)
  }

  /** Where writing a saved file goes wrong, if anywhere. `OpenFails`:
      the directory or the file cannot be created, so nothing is written.
      `WriteFails`: the write or the close fails after `open` has created
      the file, so a partial file stays. `HashFails`: reading the file
      back for its hash fails, so the whole file stays. Each one surfaces
      as `FileStorageError`. */
  datatype WriteFault = NoFault | OpenFails | WriteFails | HashFails

  /** The write, the content check and the hash of `save_uploaded_file`,
      once the name and size checks have passed. A file whose content is
      rejected is removed again, unless its removal fails; the hash is
      taken only of accepted content. */
  function WriteAndCheck(fs: FileSystem, path: string, file: SavedFile, fault: WriteFault, contentOk: bool)
    : (out: (Result<SavedFile>, FileSystem))
    ensures out.0.Ok? <==> fault == NoFault && contentOk
    ensures out.0.Ok? ==> out.0.value == file && out.1 == fs.(files := fs.files + {path})
    ensures out.0.Err? ==> out.0.error == FileValidationError || out.0.error == FileStorageError
    ensures out.0 == Err(FileStorageError) <==>
      fault == OpenFails || fault == WriteFails || (fault == HashFails && contentOk)
    ensures out.1.files - {path} == fs.files - {path} && out.1.locked == fs.locked
    ensures fault == OpenFails ==> out == (Err(FileStorageError), fs)
    ensures fault == WriteFails ==> out == (Err(FileStorageError), fs.(files := fs.files + {path}))
    ensures (fault == NoFault || fault == HashFails) && !contentOk && path !in fs.locked ==>
      out == (Err(FileValidationError), fs.(files := fs.files - {path}))
    ensures fault == HashFails && contentOk ==> out == (Err(FileStorageError), fs.(files := fs.files + {path}))
  {
    if fault.OpenFails? then (Err(FileStorageError), fs)
    else
      var written := fs.(files := fs.files + {path});
      assert written.files - {path} == fs.files - {path};
      if fault.WriteFails? then (Err(FileStorageError), written)
      else if !contentOk then (Err(FileValidationError), DeleteFile(written, path).1)
      else if fault.HashFails? then (Err(FileStorageError), written)
      else (Ok(file), written)
  }

  /** `save_uploaded_file`. The extension check comes first, then the size
      check, both before anything is written; `content` is what the image
      library makes of the written bytes. */
  function SaveUploadedFile(fs: FileSystem, cfg: Config, size: int, original: string,
                            personId: Option<int>, temp: bool, timestamp: string, uuid: string,
                            fault: WriteFault, content: ImageInfo): (out: (Result<SavedFile>, FileSystem))
    ensures !ValidateFileExtension(original, cfg) ==> out == (Err(FileValidationError), fs)
    ensures ValidateFileExtension(original, cfg) && !ValidateFileSize(size, cfg) ==> out == (Err(FileValidationError), fs)
    ensures out.0.Ok? <==>
      ValidateFileExtension(original, cfg) && ValidateFileSize(size, cfg) && fault == NoFault
      && ValidateImageContent(content).isValid
    ensures out.0.Ok? ==> out.0.value.relativePath == SaveRelative(original, personId, temp, timestamp, uuid)
    ensures out.0.Ok? ==> out.0.value.filePath == PathJoin(cfg.uploadPath, out.0.value.relativePath)
    ensures out.0.Ok? ==> out.1 == fs.(files := fs.files + {out.0.value.filePath})
    ensures out.0.Err? ==> out.0.error == FileValidationError || out.0.error == FileStorageError
  {
    if !ValidateFileExtension(original, cfg) then (Err(FileValidationError), fs)
    else if !ValidateFileSize(size, cfg) then (Err(FileValidationError), fs)
    else
      var name := GenerateUniqueFilename(original, personId, timestamp, uuid);
      var relative := SaveRelative(original, personId, temp, timestamp, uuid);
      var path := PathJoin(cfg.uploadPath, relative);
      WriteAndCheck(fs, path, SavedFile(name, original, path, relative, size, personId, temp),
                    fault, ValidateImageContent(content).isValid)
  }

  /** A save touches no file but the one at its own path, and never the
      set of locked paths. */
  lemma SaveTouchesOnlyItsPath(fs: FileSystem, cfg: Config, size: int, original: string, personId: Option<int>,
                               temp: bool, timestamp: string, uuid: string, fault: WriteFault, content: ImageInfo)
    ensures var path := PathJoin(cfg.uploadPath, SaveRelative(original, personId, temp, timestamp, uuid));
      var saved := SaveUploadedFile(fs, cfg, size, original, personId, temp, timestamp, uuid, fault, content);
      && saved.1.files - {path} == fs.files - {path}
      && saved.1.locked == fs.locked
  {
  }

  /** What each failure after the name and size checks leaves at the
      file's path: nothing new when the file cannot be created, the
      partial file when the write fails, the whole file when the hash
      fails, and no file when the content is rejected (its path not being
      locked). */
  lemma FailedSaveFrame(fs: FileSystem, cfg: Config, size: int, original: string, personId: Option<int>,
                        temp: bool, timestamp: string, uuid: string, fault: WriteFault, content: ImageInfo)
    requires ValidateFileExtension(original, cfg) && ValidateFileSize(size, cfg)
    requires PathJoin(cfg.uploadPath, SaveRelative(original, personId, temp, timestamp, uuid)) !in fs.locked
    ensures var path := PathJoin(cfg.uploadPath, SaveRelative(original, personId, temp, timestamp, uuid));
      var saved := SaveUploadedFile(fs, cfg, size, original, personId, temp, timestamp, uuid, fault, content);
      && (fault == OpenFails ==> saved == (Err(FileStorageError), fs))
      && (fault == WriteFails ==> saved == (Err(FileStorageError), fs.(files := fs.files + {path})))
      && (fault == HashFails && ValidateImageContent(content).isValid ==>
            saved == (Err(FileStorageError), fs.(files := fs.files + {path})))
      && ((fault == NoFault || fault == HashFails) && !ValidateImageContent(content).isValid ==>
            saved == (Err(FileValidationError), fs.(files := fs.files - {path})))
  {
  }
}
