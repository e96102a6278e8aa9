/** Input validators (app/utils/validators.py): file names, extensions,
    sizes and image dimensions; person names and ids; recognition
    parameters and embedding vectors; and the combined upload-request and
    identification-request checks. Each validator that returns
    `{'is_valid', 'errors'}` returns a `Report` here, with error kinds in
    place of the (Russian) messages, in the order the source appends them. */
module Validators {
  import opened Common
  import opened Text
  import opened Settings
  import opened Paths

  // ---------------------------------------------------------------- files

  /** The characters `validate_filename` rejects: `< > : " / \ | ? *`. */
  predicate FilenameForbidden(c: char) {
    c == '<' || c == '>' || c == ':' || c == '"' || c == '/' || c == '\\' || c == '|' || c == '?' || c == '*'
  }

  /** What an acceptable file name looks like, stated without scanning: a
      character that is not whitespace, no forbidden character, at most 255
      characters. */
  predicate FilenameShape(filename: string) {
    && (exists i :: 0 <= i < |filename| && !IsSpace(filename[i]))
    && (forall i :: 0 <= i < |filename| ==> !FilenameForbidden(filename[i]))
    && |filename| <= 255
  }

  /** `FileValidator.validate_filename`: empty or blank, a forbidden
      character, more than 255 characters, in that order. */
  predicate ValidateFilename(filename: string) {
    if filename == [] || |Strip(filename)| == 0 then false
    else if Search(filename, FilenameForbidden) then false
    else if |filename| > 255 then false
    else true
  }

  /** The scanning check accepts exactly the names of the right shape. */
  lemma ValidateFilenameShape(filename: string)
    ensures ValidateFilename(filename) <==> FilenameShape(filename)
  {
  }

  /** `FileValidator.validate_file_extension` against the configured list. */
  predicate ValidateFileExtension(filename: string, cfg: Config) {
    AllowedExtension(filename, AllowedExtensionsList(cfg.allowedExtensions))
  }

  /** `FileValidator.validate_file_size`. */
  predicate ValidateFileSize(size: int, cfg: Config) {
    0 < size <= cfg.maxUploadSize
  }

  datatype DimensionError = ImageTooSmall | ImageTooLarge | AspectRatioTooLarge

  function Max(a: int, b: int): int { if a >= b then a else b }

  /** `FileValidator.validate_image_dimensions`. The aspect ratio, computed
      by division, is stated in the contract over integers; an extreme ratio
      adds an error but does not make the result invalid. */
  function ValidateImageDimensions(width: int, height: int): (r: Report<DimensionError>)
    ensures r.isValid <==> 50 <= width <= 4000 && 50 <= height <= 4000
    ensures ImageTooSmall in r.errors <==> width < 50 || height < 50
    ensures ImageTooLarge in r.errors <==> width > 4000 || height > 4000
    ensures AspectRatioTooLarge in r.errors <==>
      width > 0 && height > 0 && Max(width, height) > 5 * Min(width, height)
    ensures r.isValid && r.errors != [] ==> r.errors == [AspectRatioTooLarge]
  {
    var small := width < 50 || height < 50;
    var large := width > 4000 || height > 4000;
    var wide := width > 0 && height > 0 && (Max(width, height) as real) / (Min(width, height) as real) > 5.0;
    RatioAboveFive(Max(width, height), Min(width, height));
    Report(
      !small && !large,
      (if small then [ImageTooSmall] else [])
      + (if large then [ImageTooLarge] else [])
      + (if wide then [AspectRatioTooLarge] else []))
  }

  lemma RatioAboveFive(hi: int, lo: int)
    ensures lo > 0 ==> ((hi as real) / (lo as real) > 5.0 <==> hi > 5 * lo)
  {
    if lo > 0 {
      var h, l := hi as real, lo as real;
      var q := h / l;
      assert q * l == h;
      if q > 5.0 {
        ProductSign(q - 5.0, l);
        assert (q - 5.0) * l == h - 5.0 * l;
      } else {
        ProductSign(5.0 - q, l);
        assert (5.0 - q) * l == 5.0 * l - h;
      }
    }
  }

  lemma ProductSign(a: real, b: real)
    requires a >= 0.0 && b > 0.0
    ensures a > 0.0 ==> a * b > 0.0
    ensures a * b >= 0.0
  {
  }

  // --------------------------------------------------------------- people

  /** The characters `validate_person_name` rejects: `< > " / \ | ? *`. */
  predicate NameForbidden(c: char) {
    c == '<' || c == '>' || c == '"' || c == '/' || c == '\\' || c == '|' || c == '?' || c == '*'
  }

  /** The class `[a-zA-Zа-яА-Я0-9]`: ASCII letters and digits, and the
      Cyrillic letters U+0410..U+044F (which leaves out `ё` and `Ё`). */
  predicate NameAlphanumeric(c: char) {
    || ('a' <= c <= 'z')
    || ('A' <= c <= 'Z')
    || ('\U{0430}' <= c <= '\U{044F}')
    || ('\U{0410}' <= c <= '\U{042F}')
    || ('0' <= c <= '9')
  }

  datatype NameError =
    | NameEmpty
    | NameTooShort
    | NameTooLong
    | NameForbiddenChars
    | NameWithoutAlphanumerics

  /** `None`, empty, or whitespace only. */
  predicate Blank(name: Option<string>) {
    name.None? || Strip(name.value) == []
  }

  /** What a stripped name must satisfy, stated without the scanning the
      validator does: 2 to 255 characters, none forbidden, at least one
      letter or digit. */
  predicate AcceptableName(t: string) {
    && 2 <= |t| <= 255
    && (forall i :: 0 <= i < |t| ==> !NameForbidden(t[i]))
    && (exists i :: 0 <= i < |t| && NameAlphanumeric(t[i]))
  }

  /** The checks run on a non-blank, stripped name; every failed check adds
      its error. */
  function NameErrors(t: string): (errs: seq<NameError>)
    ensures NameEmpty !in errs
    ensures NameTooShort in errs <==> |t| < 2
    ensures NameTooLong in errs <==> |t| > 255
    ensures NameForbiddenChars in errs <==> exists i :: 0 <= i < |t| && NameForbidden(t[i])
    ensures NameWithoutAlphanumerics in errs <==> forall i :: 0 <= i < |t| ==> !NameAlphanumeric(t[i])
    ensures errs == [] <==> AcceptableName(t)
  {
    var short := |t| < 2;
    var long := |t| > 255;
    var forbidden := Search(t, NameForbidden);
    var noAlnum := !Search(t, NameAlphanumeric);
    (if short then [NameTooShort] else [])
    + (if long then [NameTooLong] else [])
    + (if forbidden then [NameForbiddenChars] else [])
    + (if noAlnum then [NameWithoutAlphanumerics] else [])
  }

  /** `PersonValidator.validate_person_name`. A blank name stops at one
      error; otherwise the stripped name goes through every check. */
  function ValidatePersonName(name: Option<string>): (r: Report<NameError>)
    ensures Blank(name) ==> r == Report(false, [NameEmpty])
    ensures !Blank(name) ==> (r.isValid <==> AcceptableName(Strip(name.value)))
    ensures !Blank(name) ==> r.errors == NameErrors(Strip(name.value))
    ensures r.isValid <==> r.errors == []
  {
    if name.None? || name.value == [] || |Strip(name.value)| == 0 then
      Report(false, [NameEmpty])
    else
      var errs := NameErrors(Strip(name.value));
      Report(errs == [], errs)
  }

  /** `PersonValidator.validate_person_id` on an integer. */
  predicate ValidatePersonId(id: int) {
    id > 0
  }

  // --------------------------------------------------- recognition inputs

  /** `FaceRecognitionValidator.validate_threshold`. */
  predicate ValidateThreshold(threshold: real) {
    0.0 <= threshold <= 1.0
  }

  /** `FaceRecognitionValidator.validate_confidence`. */
  predicate ValidateConfidence(confidence: real) {
    0.0 <= confidence <= 1.0
  }

  const EmbeddingDimension: nat := 512

  /** One entry of a submitted vector: a finite number, NaN, an infinity, or
      a value that is not a number at all. */
  datatype Entry = Number(value: real) | NotANumber | Infinity | NonNumeric

  datatype EmbeddingError = EmbeddingEmpty | WrongDimension(got: nat) | BadEntry(index: nat)

  /** The scan of the entries from `from` on, stopping at the first entry
      that is not a finite number. */
  function FirstBadEntry(e: seq<Entry>, from: nat): (r: Option<nat>)
    requires from <= |e|
    ensures r.Some? ==> from <= r.value < |e| && !e[r.value].Number?
    ensures r.Some? ==> forall j :: from <= j < r.value ==> e[j].Number?
    ensures r.None? ==> forall j :: from <= j < |e| ==> e[j].Number?
    decreases |e| - from
  {
    if from == |e| then None
    else if !e[from].Number? then Some(from)
    else FirstBadEntry(e, from + 1)
  }

  /** `FaceRecognitionValidator.validate_embedding_vector`: an empty vector
      gives one error; otherwise a wrong length and the first bad entry are
      reported. */
  function ValidateEmbeddingVector(e: seq<Entry>): (r: Report<EmbeddingError>)
    ensures |e| == 0 ==> r == Report(false, [EmbeddingEmpty])
    ensures r.isValid <==> |e| == EmbeddingDimension && forall i :: 0 <= i < |e| ==> e[i].Number?
    ensures r.isValid <==> r.errors == []
    ensures forall n :: WrongDimension(n) in r.errors <==> |e| > 0 && |e| != EmbeddingDimension && n == |e|
    ensures forall k: nat :: BadEntry(k) in r.errors ==>
      k < |e| && !e[k].Number? && forall j :: 0 <= j < k ==> e[j].Number?
    ensures (exists i :: 0 <= i < |e| && !e[i].Number?) ==> exists k :: BadEntry(k) in r.errors
  {
    if |e| == 0 then
      Report(false, [EmbeddingEmpty])
    else
      var dimension := if |e| != EmbeddingDimension then [WrongDimension(|e|)] else [];
      var bad := FirstBadEntry(e, 0);
      var entries := if bad.Some? then [BadEntry(bad.value)] else [];
      assert bad.Some? ==> BadEntry(bad.value) in dimension + entries;
      Report(dimension == [] && bad.None?, dimension + entries)
  }

  /** Only the first bad entry is reported. */
  lemma OnlyFirstBadEntryReported(e: seq<Entry>, a: nat, b: nat)
    requires BadEntry(a) in ValidateEmbeddingVector(e).errors
    requires BadEntry(b) in ValidateEmbeddingVector(e).errors
    ensures a == b
  {
  }

  // -------------------------------------------------- combined requests

  /** Errors of `validate_upload_request`. `FileTooLarge` is the message the
      source gives for every size outside (0, max], an empty file included. */
  datatype UploadError =
    | FilenameMissing
    | FilenameInvalid
    | ExtensionNotAllowed
    | MimeTypeNotAllowed
    | SizeMissing
    | FileTooLarge
    | PersonIdInvalid

  /** The filename checks, run only for a present, non-empty name, in the
      order the source runs them: the name itself, its extension, and the
      MIME type guessed from it. */
  function FilenameErrors(named: bool, allowed: bool, typed: bool): (errs: seq<UploadError>)
    ensures forall e :: e in errs ==> e.FilenameInvalid? || e.ExtensionNotAllowed? || e.MimeTypeNotAllowed?
    ensures FilenameInvalid in errs <==> !named
    ensures ExtensionNotAllowed in errs <==> !allowed
    ensures MimeTypeNotAllowed in errs <==> !typed
    ensures errs == [] <==> named && allowed && typed
  {
    (if !named then [FilenameInvalid] else [])
    + (if !allowed then [ExtensionNotAllowed] else [])
    + (if !typed then [MimeTypeNotAllowed] else [])
  }

  /** The size checks: missing, or outside (0, max]. */
  function SizeErrors(size: Option<int>, cfg: Config): (errs: seq<UploadError>)
    ensures SizeMissing in errs <==> size.None?
    ensures FileTooLarge in errs <==> size.Some? && !ValidateFileSize(size.value, cfg)
    ensures FilenameMissing !in errs && PersonIdInvalid !in errs
    ensures errs == [] <==> size.Some? && ValidateFileSize(size.value, cfg)
  {
    if size.None? then [SizeMissing]
    else if !ValidateFileSize(size.value, cfg) then [FileTooLarge]
    else []
  }

  /** A present, non-empty file name that passes the name, extension and
      MIME checks. */
  predicate AcceptableFilename(filename: Option<string>, mimeAccepted: string -> bool, cfg: Config) {
    && filename.Some? && filename.value != []
    && ValidateFilename(filename.value)
    && ValidateFileExtension(filename.value, cfg)
    && mimeAccepted(filename.value)
  }

  /** A request whose name, size and optional person id pass every check. */
  predicate AcceptableUpload(filename: Option<string>, size: Option<int>, personId: Option<int>,
                             mimeAccepted: string -> bool, cfg: Config) {
    && AcceptableFilename(filename, mimeAccepted, cfg)
    && size.Some? && ValidateFileSize(size.value, cfg)
    && (personId.None? || ValidatePersonId(personId.value))
  }

  /** The name errors: missing, or the filename checks of a present one. */
  function UploadNameErrors(filename: Option<string>, mimeAccepted: string -> bool, cfg: Config): (errs: seq<UploadError>)
    ensures FilenameMissing in errs <==> filename.None? || filename.value == []
    ensures forall e :: e in errs ==> !e.SizeMissing? && !e.FileTooLarge? && !e.PersonIdInvalid?
    ensures errs == [] <==> AcceptableFilename(filename, mimeAccepted, cfg)
  {
    if filename.None? || filename.value == [] then [FilenameMissing]
    else FilenameErrors(ValidateFilename(filename.value), ValidateFileExtension(filename.value, cfg),
                        mimeAccepted(filename.value))
  }

  /** `validate_upload_request`. The MIME guess of the file name is the
      parameter `mimeAccepted`. */
  function ValidateUploadRequest(filename: Option<string>, size: Option<int>, personId: Option<int>,
                                 mimeAccepted: string -> bool, cfg: Config): (r: Report<UploadError>)
    ensures r.isValid <==> r.errors == []
    ensures r.isValid <==> AcceptableUpload(filename, size, personId, mimeAccepted, cfg)
    ensures FilenameMissing in r.errors <==> filename.None? || filename.value == []
    ensures SizeMissing in r.errors <==> size.None?
    ensures FileTooLarge in r.errors <==> size.Some? && !ValidateFileSize(size.value, cfg)
    ensures PersonIdInvalid in r.errors <==> personId.Some? && personId.value <= 0
  {
    var nameErrors := UploadNameErrors(filename, mimeAccepted, cfg);
    var sizeErrors := SizeErrors(size, cfg);
    var idErrors := if personId.Some? && !ValidatePersonId(personId.value) then [PersonIdInvalid] else [];
    var errors := nameErrors + sizeErrors + idErrors;
    assert errors == [] <==> nameErrors == [] && sizeErrors == [] && idErrors == [];
    Report(errors == [], errors)
  }

  /** Each check of a present, non-empty name reports its own error, and
      only when it fails. */
  lemma UploadRequestNameErrors(filename: Option<string>, size: Option<int>, personId: Option<int>,
                                mimeAccepted: string -> bool, cfg: Config)
    ensures var errs := ValidateUploadRequest(filename, size, personId, mimeAccepted, cfg).errors;
      && (FilenameInvalid in errs <==>
            filename.Some? && filename.value != [] && !ValidateFilename(filename.value))
      && (ExtensionNotAllowed in errs <==>
            filename.Some? && filename.value != [] && !ValidateFileExtension(filename.value, cfg))
      && (MimeTypeNotAllowed in errs <==>
            filename.Some? && filename.value != [] && !mimeAccepted(filename.value))
  {
    var nameErrors := UploadNameErrors(filename, mimeAccepted, cfg);
    var sizeErrors := SizeErrors(size, cfg);
    var errs := ValidateUploadRequest(filename, size, personId, mimeAccepted, cfg).errors;
    UploadNameErrorsExact(filename, mimeAccepted, cfg);
    assert forall e :: e in errs && !e.PersonIdInvalid? ==> e in nameErrors || e in sizeErrors;
  }

  /** The name checks of a present, non-empty name each report their own
      error exactly when they fail. */
  lemma UploadNameErrorsExact(filename: Option<string>, mimeAccepted: string -> bool, cfg: Config)
    ensures var errs := UploadNameErrors(filename, mimeAccepted, cfg);
      && (FilenameInvalid in errs <==>
            filename.Some? && filename.value != [] && !ValidateFilename(filename.value))
      && (ExtensionNotAllowed in errs <==>
            filename.Some? && filename.value != [] && !ValidateFileExtension(filename.value, cfg))
      && (MimeTypeNotAllowed in errs <==>
            filename.Some? && filename.value != [] && !mimeAccepted(filename.value))
  {
  }

  /** A valid request names a file. */
  lemma ValidUploadHasName(filename: Option<string>, size: Option<int>, personId: Option<int>,
                           mimeAccepted: string -> bool, cfg: Config)
    requires ValidateUploadRequest(filename, size, personId, mimeAccepted, cfg).isValid
    ensures filename.Some? && filename.value != [] && size.Some?
  {
  }

  datatype ImageRequestError = ImagePathMissing | ImageNotFound | NotAFile | ImageFormatNotAllowed

  /** `validate_identification_request`. Whether the path exists and is a
      regular file are the parameters `present` and `isFile`. */
  function ValidateIdentificationRequest(imagePath: string, present: bool, isFile: bool, cfg: Config)
    : (r: Report<ImageRequestError>)
    ensures r.isValid <==> r.errors == []
    ensures r.isValid <==>
      imagePath != [] && present && isFile && ValidateFileExtension(Name(imagePath), cfg)
    ensures |r.errors| <= 1
  {
    if imagePath == [] then Report(false, [ImagePathMissing])
    else if !present then Report(false, [ImageNotFound])
    else if !isFile then Report(false, [NotAFile])
    else if !ValidateFileExtension(Name(imagePath), cfg) then Report(false, [ImageFormatNotAllowed])
    else Report(true, [])
  }
}
