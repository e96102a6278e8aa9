/** Application settings (app/config/settings.py): the configured similarity
    threshold, the upload size limit, the allowed file extensions and the
    upload root. Reading the environment and the `.env` file is outside the
    model; a configuration is built from given values by `MakeConfig`. */
module Settings {
  import opened Text

  /** The `allowed_extensions` field: the raw comma-separated text, or the
      list the field validator already turned it into. */
  datatype Extensions = Raw(text: string) | Listed(items: seq<string>)

  datatype Config = Config(
    threshold: real,
    maxUploadSize: int,
    allowedExtensions: Extensions,
    uploadPath: string)

  const DefaultThreshold: real := 0.6
  const DefaultMaxUploadSize: int := 10485760
  const DefaultAllowedExtensions: string := "jpg,jpeg,png"
  const DefaultUploadPath: string := "./uploads"

  /** One piece of the comma-separated list: `ext.strip().lower()`. */
  function NormalizeExtension(piece: string): string {
    Lower(Strip(piece))
  }

  function NormalizeAll(pieces: seq<string>): seq<string> {
    seq(|pieces|, i requires 0 <= i < |pieces| => NormalizeExtension(pieces[i]))
  }

  /** A normalised extension: no comma, no surrounding whitespace, no
      upper-case ASCII letter. */
  predicate Normalized(x: string) {
    ',' !in x && Strip(x) == x && Lower(x) == x
  }

  /** `get_allowed_extensions_list`: a raw value is split on every comma and
      each piece normalised; a list is returned as it is. */
  function AllowedExtensionsList(v: Extensions): seq<string> {
    match v
    case Raw(t) => NormalizeAll(Split(t, ','))
    case Listed(xs) => xs
  }

  /** A raw value gives one normalised extension per comma-separated
      piece. */
  lemma RawExtensionsShape(t: string)
    ensures var r := AllowedExtensionsList(Raw(t));
      |r| == multiset(t)[','] + 1 && forall i :: 0 <= i < |r| ==> Normalized(r[i])
  {
    var pieces := Split(t, ',');
    SplitCount(t, ',');
    forall i | 0 <= i < |pieces|
      ensures Normalized(NormalizeExtension(pieces[i]))
    {
      NormalizeKeepsNoComma(pieces[i]);
    }
  }

  /** `parse_allowed_extensions`, the field validator run when the settings
      are built: the same normalisation, kept as a list. */
  function ParseAllowedExtensions(v: Extensions): (r: Extensions)
    ensures r.Listed?
    ensures v.Listed? ==> r == v
    ensures AllowedExtensionsList(r) == AllowedExtensionsList(v)
  {
    Listed(AllowedExtensionsList(v))
  }

  /** Building the settings object runs the field validator. */
  function MakeConfig(threshold: real, maxUploadSize: int, extensions: Extensions, uploadPath: string): (c: Config)
    ensures c.allowedExtensions.Listed?
    ensures AllowedExtensionsList(c.allowedExtensions) == AllowedExtensionsList(extensions)
  {
    Config(threshold, maxUploadSize, ParseAllowedExtensions(extensions), uploadPath)
  }

  function DefaultConfig(): Config {
    MakeConfig(DefaultThreshold, DefaultMaxUploadSize, Raw(DefaultAllowedExtensions), DefaultUploadPath)
  }

  lemma NormalizeKeepsNoComma(p: string)
    requires ',' !in p
    ensures Normalized(NormalizeExtension(p))
  {
    var t := Strip(p);
    StripKeepsAbsent(p, ',');
    LowerKeepsAbsent(t, ',');
    StripLowerOfStripped(t);
    LowerIdempotent(t);
  }

  /** A piece with no upper-case ASCII letter, no whitespace and no comma
      is its own normalisation. */
  lemma NormalizePlain(x: string)
    requires Plain(x)
    ensures NormalizeExtension(x) == x
  {
    StripTrimmed(x);
    assert Strip(x) == x;
    assert Lower(x) == x;
  }

  predicate Plain(x: string) {
    forall i :: 0 <= i < |x| ==> !('A' <= x[i] <= 'Z') && !IsSpace(x[i])
  }

  lemma NormalizeAllPlain(xs: seq<string>)
    requires forall i :: 0 <= i < |xs| ==> Plain(xs[i])
    ensures NormalizeAll(xs) == xs
  {
    forall i | 0 <= i < |xs|
      ensures NormalizeExtension(xs[i]) == xs[i]
    {
      NormalizePlain(xs[i]);
    }
  }

  /** A three-item setting whose items are already plain reads back as
      those items. */
  lemma ThreeItems(a: string, b: string, c: string)
    requires ',' !in a && ',' !in b && ',' !in c
    requires Plain(a) && Plain(b) && Plain(c)
    ensures AllowedExtensionsList(Raw(a + [','] + b + [','] + c)) == [a, b, c]
  {
    var t := a + [','] + b + [','] + c;
    assert t == a + [','] + (b + [','] + c);
    SplitAfterPiece(a, b + [','] + c, ',');
    SplitAfterPiece(b, c, ',');
    SplitWithoutSeparator(c, ',');
    assert Split(t, ',') == [a, b, c];
    NormalizeAllPlain([a, b, c]);
  }

  /** The defaults: threshold 0.6, 10 MiB uploads, jpg/jpeg/png. */
  lemma DefaultSettings()
    ensures DefaultConfig().threshold == 0.6
    ensures DefaultConfig().maxUploadSize == 10485760
    ensures AllowedExtensionsList(DefaultConfig().allowedExtensions) == ["jpg", "jpeg", "png"]
  {
    DefaultExtensionList();
  }

  lemma DefaultExtensionList()
    ensures AllowedExtensionsList(Raw(DefaultAllowedExtensions)) == ["jpg", "jpeg", "png"]
  {
    assert DefaultAllowedExtensions == "jpg" + [','] + "jpeg" + [','] + "png";
    ThreeItems("jpg", "jpeg", "png");
  }

  /** Normalising the comma-join of a normalised list gives the same list. */
  lemma {:induction false} ExtensionsRoundTrip(s: string)
    ensures var xs := AllowedExtensionsList(Raw(s));
      AllowedExtensionsList(Raw(Join(xs, ','))) == xs
  {
    var xs := AllowedExtensionsList(Raw(s));
    RawExtensionsShape(s);
    SplitJoin(xs, ',');
    assert forall i :: 0 <= i < |xs| ==> NormalizeExtension(xs[i]) == xs[i];
  }

  /** A trailing comma leaves an empty piece, which is kept. */
  lemma TrailingCommaKeepsEmptyPiece(a: string)
    requires ',' !in a && Plain(a)
    ensures AllowedExtensionsList(Raw(a + [','])) == [a, ""]
  {
    var t := a + [','];
    assert t == a + [','] + [];
    SplitAfterPiece(a, [], ',');
    SplitWithoutSeparator([], ',');
    assert Split(t, ',') == [a, []];
    NormalizeAllPlain([a, []]);
  }
}
