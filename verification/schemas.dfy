/** The Pydantic schemas of app/models/person.py: the field bounds of the
    person and photo schemas, and `IdentificationResult` with its
    `clamp_values` validator.

    `clamp_values` is an `after` field validator, so it runs only on values
    that already passed the declared `Field` bounds: a confidence outside
    [0, 1] or a negative similarity makes construction fail before the clamp
    is reached, and only a similarity above 1 is actually clamped. */
module Schemas {
  import opened Common

  /** `PersonBase.name` / `PersonCreate.name`: 1 to 255 characters. */
  predicate NameFits(name: string) {
    1 <= |name| <= 255
  }

  /** `PersonUpdate.name`: optional, and 1 to 255 characters when given. */
  predicate UpdateNameFits(name: Option<string>) {
    name.None? || NameFits(name.value)
  }

  /** `PhotoBase`: name, path and confidence bounds. */
  predicate PhotoFieldsFit(filename: string, filePath: string, confidence: real) {
    && 1 <= |filename| <= 255
    && 1 <= |filePath| <= 500
    && 0.0 <= confidence <= 1.0
  }

  /** `IdentificationResult.clamp_values`: values above 1 become 1, values
      below 0 become 0. */
  function Clamp(v: real): (r: real)
    ensures 0.0 <= r <= 1.0
    ensures 0.0 <= v <= 1.0 ==> r == v
    ensures v > 1.0 ==> r == 1.0
    ensures v < 0.0 ==> r == 0.0
  {
    if v > 1.0 then 1.0
    else if v < 0.0 then 0.0
    else v
  }

  lemma ClampIdempotent(v: real)
    ensures Clamp(Clamp(v)) == Clamp(v)
  {
  }

  lemma ClampMonotone(a: real, b: real)
    requires a <= b
    ensures Clamp(a) <= Clamp(b)
  {
  }

  datatype IdentificationResult = IdentificationResult(
    personId: Option<int>,
    personName: Option<string>,
    confidence: real,
    similarity: real,
    isMatch: bool,
    photoId: Option<int>)

  /** The all-defaults result: nobody, zero confidence and similarity. */
  const DefaultResult: IdentificationResult :=
    IdentificationResult(None, None, 0.0, 0.0, false, None)

  /** Building an `IdentificationResult`: `None` when a declared bound
      fails (construction raises), otherwise the clamped record. */
  function MakeResult(personId: Option<int>, personName: Option<string>, confidence: real,
                      similarity: real, isMatch: bool, photoId: Option<int>)
    : (r: Option<IdentificationResult>)
    ensures r.None? <==> confidence < 0.0 || confidence > 1.0 || similarity < 0.0
    ensures r.Some? ==> r.value.confidence == confidence
    ensures r.Some? ==> 0.0 <= r.value.similarity <= 1.0
    ensures r.Some? ==> r.value.similarity == (if similarity > 1.0 then 1.0 else similarity)
    ensures r.Some? ==> r.value.personId == personId && r.value.personName == personName
    ensures r.Some? ==> r.value.isMatch == isMatch && r.value.photoId == photoId
  {
    if confidence < 0.0 || confidence > 1.0 || similarity < 0.0 then None
    else Some(IdentificationResult(personId, personName, Clamp(confidence), Clamp(similarity), isMatch, photoId))
  }

  /** The defaults themselves pass the bounds unchanged. */
  lemma DefaultsAreValid()
    ensures MakeResult(None, None, 0.0, 0.0, false, None) == Some(DefaultResult)
    ensures DefaultResult.personId.None? && DefaultResult.personName.None? && DefaultResult.photoId.None?
    ensures !DefaultResult.isMatch
  {
  }

  /** Similarity has no declared upper bound, so an oversized value is
      accepted and clamped to 1. */
  lemma LargeSimilarityClamped(confidence: real, similarity: real)
    requires 0.0 <= confidence <= 1.0 && similarity > 1.0
    ensures MakeResult(None, None, confidence, similarity, true, None).Some?
    ensures MakeResult(None, None, confidence, similarity, true, None).value.similarity == 1.0
  {
  }

  /** Rebuilding a result from its own fields gives it back: every built
      result is a fixed point. */
  lemma MakeResultStable(personId: Option<int>, personName: Option<string>, confidence: real,
                         similarity: real, isMatch: bool, photoId: Option<int>)
    requires MakeResult(personId, personName, confidence, similarity, isMatch, photoId).Some?
    ensures var x := MakeResult(personId, personName, confidence, similarity, isMatch, photoId).value;
      MakeResult(x.personId, x.personName, x.confidence, x.similarity, x.isMatch, x.photoId) == Some(x)
  {
  }
}
