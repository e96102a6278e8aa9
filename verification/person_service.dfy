/** The person service (app/services/person_service.py) over the immutable
    store: people, their photos and embeddings, identification and
    per-person statistics.

    The clock reading `now`, the face extractor's outcome and the
    comparison of the target with a stored vector are parameters. A
    failing database session is the parameter `storeFails` where the code
    turns it into a result rather than raising. */
module PersonService {
  import opened Common
  import opened Text
  import opened Store
  import opened Files
  import opened Matcher
  import opened Schemas
  import opened Validators

  /** The length every stored embedding must have. */
  const EmbeddingSize: nat := 512

  // ----------------------------------------------------------- people

  /** `create_person`: a new row with the next key. */
  function CreatePerson(db: Db, name: string, now: int): (out: (Person, Db))
    ensures out.0.name == name && out.0.id == NextPersonId(db) && out.0.createdAt == now
    ensures out.1.persons == db.persons + [out.0] && out.1.photos == db.photos
  {
    InsertPerson(db, name, now)
  }

  /** Persons 1 and 2; person 2 is deleted and a new person created: the
      new person gets key 2 again. */
  lemma DeletedNewestPersonKeyReused(now: int)
    ensures var db := Db([Person(1, "Ann", 1), Person(2, "Bo", 2)], []);
      CreatePerson(DeletePersonCascade(db, 2), "Cy", now).0.id == 2
  {
    var db := Db([Person(1, "Ann", 1), Person(2, "Bo", 2)], []);
    DeleteNewestPersonFreesKey(db);
    var r := DeletePersonCascade(db, 2);
    assert Person(1, "Ann", 1) in r.persons;
  }

  /** `get_person`. */
  function GetPerson(db: Db, id: int): (r: Option<Person>)
    ensures r.None? <==> !HasPerson(db, id)
    ensures r.Some? ==> r.value.id == id && r.value in db.persons
  {
    FindFirst(db.persons, PersonKey, id)
  }

  /** A created person can be read back, and the new key was not in use. */
  lemma CreateThenGet(db: Db, name: string, now: int)
    requires WellFormed(db)
    ensures !HasPerson(db, NextPersonId(db))
    ensures var out := CreatePerson(db, name, now);
      GetPerson(out.1, out.0.id) == Some(out.0)
  {
    var out := CreatePerson(db, name, now);
    assert out.1.persons[|db.persons|] == out.0;
    FindPersonUnique(out.1.persons, out.0.id, |db.persons|);
  }

  /** With increasing keys, looking up a key finds the one row that has it. */
  lemma FindPersonUnique(ps: seq<Person>, id: int, k: int)
    requires PersonsOrdered(ps) || forall i :: 0 <= i < |ps| && i != k ==> ps[i].id != id
    requires 0 <= k < |ps| && ps[k].id == id
    ensures FindFirst(ps, PersonKey, id) == Some(ps[k])
  {
    forall i | 0 <= i < |ps| && i != k
      ensures PersonKey(ps[i]) != id
    {
      if PersonsOrdered(ps) {
        if i < k { assert ps[i].id < ps[k].id; } else { assert ps[k].id < ps[i].id; }
      }
    }
    FindFirstUnique(ps, PersonKey, id, k);
  }

  datatype PersonWithPhotos = PersonWithPhotos(person: Person, photos: seq<Photo>)

  /** The active photos of a person in table order. */
  function ActiveRowsOf(db: Db, id: int): (ps: seq<Photo>)
    ensures forall x :: x in ps <==> x in db.photos && x.personId == id && x.isActive
  {
    Filter(db.photos, (p: Photo) => p.personId == id && p.isActive)
  }

  /** The person's active photos, newest first. */
  function ActivePhotosOf(db: Db, id: int): (ps: seq<Photo>)
    ensures forall x :: x in ps <==> x in db.photos && x.personId == id && x.isActive
  {
    NewestFirstSortedLemma(ActiveRowsOf(db, id), PhotoStamp);
    NewestFirst(ActiveRowsOf(db, id), PhotoStamp)
  }

  /** A stored row that `Photo.from_orm` accepts: the `PhotoBase` bounds
      on name, path and confidence hold, and the confidence is not NULL,
      which the `float` field rejects. */
  predicate PhotoRowFits(p: Photo) {
    p.confidence.Some? && PhotoFieldsFit(p.filename, p.filePath, p.confidence.value)
  }

  /** `get_person_with_photos`: the person with only the active photos.
      Each photo goes through `Photo.from_orm`, outside any `try`, so a
      row that fails the schema makes the call raise. */
  function GetPersonWithPhotos(db: Db, id: int): (r: Result<Option<PersonWithPhotos>>)
    ensures r == Ok(None) <==> !HasPerson(db, id)
    ensures r.Err? <==> HasPerson(db, id) && exists x :: x in ActivePhotosOf(db, id) && !PhotoRowFits(x)
    ensures r.Err? ==> r.error == Unexpected
    ensures r.Ok? && r.value.Some? ==> r.value.value.person == GetPerson(db, id).value
    ensures r.Ok? && r.value.Some? ==>
      forall x :: x in r.value.value.photos <==> x in db.photos && x.personId == id && x.isActive
    ensures r.Ok? && r.value.Some? ==> forall x :: x in r.value.value.photos ==> PhotoRowFits(x)
  {
    var person := GetPerson(db, id);
    if person.None? then Ok(None)
    else
      var photos := ActivePhotosOf(db, id);
      if exists x :: x in photos && !PhotoRowFits(x) then Err(Unexpected)
      else Ok(Some(PersonWithPhotos(person.value, photos)))
  }

  /** A person's active photos are listed newest first, photos of the same
      second by ascending key. */
  lemma PersonPhotosNewestFirst(db: Db, id: int)
    requires WellFormed(db)
    ensures var ps := ActivePhotosOf(db, id);
      forall i, j :: 0 <= i < j < |ps| ==>
        ps[i].createdAt > ps[j].createdAt || (ps[i].createdAt == ps[j].createdAt && ps[i].id < ps[j].id)
  {
    var rows := ActiveRowsOf(db, id);
    FilterPhotosOrdered(db.photos, (p: Photo) => p.personId == id && p.isActive);
    assert DistinctKeys(rows, PhotoStamp);
    NewestFirstStrict(rows, PhotoStamp);
    var ps := ActivePhotosOf(db, id);
    assert ps == NewestFirst(rows, PhotoStamp);
    forall i, j | 0 <= i < j < |ps|
      ensures Precedes(PhotoStamp(ps[i]), PhotoStamp(ps[j]))
    {
      var key: Photo -> Stamp := PhotoStamp;
      assert Precedes(key(NewestFirst(rows, PhotoStamp)[i]), key(NewestFirst(rows, PhotoStamp)[j]));
    }
  }


  /** Every person in the order of `ORDER BY created_at DESC`. */
  function PersonsNewestFirst(db: Db): (ps: seq<Person>)
    ensures |ps| == |db.persons|
    ensures forall x :: x in ps <==> x in db.persons
  {
    NewestFirstSortedLemma(db.persons, PersonStamp);
    NewestFirst(db.persons, PersonStamp)
  }

  /** The listing is a permutation of the table, newest first, people of
      the same second by ascending key. */
  lemma PersonsListedNewestFirst(db: Db)
    requires PersonsOrdered(db.persons)
    ensures multiset(PersonsNewestFirst(db)) == multiset(db.persons)
    ensures var ps := PersonsNewestFirst(db);
      forall i, j :: 0 <= i < j < |ps| ==>
        ps[i].createdAt > ps[j].createdAt || (ps[i].createdAt == ps[j].createdAt && ps[i].id < ps[j].id)
  {
    assert DistinctKeys(db.persons, PersonStamp);
    NewestFirstStrict(db.persons, PersonStamp);
    var ps := PersonsNewestFirst(db);
    assert ps == NewestFirst(db.persons, PersonStamp);
    forall i, j | 0 <= i < j < |ps|
      ensures Precedes(PersonStamp(ps[i]), PersonStamp(ps[j]))
    {
      var key: Person -> Stamp := PersonStamp;
      assert Precedes(key(NewestFirst(db.persons, PersonStamp)[i]), key(NewestFirst(db.persons, PersonStamp)[j]));
    }
  }

  /** `LIMIT limit OFFSET offset` over a listing. */
  function Page<T>(s: seq<T>, limit: nat, offset: nat): (r: seq<T>)
    ensures |r| == (if offset >= |s| then 0 else Min(limit, |s| - offset))
    ensures forall i :: 0 <= i < |r| ==> r[i] == s[offset + i]
  {
    if offset >= |s| then [] else s[offset..offset + Min(limit, |s| - offset)]
  }

  /** `get_all_persons`: `ORDER BY created_at DESC LIMIT limit OFFSET offset`. */
  function GetAllPersons(db: Db, limit: nat, offset: nat): (r: seq<Person>)
    ensures |r| == (if offset >= |db.persons| then 0 else Min(limit, |db.persons| - offset))
    ensures forall i :: 0 <= i < |r| ==> r[i] == PersonsNewestFirst(db)[offset + i]
  {
    Page(PersonsNewestFirst(db), limit, offset)
  }

  /** Consecutive pages do not overlap and leave no gap. */
  lemma PagesConcatenate(db: Db, limit: nat, offset: nat)
    requires offset + limit <= |db.persons|
    ensures GetAllPersons(db, limit, offset) + GetAllPersons(db, limit, offset + limit)
      == GetAllPersons(db, 2 * limit, offset)
  {
    PageSlices(PersonsNewestFirst(db), limit, offset);
  }

  lemma PageSlices<T>(s: seq<T>, limit: nat, offset: nat)
    requires offset + limit <= |s|
    ensures Page(s, limit, offset) + Page(s, limit, offset + limit) == Page(s, 2 * limit, offset)
  {
    var a := Page(s, limit, offset);
    var b := Page(s, limit, offset + limit);
    var c := Page(s, 2 * limit, offset);
    assert |a + b| == |c|;
    forall i | 0 <= i < |c|
      ensures (a + b)[i] == c[i]
    {
      if i >= |a| {
        assert (a + b)[i] == b[i - limit];
      }
    }
  }

  /** `update_person`: the name changes only when one is given; an unknown
      id changes nothing. */
  function UpdatePerson(db: Db, id: int, name: Option<string>): (out: (Option<Person>, Db))
    ensures !HasPerson(db, id) ==> out == (None, db)
    ensures HasPerson(db, id) ==> out.0.Some? && out.0.value.id == id
    ensures HasPerson(db, id) ==> out.0.value.name == (if name.Some? then name.value else GetPerson(db, id).value.name)
    ensures out.1.photos == db.photos && |out.1.persons| == |db.persons|
    ensures forall i :: 0 <= i < |db.persons| && db.persons[i].id != id ==> out.1.persons[i] == db.persons[i]
    ensures forall i :: 0 <= i < |db.persons| ==>
      out.1.persons[i].id == db.persons[i].id && out.1.persons[i].createdAt == db.persons[i].createdAt
  {
    var found := GetPerson(db, id);
    if found.None? then (None, db)
    else
      var newName := if name.Some? then name.value else found.value.name;
      var ps := seq(|db.persons|, i requires 0 <= i < |db.persons| =>
        if db.persons[i].id == id then db.persons[i].(name := newName) else db.persons[i]);
      (Some(found.value.(name := newName)), db.(persons := ps))
  }

  /** Renaming keeps the store well formed. */
  lemma UpdateKeepsWellFormed(db: Db, id: int, name: Option<string>)
    requires WellFormed(db)
    ensures WellFormed(UpdatePerson(db, id, name).1)
  {
    SameKeysWellFormed(db, UpdatePerson(db, id, name).1);
  }

  /** A renamed person is read back with the new name. */
  lemma UpdateThenGet(db: Db, id: int, name: string)
    requires WellFormed(db) && HasPerson(db, id)
    ensures var out := UpdatePerson(db, id, Some(name));
      out.0.Some? && out.0.value.name == name && GetPerson(out.1, id) == out.0
  {
    var out := UpdatePerson(db, id, Some(name));
    var k :| 0 <= k < |db.persons| && db.persons[k].id == id;
    FindPersonUnique(db.persons, id, k);
    assert out.1.persons[k] == out.0.value;
    assert forall i :: 0 <= i < |out.1.persons| && i != k ==> out.1.persons[i].id != id by {
      forall i | 0 <= i < |out.1.persons| && i != k
        ensures out.1.persons[i].id != id
      {
        assert out.1.persons[i].id == db.persons[i].id;
        if i < k { assert db.persons[i].id < db.persons[k].id; }
        else { assert db.persons[k].id < db.persons[i].id; }
      }
    }
    FindPersonUnique(out.1.persons, id, k);
  }

  // ------------------------------------------------------ column widths

  /** A name that passed `PersonCreate` fits the `name` column. */
  lemma CreateKeepsColumnsFit(db: Db, name: string, now: int)
    requires ColumnsFit(db) && NameFits(name)
    ensures ColumnsFit(CreatePerson(db, name, now).1)
  {
    var db' := CreatePerson(db, name, now).1;
    assert forall i :: 0 <= i < |db.persons| ==> db'.persons[i] == db.persons[i];
  }

  /** A name that passed `PersonUpdate`, or none, keeps every name within
      the column. */
  lemma UpdateKeepsColumnsFit(db: Db, id: int, name: Option<string>)
    requires ColumnsFit(db) && UpdateNameFits(name)
    ensures ColumnsFit(UpdatePerson(db, id, name).1)
  {
    var db' := UpdatePerson(db, id, name).1;
    forall i | 0 <= i < |db'.persons|
      ensures |db'.persons[i].name| <= 255
    {
      if db.persons[i].id == id {
        assert HasPerson(db, id);
        var found := GetPerson(db, id).value;
        assert found in db.persons;
      }
    }
  }

  /** A photo row that `Photo.from_orm` accepts fits its columns; the
      columns alone do not stop a longer name or path, which is stored and
      then reported as `DatabaseError`. */
  lemma AddPhotoKeepsColumnsFit(db: Db, personId: int, filename: string, filePath: string,
                                embedding: seq<real>, confidence: real, now: int)
    requires ColumnsFit(db)
    ensures var out := AddPhotoToPerson(db, personId, filename, filePath, embedding, confidence, now);
      out.0.Ok? || |embedding| != EmbeddingSize ==> ColumnsFit(out.1)
  {
    var out := AddPhotoToPerson(db, personId, filename, filePath, embedding, confidence, now);
    assert forall i :: 0 <= i < |db.photos| ==> out.1.photos[i] == db.photos[i];
  }

  /** Deleting rows keeps the remaining ones within their columns. */
  lemma DeletesKeepColumnsFit(db: Db, id: int)
    requires ColumnsFit(db)
    ensures ColumnsFit(DeletePersonCascade(db, id))
    ensures ColumnsFit(DeletePhotoRow(db, id))
  {
    var a := DeletePersonCascade(db, id);
    var b := DeletePhotoRow(db, id);
    assert forall i :: 0 <= i < |a.persons| ==> a.persons[i] in db.persons;
    assert forall i :: 0 <= i < |a.photos| ==> a.photos[i] in db.photos;
    assert forall i :: 0 <= i < |b.photos| ==> b.photos[i] in db.photos;
  }

  // ------------------------------------------------------ deletion

  /** The loop over a person's photo files: each existing file is unlinked;
      the first one whose removal raises stops the loop. */
  function UnlinkAll(fs: FileSystem, paths: seq<string>): (out: (bool, FileSystem))
    ensures out.1.locked == fs.locked
    ensures out.0 <==> forall i :: 0 <= i < |paths| ==> !(paths[i] in fs.files && paths[i] in fs.locked)
    ensures out.0 ==> out.1.files == fs.files - (set p | p in paths)
    ensures out.1.files <= fs.files
    ensures forall f :: f in fs.files && f !in out.1.files ==> f in paths && f !in fs.locked
    decreases |paths|
  {
    if paths == [] then (true, fs)
    else
      var p := paths[0];
      assert forall i :: 1 <= i < |paths| ==> paths[i] == paths[1..][i - 1];
      if p in fs.files && p in fs.locked then (false, fs)
      else if p in fs.files then
        var rest := UnlinkAll(fs.(files := fs.files - {p}), paths[1..]);
        assert forall i :: 1 <= i < |paths| && paths[i] == p ==> paths[i] !in fs.files - {p};
        rest
      else
        UnlinkAll(fs, paths[1..])
  }

  /** `base_path / 'persons' / str(person_id)`. */
  function PersonDirectory(root: string, id: int): string {
    PathJoin(PathJoin(root, "persons"), IntToString(id))
  }

  predicate Under(dir: string, f: string) {
    |dir| + 1 <= |f| && f[..|dir| + 1] == dir + "/"
  }

  /** `shutil.rmtree(dir, ignore_errors=True)`: every file below `dir` that
      can be removed is removed, and nothing is raised. */
  function RemoveTree(fs: FileSystem, dir: string): (r: FileSystem)
    ensures r.locked == fs.locked
    ensures forall f :: f in r.files <==> f in fs.files && !(Under(dir, f) && f !in fs.locked)
  {
    fs.(files := set f | f in fs.files && !(Under(dir, f) && f !in fs.locked))
  }

  /** The stored paths of a person's photos, in table order, joined to the
      upload root. */
  function PhotoPaths(db: Db, root: string, id: int): (r: seq<string>)
    ensures |r| == |Filter(db.photos, (p: Photo) => p.personId == id)|
  {
    var ps := Filter(db.photos, (p: Photo) => p.personId == id);
    seq(|ps|, i requires 0 <= i < |ps| => PathJoin(root, ps[i].filePath))
  }

  /** `delete_person`. An unknown id gives false and changes nothing. A
      photo file whose removal raises aborts with `DatabaseError`, leaving
      the rows in place (files removed before it stay removed). Otherwise
      the person directory is cleared, the person and, by the cascade, the
      photos are deleted, and the result is true. */
  function DeletePerson(db: Db, fs: FileSystem, root: string, id: int): (out: (Result<bool>, Db, FileSystem))
    ensures !HasPerson(db, id) ==> out == (Ok(false), db, fs)
    ensures HasPerson(db, id) && !UnlinkAll(fs, PhotoPaths(db, root, id)).0 ==>
      out.0 == Err(DatabaseError) && out.1 == db
    ensures HasPerson(db, id) && UnlinkAll(fs, PhotoPaths(db, root, id)).0 ==>
      out.0 == Ok(true) && out.1 == DeletePersonCascade(db, id)
    ensures out.2.locked == fs.locked && out.2.files <= fs.files
    ensures out.0 == Ok(true) ==> forall f :: f in out.2.files <==>
      f in fs.files && f !in PhotoPaths(db, root, id) && !(Under(PersonDirectory(root, id), f) && f !in fs.locked)
    ensures out.0.Err? ==> forall f :: f in fs.files && f !in out.2.files ==> f in PhotoPaths(db, root, id)
  {
    if GetPerson(db, id).None? then (Ok(false), db, fs)
    else
      var paths := PhotoPaths(db, root, id);
      var unlinked := UnlinkAll(fs, paths);
      if !unlinked.0 then (Err(DatabaseError), db, unlinked.1)
      else
        var cleared := RemoveTree(unlinked.1, PersonDirectory(root, id));
        (Ok(true), DeletePersonCascade(db, id), cleared)
  }

  /** After a successful deletion the person and all of their photos are
      gone, and every other person and photo is still there. */
  lemma DeletePersonFrame(db: Db, fs: FileSystem, root: string, id: int)
    requires DeletePerson(db, fs, root, id).0 == Ok(true)
    ensures var db' := DeletePerson(db, fs, root, id).1;
      && !HasPerson(db', id)
      && (forall x :: x in db'.photos ==> x.personId != id)
      && (forall x :: x in db.persons && x.id != id ==> x in db'.persons)
      && (forall x :: x in db.photos && x.personId != id ==> x in db'.photos)
  {
    var db' := DeletePerson(db, fs, root, id).1;
    forall k | 0 <= k < |db'.persons|
      ensures db'.persons[k].id != id
    {
      assert db'.persons[k] in db'.persons;
    }
  }

  // ---------------------------------------------------------- photos

  /** `add_photo_to_person`: an empty embedding, or one that is not 512
      long, raises `FaceDetectionError` before the store is touched.
      Otherwise the row is committed and then read back through
      `Photo.from_orm`; when the row fails the schema the error becomes
      `DatabaseError`, and the rollback, coming after the commit, leaves
      the row in place. */
  function AddPhotoToPerson(db: Db, personId: int, filename: string, filePath: string,
                            embedding: seq<real>, confidence: real, now: int): (out: (Result<Photo>, Db))
    ensures |embedding| != EmbeddingSize ==> out == (Err(FaceDetectionError), db)
    ensures |embedding| == EmbeddingSize ==>
      out.1.photos == db.photos + [Photo(NextPhotoId(db), personId, filename, filePath,
                                         Some(Vector(embedding)), Some(confidence), true, now)]
      && out.1.persons == db.persons
    ensures out.0.Ok? <==> |embedding| == EmbeddingSize && PhotoFieldsFit(filename, filePath, confidence)
    ensures out.0.Ok? ==> out.0.value == out.1.photos[|db.photos|] && PhotoRowFits(out.0.value)
    ensures |embedding| == EmbeddingSize && !PhotoFieldsFit(filename, filePath, confidence) ==>
      out.0 == Err(DatabaseError)
  {
    if |embedding| == 0 || |embedding| != EmbeddingSize then (Err(FaceDetectionError), db)
    else
      var inserted := InsertPhoto(db, personId, filename, filePath, Some(Vector(embedding)), Some(confidence), now);
      if PhotoFieldsFit(filename, filePath, confidence) then (Ok(inserted.0), inserted.1)
      else (Err(DatabaseError), inserted.1)
  }

  /** `delete_photo`: the stored relative path of the removed row, or
      `None` for an unknown id. */
  function DeletePhoto(db: Db, id: int): (out: (Option<string>, Db))
    ensures FindFirst(db.photos, PhotoKey, id).None? ==> out == (None, db)
    ensures FindFirst(db.photos, PhotoKey, id).Some? ==> out.0 == Some(FindFirst(db.photos, PhotoKey, id).value.filePath)
    ensures out.1.persons == db.persons
    ensures forall x :: x in out.1.photos <==> x in db.photos && (out.0.Some? ==> x.id != id)
  {
    var photo := FindFirst(db.photos, PhotoKey, id);
    if photo.None? then (None, db)
    else (Some(photo.value.filePath), DeletePhotoRow(db, id))
  }

  // --------------------------------------------------- active embeddings

  /** A photo the identification loop compares against: active, with a
      stored vector of 512 entries, and joined to an existing person. */
  predicate Eligible(db: Db, p: Photo) {
    && p.isActive
    && p.embedding.Some? && p.embedding.value.Vector?
    && |p.embedding.value.values| == EmbeddingSize
    && HasPerson(db, p.personId)
  }

  /** One entry of `get_all_active_embeddings`. */
  datatype Row = Row(photoId: int, personId: int, personName: string, embedding: seq<real>, confidence: Option<real>)

  /** The eligible photos in table order. */
  function EligibleRows(db: Db): (ps: seq<Photo>)
    ensures forall x :: x in ps <==> x in db.photos && Eligible(db, x)
  {
    Filter(db.photos, (p: Photo) => Eligible(db, p))
  }

  /** The eligible photos, newest first. */
  function CandidatePhotos(db: Db): (ps: seq<Photo>)
    ensures forall x :: x in ps <==> x in db.photos && Eligible(db, x)
  {
    var kept := EligibleRows(db);
    NewestFirstSortedLemma(kept, PhotoStamp);
    var r := NewestFirst(kept, PhotoStamp);
    r
  }

  function RowOf(db: Db, p: Photo): Row
    requires Eligible(db, p)
  {
    Row(p.id, p.personId, FindFirst(db.persons, PersonKey, p.personId).value.name, p.embedding.value.values, p.confidence)
  }

  /** `get_all_active_embeddings`: rows without a vector, with a pickled
      `None`, with undecodable bytes or with a length other than 512 are
      skipped. */
  function ActiveEmbeddings(db: Db): (rows: seq<Row>)
    ensures |rows| == |CandidatePhotos(db)|
    ensures forall i :: 0 <= i < |rows| ==> |rows[i].embedding| == EmbeddingSize
    ensures forall i :: 0 <= i < |rows| ==> rows[i] == RowOf(db, CandidatePhotos(db)[i])
    ensures forall i :: 0 <= i < |rows| ==> CandidatePhotos(db)[i] in db.photos
  {
    var ps := CandidatePhotos(db);
    var rows := seq(|ps|, i requires 0 <= i < |ps| => RowOf(db, ps[i]));
    assert forall i :: 0 <= i < |ps| ==> ps[i] in db.photos;
    rows
  }

  /** With distinct photo keys, the rows are exactly the eligible photos:
      a photo has a row precisely when it is eligible, and the row carries
      its person's name and its vector. */
  lemma ActiveEmbeddingsExactly(db: Db, p: Photo)
    requires PhotosOrdered(db.photos) && p in db.photos
    ensures Eligible(db, p) <==> exists i :: 0 <= i < |ActiveEmbeddings(db)| && ActiveEmbeddings(db)[i].photoId == p.id
    ensures Eligible(db, p) ==> exists i :: 0 <= i < |ActiveEmbeddings(db)| && ActiveEmbeddings(db)[i] == RowOf(db, p)
  {
    var rows := ActiveEmbeddings(db);
    var ps := CandidatePhotos(db);
    if Eligible(db, p) {
      var i :| 0 <= i < |ps| && ps[i] == p;
      assert rows[i] == RowOf(db, p);
    }
    if exists i :: 0 <= i < |rows| && rows[i].photoId == p.id {
      var i :| 0 <= i < |rows| && rows[i].photoId == p.id;
      assert ps[i] in db.photos;
      var a :| 0 <= a < |db.photos| && db.photos[a] == ps[i];
      var b :| 0 <= b < |db.photos| && db.photos[b] == p;
      assert db.photos[a].id == db.photos[b].id;
    }
  }

  /** The rows are the eligible photos, newest first, photos of the same
      second by ascending key. */
  lemma ActiveEmbeddingsNewestFirst(db: Db)
    requires WellFormed(db)
    ensures multiset(CandidatePhotos(db)) == multiset(EligibleRows(db))
    ensures var ps := CandidatePhotos(db);
      forall i, j :: 0 <= i < j < |ps| ==>
        ps[i].createdAt > ps[j].createdAt || (ps[i].createdAt == ps[j].createdAt && ps[i].id < ps[j].id)
    ensures forall i :: 0 <= i < |ActiveEmbeddings(db)| ==> ActiveEmbeddings(db)[i].photoId == CandidatePhotos(db)[i].id
  {
    FilterPhotosOrdered(db.photos, (p: Photo) => Eligible(db, p));
    assert DistinctKeys(EligibleRows(db), PhotoStamp);
    NewestFirstStrict(EligibleRows(db), PhotoStamp);
    var ps := CandidatePhotos(db);
    assert ps == NewestFirst(EligibleRows(db), PhotoStamp);
    forall i, j | 0 <= i < j < |ps|
      ensures Precedes(PhotoStamp(ps[i]), PhotoStamp(ps[j]))
    {
      var key: Photo -> Stamp := PhotoStamp;
      assert Precedes(key(NewestFirst(EligibleRows(db), PhotoStamp)[i]), key(NewestFirst(EligibleRows(db), PhotoStamp)[j]));
    }
  }

  /** A photo added to an existing person later than every stored photo
      is the first candidate the next identification compares against,
      whether or not the read-back that follows the commit succeeds. */
  lemma AddedPhotoComesFirst(db: Db, personId: int, filename: string, filePath: string,
                             embedding: seq<real>, confidence: real, now: int)
    requires HasPerson(db, personId) && |embedding| == EmbeddingSize
    requires forall x :: x in db.photos ==> x.createdAt < now
    ensures var out := AddPhotoToPerson(db, personId, filename, filePath, embedding, confidence, now);
      |ActiveEmbeddings(out.1)| > 0 && ActiveEmbeddings(out.1)[0].photoId == NextPhotoId(db)
  {
    var out := AddPhotoToPerson(db, personId, filename, filePath, embedding, confidence, now);
    var db' := out.1;
    var x := db'.photos[|db.photos|];
    assert HasPerson(db', personId);
    assert Eligible(db', x);
    var kept := EligibleRows(db');
    NewestFirstSortedLemma(kept, PhotoStamp);
    var r := NewestFirst(kept, PhotoStamp);
    assert x in r;
    forall y | y in r && y != x
      ensures Precedes(PhotoStamp(x), PhotoStamp(y))
    {
      assert y in db'.photos;
      assert y in db.photos;
    }
    NewestHeads(r, x, PhotoStamp);
  }

  // ---------------------------------------------------- identification

  /** What the face extractor does with the uploaded image. */
  datatype Extraction = Extracted(embedding: seq<real>, confidence: real) | NoFace | ExtractorError

  /** The `(IdentificationResult, embedding)` pair `identify_person` returns. */
  datatype Identification = Identification(result: IdentificationResult, embedding: seq<real>)

  /** The zero non-match with an empty embedding returned after an
      unexpected failure. */
  const Failed: Identification := Identification(DefaultResult, [])

  /** The `(photo_id, embedding)` candidates with their comparison outcomes. */
  function RowCandidates(rows: seq<Row>, score: seq<real> -> Score): (cs: seq<Candidate>)
    ensures |cs| == |rows|
    ensures forall i :: 0 <= i < |rows| ==> cs[i] == Candidate(rows[i].photoId, score(rows[i].embedding))
  {
    seq(|rows|, i requires 0 <= i < |rows| => Candidate(rows[i].photoId, score(rows[i].embedding)))
  }

  /** The key `next(row for row in rows if row['photo_id'] == id)`
      compares. */
  function RowPhotoId(r: Row): int { r.photoId }

  /** A built result with the embedding, or the zero failure when building
      the result raises. */
  function Finish(result: Option<IdentificationResult>, embedding: seq<real>): (r: Identification)
    ensures result.None? ==> r == Failed
    ensures result.Some? ==> r.result == result.value && r.embedding == embedding
  {
    if result.None? then Failed else Identification(result.value, embedding)
  }

  /** The comparison stage of `identify_person` for a usable extraction:
      the best match over the rows, then the row it came from. */
  function Decide(rows: seq<Row>, threshold: real, embedding: seq<real>, confidence: real,
                  score: seq<real> -> Score): (r: Identification)
    ensures !ValidateConfidence(confidence) ==> r == Failed
    ensures ValidateConfidence(confidence) ==> r.embedding == embedding && r.result.confidence == confidence
  {
    if rows == [] then
      Finish(MakeResult(None, None, confidence, 0.0, false, None), embedding)
    else
      var cs := RowCandidates(rows, score);
      var best := FindBestMatch(cs, None, threshold);
      if best.None? then
        Finish(MakeResult(None, None, confidence, 0.0, false, None), embedding)
      else
        MatchIsCandidate(cs, None, threshold);
        var m := best.value;
        var row := FindFirst(rows, RowPhotoId, m.photoId);
        Finish(if row.Some? then MakeResult(Some(row.value.personId), Some(row.value.personName), confidence,
                                            m.similarity, true, Some(m.photoId))
               else MakeResult(None, None, confidence, m.similarity, false, None), embedding)
  }

  /** `identify_person`. `FaceDetectionError` from the extractor
      propagates; any other failure, from the extractor, the store or the
      result's own validation, gives the zero non-match. */
  function Identify(db: Db, threshold: real, extraction: Extraction, score: seq<real> -> Score, storeFails: bool)
    : (r: Result<Identification>)
    ensures extraction.NoFace? <==> r.Err?
    ensures r.Err? ==> r.error == FaceDetectionError
    ensures extraction.ExtractorError? || (extraction.Extracted? && storeFails) ==> r == Ok(Failed)
    ensures extraction.Extracted? && !storeFails ==>
      r == Ok(Decide(ActiveEmbeddings(db), threshold, extraction.embedding, extraction.confidence, score))
    ensures extraction.Extracted? && !storeFails && ValidateConfidence(extraction.confidence) ==>
      r.Ok? && r.value.embedding == extraction.embedding && r.value.result.confidence == extraction.confidence
  {
    match extraction
    case NoFace => Err(FaceDetectionError)
    case ExtractorError => Ok(Failed)
    case Extracted(embedding, confidence) =>
      if storeFails then Ok(Failed)
      else Ok(Decide(ActiveEmbeddings(db), threshold, embedding, confidence, score))
  }

  /** The winner's row is always found: the candidates are built from the
      same rows, so the final fallback of `identify_person` is dead code. */
  lemma MatchedRowAlwaysFound(rows: seq<Row>, score: seq<real> -> Score, threshold: real)
    requires FindBestMatch(RowCandidates(rows, score), None, threshold).Some?
    ensures FindFirst(rows, RowPhotoId, FindBestMatch(RowCandidates(rows, score), None, threshold).value.photoId).Some?
  {
    var cs := RowCandidates(rows, score);
    var m := FindBestMatch(cs, None, threshold).value;
    MatchIsCandidate(cs, None, threshold);
    var k :| 0 <= k < |cs| && cs[k] == Candidate(m.photoId, Scored(m.similarity));
    assert rows[k].photoId == m.photoId;
  }

  /** Some row's comparison beats both the threshold and 0. */
  predicate SomeRowMatches(rows: seq<Row>, score: seq<real> -> Score, threshold: real) {
    exists i :: 0 <= i < |rows| && Beats(Candidate(rows[i].photoId, score(rows[i].embedding)), threshold, 0.0)
  }

  /** For a usable extraction, the result is a match exactly when some row
      compares above both the threshold and 0. */
  lemma DecideMatchIff(rows: seq<Row>, threshold: real, embedding: seq<real>, confidence: real, score: seq<real> -> Score)
    requires ValidateConfidence(confidence)
    ensures Decide(rows, threshold, embedding, confidence, score).result.isMatch <==> SomeRowMatches(rows, score, threshold)
  {
    var cs := RowCandidates(rows, score);
    if rows != [] {
      var best := FindBestMatch(cs, None, threshold);
      if best.Some? {
        MatchedRowAlwaysFound(rows, score, threshold);
        MatchIsCandidate(cs, None, threshold);
        var k :| 0 <= k < |cs| && cs[k] == Candidate(best.value.photoId, Scored(best.value.similarity));
        assert Beats(cs[k], threshold, 0.0);
      } else {
        forall j | 0 <= j < |rows|
          ensures !Beats(Candidate(rows[j].photoId, score(rows[j].embedding)), threshold, 0.0)
        {
          assert cs[j] == Candidate(rows[j].photoId, score(rows[j].embedding));
        }
      }
    }
  }

  /** A match names the photo of a row that beat the threshold, with that
      comparison's similarity clamped to 1, and the person and name of the
      first row carrying that photo. */
  lemma DecideMatchNames(rows: seq<Row>, threshold: real, embedding: seq<real>, confidence: real, score: seq<real> -> Score)
    requires ValidateConfidence(confidence)
    requires Decide(rows, threshold, embedding, confidence, score).result.isMatch
    ensures var r := Decide(rows, threshold, embedding, confidence, score).result;
      exists k :: 0 <= k < |rows|
        && Some(rows[k].photoId) == r.photoId
        && score(rows[k].embedding).Scored?
        && score(rows[k].embedding).similarity > threshold && score(rows[k].embedding).similarity > 0.0
        && r.similarity == Clamp(score(rows[k].embedding).similarity)
    ensures var r := Decide(rows, threshold, embedding, confidence, score).result;
      exists i :: 0 <= i < |rows|
        && Some(rows[i].photoId) == r.photoId
        && r.personId == Some(rows[i].personId) && r.personName == Some(rows[i].personName)
  {
    var cs := RowCandidates(rows, score);
    var best := FindBestMatch(cs, None, threshold);
    MatchedRowAlwaysFound(rows, score, threshold);
    MatchIsCandidate(cs, None, threshold);
    var k :| 0 <= k < |cs| && cs[k] == Candidate(best.value.photoId, Scored(best.value.similarity));
    assert score(rows[k].embedding) == Scored(best.value.similarity);
    var row := FindFirst(rows, RowPhotoId, best.value.photoId);
    var i :| 0 <= i < |rows| && rows[i] == row.value && row.value.photoId == best.value.photoId
      && forall j :: 0 <= j < i ==> RowPhotoId(rows[j]) != best.value.photoId;
  }

  /** A match reports the photo and the clamped similarity that the best
      match over the rows' candidates returns. */
  lemma DecideReportsWinner(rows: seq<Row>, threshold: real, embedding: seq<real>, confidence: real,
                            score: seq<real> -> Score)
    requires ValidateConfidence(confidence)
    requires Decide(rows, threshold, embedding, confidence, score).result.isMatch
    ensures var r := Decide(rows, threshold, embedding, confidence, score).result;
      var best := FindBestMatch(RowCandidates(rows, score), None, threshold);
      best.Some? && r.photoId == Some(best.value.photoId) && r.similarity == Clamp(best.value.similarity)
  {
    var cs := RowCandidates(rows, score);
    if rows != [] && FindBestMatch(cs, None, threshold).Some? {
      MatchedRowAlwaysFound(rows, score, threshold);
      MatchIsCandidate(cs, None, threshold);
    }
  }

  /** No row compares better than a reported match: every row above both
      the threshold and 0 has a clamped similarity no greater than the
      reported one. */
  lemma DecideMatchIsBest(rows: seq<Row>, threshold: real, embedding: seq<real>, confidence: real,
                          score: seq<real> -> Score)
    requires ValidateConfidence(confidence)
    requires Decide(rows, threshold, embedding, confidence, score).result.isMatch
    ensures var r := Decide(rows, threshold, embedding, confidence, score).result;
      forall k :: 0 <= k < |rows| && score(rows[k].embedding).Scored?
        && score(rows[k].embedding).similarity > threshold && score(rows[k].embedding).similarity > 0.0
        ==> Clamp(score(rows[k].embedding).similarity) <= r.similarity
  {
    var r := Decide(rows, threshold, embedding, confidence, score).result;
    var cs := RowCandidates(rows, score);
    DecideReportsWinner(rows, threshold, embedding, confidence, score);
    forall k | 0 <= k < |rows| && score(rows[k].embedding).Scored?
      && score(rows[k].embedding).similarity > threshold && score(rows[k].embedding).similarity > 0.0
      ensures Clamp(score(rows[k].embedding).similarity) <= r.similarity
    {
      assert cs[k] == Candidate(rows[k].photoId, score(rows[k].embedding));
      MatchIsMaximal(cs, None, threshold, k);
      ClampMonotone(score(rows[k].embedding).similarity, FindBestMatch(cs, None, threshold).value.similarity);
    }
  }

  /** A store holding two photos of one person, both taken in the same
      second. */
  function SameSecondDb(v: seq<real>): Db {
    Db([Person(1, "Ann", 5)],
       [Photo(1, 1, "a.jpg", "persons/1/a.jpg", Some(Vector(v)), Some(0.9), true, 5),
        Photo(2, 1, "b.jpg", "persons/1/b.jpg", Some(Vector(v)), Some(0.9), true, 5)])
  }

  /** Photos of the same second are compared in key order. */
  lemma SameSecondCandidates(v: seq<real>)
    requires |v| == EmbeddingSize
    ensures CandidatePhotos(SameSecondDb(v)) == SameSecondDb(v).photos
  {
    var db := SameSecondDb(v);
    var p1 := db.photos[0];
    var p2 := db.photos[1];
    assert HasPerson(db, 1) by { assert db.persons[0].id == 1; }
    assert Eligible(db, p1) && Eligible(db, p2);
    assert db.photos[1..] == [p2] && [p2][1..] == [];
    assert Filter([p2], (p: Photo) => Eligible(db, p)) == [p2];
    assert EligibleRows(db) == [p1, p2];
    assert [p1, p2][..1] == [p1];
    assert NewestFirst([p1], PhotoStamp) == [p1];
  }

  /** Two photos of the same second compared equally well: the one with
      the smaller key is reported. */
  lemma SameSecondTieReportsSmallerKey(v: seq<real>)
    requires |v| == EmbeddingSize
    ensures var r := Identify(SameSecondDb(v), 0.6, Extracted(v, 0.9), (e: seq<real>) => Scored(0.9), false);
      r.Ok? && r.value.result.isMatch && r.value.result.photoId == Some(1)
  {
    var db := SameSecondDb(v);
    var score := (e: seq<real>) => Scored(0.9);
    SameSecondCandidates(v);
    var rows := ActiveEmbeddings(db);
    assert |rows| == 2 && rows[0].photoId == 1 && rows[1].photoId == 2;
    var cs := RowCandidates(rows, score);
    assert cs == [Candidate(1, Scored(0.9)), Candidate(2, Scored(0.9))];
    OrderMatters();
    assert Beats(Candidate(rows[0].photoId, score(rows[0].embedding)), 0.6, 0.0);
    DecideMatchIff(rows, 0.6, v, 0.9, score);
    DecideReportsWinner(rows, 0.6, v, 0.9, score);
    assert Identify(db, 0.6, Extracted(v, 0.9), score, false) == Ok(Decide(rows, 0.6, v, 0.9, score));
  }

  /** A non-match names nobody and reports similarity 0. */
  lemma DecideNonMatch(rows: seq<Row>, threshold: real, embedding: seq<real>, confidence: real, score: seq<real> -> Score)
    requires ValidateConfidence(confidence)
    requires !Decide(rows, threshold, embedding, confidence, score).result.isMatch
    ensures Decide(rows, threshold, embedding, confidence, score).result
      == IdentificationResult(None, None, confidence, 0.0, false, None)
  {
    var cs := RowCandidates(rows, score);
    if rows != [] && FindBestMatch(cs, None, threshold).Some? {
      MatchedRowAlwaysFound(rows, score, threshold);
    }
  }

  // ---------------------------------------------------------- statistics

  datatype Stats = Stats(
    totalPhotos: nat,
    activePhotos: nat,
    avgConfidence: real,
    lastPhotoDate: Option<int>,
    previewPhoto: Option<string>)

  const ZeroStats: Stats := Stats(0, 0, 0.0, None, None)

  /** `sum(p.confidence for p in photos)`; `None` when a confidence is
      NULL, since adding `None` raises. */
  function SumConfidence(ps: seq<Photo>): (r: Option<real>)
    ensures r.None? <==> exists i :: 0 <= i < |ps| && ps[i].confidence.None?
    decreases |ps|
  {
    if ps == [] then Some(0.0)
    else
      var rest := SumConfidence(ps[1..]);
      assert forall i :: 1 <= i < |ps| ==> ps[i] == ps[1..][i - 1];
      if ps[0].confidence.None? || rest.None? then None
      else Some(ps[0].confidence.value + rest.value)
  }

  /** With every confidence in [0, 1], the sum lies in [0, count]. */
  lemma {:induction false} SumConfidenceBounds(ps: seq<Photo>)
    requires forall i :: 0 <= i < |ps| ==> ps[i].confidence.Some? && 0.0 <= ps[i].confidence.value <= 1.0
    ensures SumConfidence(ps).Some?
    ensures 0.0 <= SumConfidence(ps).value <= |ps| as real
    decreases |ps|
  {
    if ps != [] {
      assert forall i :: 1 <= i < |ps| ==> ps[i] == ps[1..][i - 1];
      SumConfidenceBounds(ps[1..]);
    }
  }

  /** `max(p.created_at for p in photos)`, as an index. */
  function LatestIndex(ps: seq<Photo>): (k: nat)
    requires |ps| > 0
    ensures k < |ps|
    ensures forall i :: 0 <= i < |ps| ==> ps[i].createdAt <= ps[k].createdAt
    decreases |ps|
  {
    if |ps| == 1 then 0
    else
      var k := LatestIndex(ps[1..]) + 1;
      assert forall i :: 1 <= i < |ps| ==> ps[i] == ps[1..][i - 1];
      if ps[k].createdAt > ps[0].createdAt then k else 0
  }

  /** `min(photos, key=created_at)`: the first photo of least creation time. */
  function EarliestIndex(ps: seq<Photo>): (k: nat)
    requires |ps| > 0
    ensures k < |ps|
    ensures forall i :: 0 <= i < |ps| ==> ps[k].createdAt <= ps[i].createdAt
    ensures forall i :: 0 <= i < k ==> ps[i].createdAt > ps[k].createdAt
    decreases |ps|
  {
    if |ps| == 1 then 0
    else
      var k := EarliestIndex(ps[1..]) + 1;
      assert forall i :: 1 <= i < |ps| ==> ps[i] == ps[1..][i - 1];
      if ps[k].createdAt < ps[0].createdAt then k else 0
  }

  /** All photos of a person, in table order. */
  function PhotosOf(db: Db, id: int): (ps: seq<Photo>)
    ensures forall x :: x in ps <==> x in db.photos && x.personId == id
  {
    Filter(db.photos, (p: Photo) => p.personId == id)
  }

  /** The active ones among them. */
  function ActiveOf(ps: seq<Photo>): (active: seq<Photo>)
    ensures |active| <= |ps|
    ensures forall x :: x in active <==> x in ps && x.isActive
  {
    Filter(ps, (p: Photo) => p.isActive)
  }

  /** `sum / count`. */
  function Average(sum: real, count: nat): (avg: real)
    requires count > 0
    ensures avg * (count as real) == sum
  {
    sum / (count as real)
  }

  /** The statistics over a person's photos. */
  function StatsOf(ps: seq<Photo>): (s: Stats)
    ensures s.activePhotos <= s.totalPhotos
    ensures SumConfidence(ActiveOf(ps)).None? ==> s == ZeroStats
    ensures ActiveOf(ps) == [] ==> s == Stats(|ps|, 0, 0.0, None, None)
    ensures SumConfidence(ActiveOf(ps)).Some? ==> s.totalPhotos == |ps| && s.activePhotos == |ActiveOf(ps)|
    ensures ActiveOf(ps) != [] && SumConfidence(ActiveOf(ps)).Some? ==>
      s.avgConfidence == Average(SumConfidence(ActiveOf(ps)).value, |ActiveOf(ps)|)
    ensures ActiveOf(ps) != [] && SumConfidence(ActiveOf(ps)).Some? ==>
      s.lastPhotoDate == Some(ActiveOf(ps)[LatestIndex(ActiveOf(ps))].createdAt)
      && s.previewPhoto == Some(ActiveOf(ps)[EarliestIndex(ActiveOf(ps))].filePath)
  {
    var active := ActiveOf(ps);
    if active == [] then Stats(|ps|, 0, 0.0, None, None)
    else
      var sum := SumConfidence(active);
      if sum.None? then ZeroStats
      else
        Stats(|ps|, |active|, Average(sum.value, |active|), Some(active[LatestIndex(active)].createdAt),
              Some(active[EarliestIndex(active)].filePath))
  }

  /** `get_person_stats`. A NULL confidence among the active photos makes
      the sum raise, and the handler returns all zeros. */
  function GetPersonStats(db: Db, id: int): (s: Stats)
    ensures s.activePhotos <= s.totalPhotos
    ensures s.totalPhotos == 0 || s.totalPhotos == |PhotosOf(db, id)|
    ensures s.activePhotos == 0 ==> s.avgConfidence == 0.0 && s.lastPhotoDate.None? && s.previewPhoto.None?
  {
    StatsOf(PhotosOf(db, id))
  }

  /** The latest date is the newest active photo's, and the preview is the
      path of the first active photo of least creation time. */
  lemma StatsDates(db: Db, id: int)
    requires GetPersonStats(db, id).activePhotos > 0
    ensures var s := GetPersonStats(db, id); var active := ActiveOf(PhotosOf(db, id));
      && s.lastPhotoDate.Some?
      && (exists i :: 0 <= i < |active| && active[i].createdAt == s.lastPhotoDate.value)
      && (forall i :: 0 <= i < |active| ==> active[i].createdAt <= s.lastPhotoDate.value)
    ensures var s := GetPersonStats(db, id); var active := ActiveOf(PhotosOf(db, id));
      && s.previewPhoto.Some?
      && exists k ::
        && 0 <= k < |active| && active[k].filePath == s.previewPhoto.value
        && (forall i :: 0 <= i < |active| ==> active[k].createdAt <= active[i].createdAt)
        && (forall i :: 0 <= i < k ==> active[i].createdAt > active[k].createdAt)
  {
    var active := ActiveOf(PhotosOf(db, id));
    var k := EarliestIndex(active);
    assert active[k].filePath == GetPersonStats(db, id).previewPhoto.value;
  }

  /** The counts are of the person's photos and of the active ones. */
  lemma StatsCounts(db: Db, id: int)
    requires SumConfidence(ActiveOf(PhotosOf(db, id))).Some?
    ensures GetPersonStats(db, id).totalPhotos == |PhotosOf(db, id)|
    ensures GetPersonStats(db, id).activePhotos == |ActiveOf(PhotosOf(db, id))|
    ensures forall x :: x in ActiveOf(PhotosOf(db, id)) <==> x in db.photos && x.personId == id && x.isActive
  {
  }

  /** A NULL confidence on an active photo zeroes every statistic. */
  lemma StatsNullConfidence(db: Db, id: int, x: Photo)
    requires x in db.photos && x.personId == id && x.isActive && x.confidence.None?
    ensures GetPersonStats(db, id) == ZeroStats
  {
    var active := ActiveOf(PhotosOf(db, id));
    assert x in active;
    var i :| 0 <= i < |active| && active[i] == x;
  }

  /** An average of values in [0, 1] is in [0, 1]. */
  lemma AverageBounds(sum: real, n: real)
    requires 0.0 <= sum <= n && n > 0.0
    ensures 0.0 <= sum / n <= 1.0
  {
    var avg := sum / n;
    assert avg * n == sum;
    if avg < 0.0 {
      ProductSign(0.0 - avg, n);
    }
    if avg > 1.0 {
      ProductSign(avg - 1.0, n);
    }
  }

  /** With confidences in [0, 1] the average is in [0, 1]. */
  lemma StatsAverageBounds(db: Db, id: int)
    requires forall x :: x in db.photos ==> x.confidence.Some? && 0.0 <= x.confidence.value <= 1.0
    ensures 0.0 <= GetPersonStats(db, id).avgConfidence <= 1.0
  {
    var active := ActiveOf(PhotosOf(db, id));
    if active != [] {
      assert forall i :: 0 <= i < |active| ==> active[i] in db.photos;
      SumConfidenceBounds(active);
      AverageBounds(SumConfidence(active).value, |active| as real);
      assert Average(SumConfidence(active).value, |active|) == SumConfidence(active).value / (|active| as real);
    }
  }
}
