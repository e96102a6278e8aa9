/** The two tables of app/models/database.py as immutable sequences.

    Rows are kept in insertion order, which is the order of their integer
    primary keys; `created_at` comes from a clock that does not run
    backwards and has a resolution of one second. `ORDER BY created_at
    DESC` is `NewestFirst`: newer rows first, rows of the same second in
    key order. */
module Store {
  import opened Common

  /** The `embedding_vector` column once unpickled: a vector, a pickled
      `None`, or bytes that fail to unpickle. A SQL NULL is the `None` of
      the enclosing `Option`. */
  datatype Blob = Vector(values: seq<real>) | NullObject | Undecodable

  datatype Person = Person(id: int, name: string, createdAt: int)

  datatype Photo = Photo(
    id: int,
    personId: int,
    filename: string,
    filePath: string,
    embedding: Option<Blob>,
    confidence: Option<real>,
    isActive: bool,
    createdAt: int)

  /** Both tables. Neither key is `AUTOINCREMENT`, so a new key is
      derived from the stored rows (`NextKey`), not from a counter. */
  datatype Db = Db(persons: seq<Person>, photos: seq<Photo>)

  const EmptyDb: Db := Db([], [])

  /** The primary keys, the column `filter(X.id == id).first()` looks up. */
  function PersonKey(p: Person): int { p.id }
  function PhotoKey(p: Photo): int { p.id }

  /** The key of the next person row. */
  function NextPersonId(db: Db): (k: int)
    ensures forall i :: 0 <= i < |db.persons| ==> db.persons[i].id < k
    ensures db.persons == [] ==> k == 1
    ensures db.persons != [] ==> exists i :: 0 <= i < |db.persons| && db.persons[i].id == k - 1
  {
    NextKey(db.persons, PersonKey)
  }

  /** The key of the next photo row. */
  function NextPhotoId(db: Db): (k: int)
    ensures forall i :: 0 <= i < |db.photos| ==> db.photos[i].id < k
    ensures db.photos == [] ==> k == 1
    ensures db.photos != [] ==> exists i :: 0 <= i < |db.photos| && db.photos[i].id == k - 1
  {
    NextKey(db.photos, PhotoKey)
  }

  /** Keys increase and creation times do not decrease along the table. */
  predicate PersonsOrdered(ps: seq<Person>) {
    forall i, j :: 0 <= i < j < |ps| ==> ps[i].id < ps[j].id && ps[i].createdAt <= ps[j].createdAt
  }

  predicate PhotosOrdered(ps: seq<Photo>) {
    forall i, j :: 0 <= i < j < |ps| ==> ps[i].id < ps[j].id && ps[i].createdAt <= ps[j].createdAt
  }

  predicate HasPerson(db: Db, id: int) {
    exists i :: 0 <= i < |db.persons| && db.persons[i].id == id
  }

  /** Ordered tables, positive keys, and every photo's `person_id` naming
      a stored person. */
  predicate WellFormed(db: Db) {
    && PersonsOrdered(db.persons)
    && PhotosOrdered(db.photos)
    && (forall i :: 0 <= i < |db.persons| ==> 1 <= db.persons[i].id)
    && (forall i :: 0 <= i < |db.photos| ==> 1 <= db.photos[i].id)
    && (forall i :: 0 <= i < |db.photos| ==> HasPerson(db, db.photos[i].personId))
  }

  /** A clock reading no earlier than any stored row. */
  predicate NotBefore(db: Db, now: int) {
    && (forall i :: 0 <= i < |db.persons| ==> db.persons[i].createdAt <= now)
    && (forall i :: 0 <= i < |db.photos| ==> db.photos[i].createdAt <= now)
  }

  /** The declared column widths: `name` and `filename` up to 255
      characters, `file_path` up to 500. SQLite does not enforce them. */
  predicate ColumnsFit(db: Db) {
    && (forall i :: 0 <= i < |db.persons| ==> |db.persons[i].name| <= 255)
    && (forall i :: 0 <= i < |db.photos| ==> |db.photos[i].filename| <= 255 && |db.photos[i].filePath| <= 500)
  }

  /** The rows of a table that `keep` selects, in table order: the
      `filter(...)` of a query. */
  function Filter<T(!new)>(s: seq<T>, keep: T -> bool): (r: seq<T>)
    ensures |r| <= |s|
    ensures forall x :: x in r <==> x in s && keep(x)
    decreases |s|
  {
    if s == [] then []
    else
      var rest := Filter(s[1..], keep);
      assert forall x :: x in s <==> x == s[0] || x in s[1..];
      if keep(s[0]) then [s[0]] + rest else rest
  }

  /** A row appended to a table is appended to the filtered rows when it
      is selected. */
  lemma {:induction false} FilterAppend<T(!new)>(s: seq<T>, x: T, keep: T -> bool)
    ensures Filter(s + [x], keep) == Filter(s, keep) + (if keep(x) then [x] else [])
    decreases |s|
  {
    if s == [] {
      assert [x][1..] == [];
    } else {
      assert (s + [x])[0] == s[0];
      assert (s + [x])[1..] == s[1..] + [x];
      FilterAppend(s[1..], x, keep);
    }
  }

  /** Filtering keeps the table order. */
  lemma {:induction false} FilterPhotosOrdered(ps: seq<Photo>, keep: Photo -> bool)
    requires PhotosOrdered(ps)
    ensures PhotosOrdered(Filter(ps, keep))
    decreases |ps|
  {
    if ps != [] {
      var rest := Filter(ps[1..], keep);
      assert PhotosOrdered(ps[1..]) by {
        forall i, j | 0 <= i < j < |ps[1..]|
          ensures ps[1..][i].id < ps[1..][j].id && ps[1..][i].createdAt <= ps[1..][j].createdAt
        {
          assert ps[1..][i] == ps[i + 1] && ps[1..][j] == ps[j + 1];
        }
      }
      FilterPhotosOrdered(ps[1..], keep);
      if keep(ps[0]) {
        var r := [ps[0]] + rest;
        forall i, j | 0 <= i < j < |r|
          ensures r[i].id < r[j].id && r[i].createdAt <= r[j].createdAt
        {
          if i == 0 {
            assert r[j] == rest[j - 1] && r[j] in ps[1..];
            var m :| 0 <= m < |ps[1..]| && ps[1..][m] == r[j];
            assert ps[m + 1] == r[j];
          } else {
            assert r[i] == rest[i - 1] && r[j] == rest[j - 1];
          }
        }
      }
    }
  }

  lemma {:induction false} FilterPersonsOrdered(ps: seq<Person>, keep: Person -> bool)
    requires PersonsOrdered(ps)
    ensures PersonsOrdered(Filter(ps, keep))
    decreases |ps|
  {
    if ps != [] {
      var rest := Filter(ps[1..], keep);
      assert PersonsOrdered(ps[1..]) by {
        forall i, j | 0 <= i < j < |ps[1..]|
          ensures ps[1..][i].id < ps[1..][j].id && ps[1..][i].createdAt <= ps[1..][j].createdAt
        {
          assert ps[1..][i] == ps[i + 1] && ps[1..][j] == ps[j + 1];
        }
      }
      FilterPersonsOrdered(ps[1..], keep);
      if keep(ps[0]) {
        var r := [ps[0]] + rest;
        forall i, j | 0 <= i < j < |r|
          ensures r[i].id < r[j].id && r[i].createdAt <= r[j].createdAt
        {
          if i == 0 {
            assert r[j] == rest[j - 1] && r[j] in ps[1..];
            var m :| 0 <= m < |ps[1..]| && ps[1..][m] == r[j];
            assert ps[m + 1] == r[j];
          } else {
            assert r[i] == rest[i - 1] && r[j] == rest[j - 1];
          }
        }
      }
    }
  }

  // --------------------------------------------------- newest first

  /** The sort key of `ORDER BY created_at DESC`. `created_at` has a
      resolution of one second, so rows created in the same second tie;
      SQLite returns tied rows in table order, which is ascending key
      order. */
  datatype Stamp = Stamp(at: int, id: int)

  function PersonStamp(p: Person): Stamp { Stamp(p.createdAt, p.id) }

  function PhotoStamp(p: Photo): Stamp { Stamp(p.createdAt, p.id) }

  /** `a` is listed before `b`: it is newer, or as new with a smaller key. */
  predicate Precedes(a: Stamp, b: Stamp) {
    a.at > b.at || (a.at == b.at && a.id < b.id)
  }

  /** No row is listed after one it precedes. */
  predicate NewestFirstSorted<T(!new)>(s: seq<T>, key: T -> Stamp) {
    forall i, j :: 0 <= i < j < |s| ==> !Precedes(key(s[j]), key(s[i]))
  }

  /** Insertion of one row into a newest-first listing: after every row
      that precedes it. */
  function InsertNewest<T(!new)>(r: seq<T>, x: T, key: T -> Stamp): (out: seq<T>)
    ensures multiset(out) == multiset(r) + multiset{x}
    decreases |r|
  {
    if r == [] then [x]
    else if Precedes(key(r[0]), key(x)) then
      assert r == [r[0]] + r[1..];
      [r[0]] + InsertNewest(r[1..], x, key)
    else [x] + r
  }

  lemma {:induction false} InsertNewestSorted<T(!new)>(r: seq<T>, x: T, key: T -> Stamp)
    requires NewestFirstSorted(r, key)
    ensures NewestFirstSorted(InsertNewest(r, x, key), key)
    decreases |r|
  {
    if r != [] && Precedes(key(r[0]), key(x)) {
      var rest := r[1..];
      assert NewestFirstSorted(rest, key) by {
        forall i, j | 0 <= i < j < |rest|
          ensures !Precedes(key(rest[j]), key(rest[i]))
        {
          assert rest[i] == r[i + 1] && rest[j] == r[j + 1];
        }
      }
      InsertNewestSorted(rest, x, key);
      var tail := InsertNewest(rest, x, key);
      var out := [r[0]] + tail;
      forall j | 0 <= j < |tail|
        ensures !Precedes(key(tail[j]), key(r[0]))
      {
        assert tail[j] in multiset(tail);
        if tail[j] != x {
          assert tail[j] in multiset(rest);
          var m :| 0 <= m < |rest| && rest[m] == tail[j];
          assert r[m + 1] == tail[j];
        }
      }
      assert forall i, j :: 0 < i < j < |out| ==> out[i] == tail[i - 1] && out[j] == tail[j - 1];
    }
  }

  /** The rows of a table in the order of `ORDER BY created_at DESC`:
      every row is inserted into the listing of the rows before it. */
  function NewestFirst<T(!new)>(s: seq<T>, key: T -> Stamp): (r: seq<T>)
    ensures multiset(r) == multiset(s)
    decreases |s|
  {
    if s == [] then []
    else
      assert s == s[..|s| - 1] + [s[|s| - 1]];
      InsertNewest(NewestFirst(s[..|s| - 1], key), s[|s| - 1], key)
  }

  /** The listing is a permutation of the table in newest-first order. */
  lemma {:induction false} NewestFirstSortedLemma<T(!new)>(s: seq<T>, key: T -> Stamp)
    ensures NewestFirstSorted(NewestFirst(s, key), key)
    ensures |NewestFirst(s, key)| == |s|
    ensures forall x :: x in NewestFirst(s, key) <==> x in s
    decreases |s|
  {
    var r := NewestFirst(s, key);
    assert |multiset(r)| == |multiset(s)|;
    forall x
      ensures x in r <==> x in s
    {
      assert x in r <==> x in multiset(r);
      assert x in s <==> x in multiset(s);
    }
    if s != [] {
      NewestFirstSortedLemma(s[..|s| - 1], key);
      InsertNewestSorted(NewestFirst(s[..|s| - 1], key), s[|s| - 1], key);
    }
  }

  /** Keys distinct along a sequence. */
  predicate DistinctKeys<T(!new)>(s: seq<T>, key: T -> Stamp) {
    forall i, j :: 0 <= i < j < |s| ==> key(s[i]).id != key(s[j]).id
  }

  lemma {:induction false} InsertNewestDistinct<T(!new)>(r: seq<T>, x: T, key: T -> Stamp)
    requires DistinctKeys(r, key)
    requires forall i :: 0 <= i < |r| ==> key(r[i]).id != key(x).id
    ensures DistinctKeys(InsertNewest(r, x, key), key)
    decreases |r|
  {
    if r != [] {
      var rest := r[1..];
      assert forall i :: 0 <= i < |rest| ==> rest[i] == r[i + 1];
      var out := InsertNewest(r, x, key);
      if Precedes(key(r[0]), key(x)) {
        InsertNewestDistinct(rest, x, key);
        var tail := InsertNewest(rest, x, key);
        forall j | 0 <= j < |tail|
          ensures key(tail[j]).id != key(r[0]).id
        {
          assert tail[j] in multiset(tail);
          if tail[j] != x {
            assert tail[j] in multiset(rest);
            var m :| 0 <= m < |rest| && rest[m] == tail[j];
            assert r[m + 1] == tail[j];
          }
        }
        assert forall i, j :: 0 < i < j < |out| ==> out[i] == tail[i - 1] && out[j] == tail[j - 1];
      } else {
        assert forall i :: 0 < i < |out| ==> out[i] == r[i - 1];
      }
    }
  }

  /** Dropping the last row keeps keys distinct, and the last key is not
      among the others. */
  lemma InitDistinct<T(!new)>(s: seq<T>, key: T -> Stamp)
    requires DistinctKeys(s, key) && s != []
    ensures DistinctKeys(s[..|s| - 1], key)
    ensures forall y :: y in s[..|s| - 1] ==> key(y).id != key(s[|s| - 1]).id
  {
    var init := s[..|s| - 1];
    assert forall i :: 0 <= i < |init| ==> init[i] == s[i];
  }

  /** Distinct keys stay distinct in the listing. */
  lemma {:induction false} NewestFirstDistinct<T(!new)>(s: seq<T>, key: T -> Stamp)
    requires DistinctKeys(s, key)
    ensures DistinctKeys(NewestFirst(s, key), key)
    decreases |s|
  {
    if s != [] {
      var init := s[..|s| - 1];
      InitDistinct(s, key);
      NewestFirstDistinct(init, key);
      NewestFirstSortedLemma(init, key);
      var r0 := NewestFirst(init, key);
      forall i | 0 <= i < |r0|
        ensures key(r0[i]).id != key(s[|s| - 1]).id
      {
        assert r0[i] in r0;
      }
      InsertNewestDistinct(r0, s[|s| - 1], key);
    }
  }

  /** With distinct keys the listing strictly orders its rows: newer
      first, rows of the same second by ascending key. */
  lemma NewestFirstStrict<T(!new)>(s: seq<T>, key: T -> Stamp)
    requires DistinctKeys(s, key)
    ensures var r := NewestFirst(s, key);
      forall i, j :: 0 <= i < j < |r| ==> Precedes(key(r[i]), key(r[j]))
  {
    NewestFirstDistinct(s, key);
    NewestFirstSortedLemma(s, key);
  }

  /** A row that precedes every other row of a newest-first listing heads
      it. */
  lemma NewestHeads<T(!new)>(r: seq<T>, x: T, key: T -> Stamp)
    requires NewestFirstSorted(r, key) && x in r
    requires forall y :: y in r && y != x ==> Precedes(key(x), key(y))
    ensures r[0] == x
  {
    var k :| 0 <= k < |r| && r[k] == x;
    assert k == 0 || !Precedes(key(r[k]), key(r[0]));
  }

  /** A new person row: the next key and the current time. */
  function InsertPerson(db: Db, name: string, now: int): (out: (Person, Db))
    ensures out.0 == Person(NextPersonId(db), name, now)
    ensures out.1.persons == db.persons + [out.0] && out.1.photos == db.photos
  {
    var p := Person(NextPersonId(db), name, now);
    (p, db.(persons := db.persons + [p]))
  }

  /** A new photo row; `is_active` takes its column default, true. */
  function InsertPhoto(db: Db, personId: int, filename: string, filePath: string,
                       embedding: Option<Blob>, confidence: Option<real>, now: int): (out: (Photo, Db))
    ensures out.0 == Photo(NextPhotoId(db), personId, filename, filePath, embedding, confidence, true, now)
    ensures out.1.photos == db.photos + [out.0] && out.1.persons == db.persons
  {
    var p := Photo(NextPhotoId(db), personId, filename, filePath, embedding, confidence, true, now);
    (p, db.(photos := db.photos + [p]))
  }

  /** Deleting a person row; the `all, delete-orphan` cascade deletes the
      person's photos with it. */
  function DeletePersonCascade(db: Db, id: int): (r: Db)
    ensures forall x :: x in r.persons <==> x in db.persons && x.id != id
    ensures forall x :: x in r.photos <==> x in db.photos && x.personId != id
  {
    db.(persons := Filter(db.persons, (p: Person) => p.id != id),
        photos := Filter(db.photos, (p: Photo) => p.personId != id))
  }

  /** Deleting one photo row. */
  function DeletePhotoRow(db: Db, id: int): (r: Db)
    ensures r.persons == db.persons
    ensures forall x :: x in r.photos <==> x in db.photos && x.id != id
  {
    db.(photos := Filter(db.photos, (p: Photo) => p.id != id))
  }

  // ------------------------------------------------------- key reuse

  /** The next person key follows the newest person's key, and deleting
      that person frees it: the following insert gets a key no larger. */
  lemma DeleteNewestPersonFreesKey(db: Db)
    requires WellFormed(db) && db.persons != []
    ensures var id := db.persons[|db.persons| - 1].id;
      NextPersonId(db) == id + 1 && NextPersonId(DeletePersonCascade(db, id)) <= id
  {
    var id := db.persons[|db.persons| - 1].id;
    NextKeyAfterLast(db.persons, PersonKey);
    var r := DeletePersonCascade(db, id);
    forall i | 0 <= i < |r.persons|
      ensures r.persons[i].id < id
    {
      assert r.persons[i] in db.persons;
    }
  }

  /** The same for photos: deleting the newest photo frees its key. */
  lemma DeleteNewestPhotoFreesKey(db: Db)
    requires WellFormed(db) && db.photos != []
    ensures var id := db.photos[|db.photos| - 1].id;
      NextPhotoId(db) == id + 1 && NextPhotoId(DeletePhotoRow(db, id)) <= id
  {
    var id := db.photos[|db.photos| - 1].id;
    NextKeyAfterLast(db.photos, PhotoKey);
    var r := DeletePhotoRow(db, id);
    forall i | 0 <= i < |r.photos|
      ensures r.photos[i].id < id
    {
      assert r.photos[i] in db.photos;
    }
  }

  // ------------------------------------------------------ preservation

  lemma InsertPersonWellFormed(db: Db, name: string, now: int)
    requires WellFormed(db) && NotBefore(db, now)
    ensures WellFormed(InsertPerson(db, name, now).1)
    ensures NotBefore(InsertPerson(db, name, now).1, now)
  {
    var db' := InsertPerson(db, name, now).1;
    forall i | 0 <= i < |db'.photos|
      ensures HasPerson(db', db'.photos[i].personId)
    {
      assert HasPerson(db, db.photos[i].personId);
      var k :| 0 <= k < |db.persons| && db.persons[k].id == db.photos[i].personId;
      assert db'.persons[k] == db.persons[k];
    }
  }

  /** Inserting a photo keeps the store well formed when its person
      exists; the database itself does not check this. */
  lemma InsertPhotoWellFormed(db: Db, personId: int, filename: string, filePath: string,
                              embedding: Option<Blob>, confidence: Option<real>, now: int)
    requires WellFormed(db) && NotBefore(db, now)
    requires HasPerson(db, personId)
    ensures WellFormed(InsertPhoto(db, personId, filename, filePath, embedding, confidence, now).1)
    ensures NotBefore(InsertPhoto(db, personId, filename, filePath, embedding, confidence, now).1, now)
  {
    var out := InsertPhoto(db, personId, filename, filePath, embedding, confidence, now);
    var db' := out.1;
    AppendPhotoOrdered(db.photos, out.0);
    assert db'.persons == db.persons && db'.photos == db.photos + [out.0];
    forall i | 0 <= i < |db'.photos|
      ensures 1 <= db'.photos[i].id && HasPerson(db', db'.photos[i].personId)
    {
      if i < |db.photos| {
        assert db'.photos[i] == db.photos[i];
      }
    }
  }

  /** A row newer than every stored row, with a larger key, extends the
      order. */
  lemma AppendPhotoOrdered(ps: seq<Photo>, x: Photo)
    requires PhotosOrdered(ps)
    requires forall i :: 0 <= i < |ps| ==> ps[i].id < x.id && ps[i].createdAt <= x.createdAt
    ensures PhotosOrdered(ps + [x])
  {
  }

  /** Changing only the names of people keeps the store well formed. */
  lemma SameKeysWellFormed(db: Db, db': Db)
    requires WellFormed(db)
    requires db'.photos == db.photos
    requires |db'.persons| == |db.persons|
    requires forall i :: 0 <= i < |db.persons| ==>
      db'.persons[i].id == db.persons[i].id && db'.persons[i].createdAt == db.persons[i].createdAt
    ensures WellFormed(db')
  {
    forall i | 0 <= i < |db'.photos|
      ensures HasPerson(db', db'.photos[i].personId)
    {
      var m :| 0 <= m < |db.persons| && db.persons[m].id == db.photos[i].personId;
      assert db'.persons[m].id == db.persons[m].id;
    }
  }

  /** Keeping some rows of a well-formed store, in order, keeps it well
      formed as long as the owner of every kept photo is kept. */
  lemma KeptRowsWellFormed(db: Db, r: Db)
    requires WellFormed(db)
    requires PersonsOrdered(r.persons) && PhotosOrdered(r.photos)
    requires forall x :: x in r.persons ==> x in db.persons
    requires forall x :: x in r.photos ==> x in db.photos
    requires forall x, p :: x in r.photos && p in db.persons && p.id == x.personId ==> p in r.persons
    ensures WellFormed(r)
  {
    forall i | 0 <= i < |r.persons|
      ensures 1 <= r.persons[i].id
    {
      assert r.persons[i] in db.persons;
    }
    forall i | 0 <= i < |r.photos|
      ensures 1 <= r.photos[i].id && HasPerson(r, r.photos[i].personId)
    {
      var x := r.photos[i];
      assert x in db.photos;
      var n :| 0 <= n < |db.photos| && db.photos[n] == x;
      var k :| 0 <= k < |db.persons| && db.persons[k].id == x.personId;
      assert db.persons[k] in r.persons;
    }
  }

  lemma DeletePersonCascadeWellFormed(db: Db, id: int)
    requires WellFormed(db)
    ensures WellFormed(DeletePersonCascade(db, id))
  {
    FilterPersonsOrdered(db.persons, (p: Person) => p.id != id);
    FilterPhotosOrdered(db.photos, (p: Photo) => p.personId != id);
    KeptRowsWellFormed(db, DeletePersonCascade(db, id));
  }

  lemma DeletePhotoRowWellFormed(db: Db, id: int)
    requires WellFormed(db)
    ensures WellFormed(DeletePhotoRow(db, id))
  {
    FilterPhotosOrdered(db.photos, (p: Photo) => p.id != id);
    KeptRowsWellFormed(db, DeletePhotoRow(db, id));
  }
}
