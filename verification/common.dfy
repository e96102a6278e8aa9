/** Failure-carrying datatypes shared by every module of the model, and
    the rule by which SQLite keys a new row.

    The application signals failure with a small hierarchy of exception
    classes; here each class is one constructor of `Error`, and an operation
    that may raise returns a `Result`. */
module Common {

  datatype Option<+T> = None | Some(value: T)

  /** The exception classes of the application, plus `Unexpected` for any
      other exception (a library error, a type error, ...). */
  datatype Error =
    | FileValidationError
    | FileStorageError
    | FaceDetectionError
    | PersonNotFoundError
    | PhotoNotFoundError
    | DatabaseError
    | ModelInitializationError
    | ValidationError
    | Unexpected

  datatype Result<+T> = Ok(value: T) | Err(error: Error)

  /** The `{'is_valid': ..., 'errors': [...]}` dictionaries the validators
      return. `isValid` and `errors` are independent fields: some checks add
      an error without clearing `isValid`. */
  datatype Report<+E> = Report(isValid: bool, errors: seq<E>)

  /** The key SQLite gives a new row of a table whose `INTEGER PRIMARY KEY`
      is not `AUTOINCREMENT`: one more than the largest stored key, or 1
      for an empty table. Deleting the row with the largest key frees that
      key for the next insert. */
  function NextKey<T>(rows: seq<T>, key: T -> int): (k: int)
    ensures forall i :: 0 <= i < |rows| ==> key(rows[i]) < k
    ensures rows == [] ==> k == 1
    ensures rows != [] ==> exists i :: 0 <= i < |rows| && key(rows[i]) == k - 1
    decreases |rows|
  {
    if rows == [] then 1
    else
      var init := rows[..|rows| - 1];
      var last := key(rows[|rows| - 1]);
      if init == [] then last + 1
      else
        var k := NextKey(init, key);
        assert forall i :: 0 <= i < |init| ==> rows[i] == init[i];
        if last + 1 >= k then last + 1 else k
  }

  /** With keys increasing along the table, the next key follows the last
      row's key. */
  lemma NextKeyAfterLast<T>(rows: seq<T>, key: T -> int)
    requires rows != []
    requires forall i, j :: 0 <= i < j < |rows| ==> key(rows[i]) < key(rows[j])
    ensures NextKey(rows, key) == key(rows[|rows| - 1]) + 1
  {
    var k := NextKey(rows, key);
    var i :| 0 <= i < |rows| && key(rows[i]) == k - 1;
  }

  /** The position of the first row whose key is `id`, or the length of
      the table when no row has it: the row a query's `.first()` and a
      generator's `next(...)` stop at. */
  function FirstIndex<T>(rows: seq<T>, key: T -> int, id: int): (k: nat)
    ensures k <= |rows|
    ensures k < |rows| ==> key(rows[k]) == id
    ensures forall j :: 0 <= j < k ==> key(rows[j]) != id
    decreases |rows|
  {
    if rows == [] then 0
    else if key(rows[0]) == id then 0
    else
      assert forall j :: 1 <= j < |rows| ==> rows[j] == rows[1..][j - 1];
      1 + FirstIndex(rows[1..], key, id)
  }

  /** The first row whose key is `id`, or `None` when no row has it. */
  function FindFirst<T>(rows: seq<T>, key: T -> int, id: int): (r: Option<T>)
    ensures r.None? <==> forall i :: 0 <= i < |rows| ==> key(rows[i]) != id
    ensures r.Some? ==> key(r.value) == id && r.value in rows
    ensures r.Some? ==> exists i ::
      0 <= i < |rows| && rows[i] == r.value && forall j :: 0 <= j < i ==> key(rows[j]) != id
  {
    var k := FirstIndex(rows, key, id);
    if k < |rows| then Some(rows[k]) else None
  }

  /** With no two rows sharing the key `id`, the row at `k` that has it is
      the one found. */
  lemma FindFirstUnique<T>(rows: seq<T>, key: T -> int, id: int, k: int)
    requires 0 <= k < |rows| && key(rows[k]) == id
    requires forall i :: 0 <= i < |rows| && i != k ==> key(rows[i]) != id
    ensures FindFirst(rows, key, id) == Some(rows[k])
  {
    var j := FirstIndex(rows, key, id);
    assert j == k;
  }

  function Min(a: int, b: int): int { if a <= b then a else b }

  /** Python truthiness of an optional integer: `None` and `0` are false. */
  predicate Truthy(x: Option<int>) {
    x.Some? && x.value != 0
  }
}
